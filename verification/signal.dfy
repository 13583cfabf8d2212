/** Signal disposition bookkeeping of kernel/signal.c: the blocked mask, the
    table of `sigaction` entries of the running task, and the decision
    `do_signal` takes when it delivers a signal on the way back to user
    mode. User-space copies (`get_fs_byte`, `put_fs_long`) become values
    passed in and returned. */
module Signal {
  import opened Common

  /** The `sa_flags` bits the modelled code tests. */
  datatype SaFlag = SaNoMask | SaOneShot

  /** `struct sigaction`. A handler of 0 is SIG_DFL and 1 is SIG_IGN. */
  datatype SigAction = SigAction(handler: int, mask: SigSet, flags: set<SaFlag>, restorer: int)

  /** The signal fields of the running task: `blocked` and `sigaction[32]`,
      where entry `sig - 1` belongs to signal `sig`. */
  datatype SigState = SigState(blocked: SigSet, actions: seq<SigAction>) {
    predicate Valid() {
      |actions| == 32
    }
  }

  /** The word `1 << n` has bit `n` set and no other. */
  lemma {:induction false} Pow2Bit(n: nat, i: nat)
    ensures WordBit(Pow2(n), i) == if i == n then 1 else 0
    decreases n
  {
    if n == 0 {
      if i > 0 {
        assert Pow2(n) / 2 == 0;
        ZeroBit(i - 1);
      }
    } else {
      assert Pow2(n) % 2 == 0 && Pow2(n) / 2 == Pow2(n - 1);
      if i > 0 {
        Pow2Bit(n - 1, i - 1);
      }
    }
  }

  lemma {:induction false} ZeroBit(i: nat)
    ensures WordBit(0, i) == 0
  {
    if i > 0 {
      ZeroBit(i - 1);
    }
  }

  /** `sys_sgetmask()`: the blocked mask as the `int` the call returns,
      negative when signal 32 is blocked. */
  function SysSgetmask(st: SigState): (w: int)
    ensures -0x8000_0000 <= w < 0x8000_0000
    ensures MaskOfWord(Bits(w)) == st.blocked
    ensures 32 in st.blocked <==> w < 0
  {
    MaskWordRoundTrip(st.blocked);
    var word := MaskWord(st.blocked);
    WordHasHigh(word);
    Int32(word)
  }

  /** Bit 31 of a 32-bit word is set exactly when the word is 2^31 or more. */
  lemma WordHasHigh(w: nat)
    requires w < WORD
    ensures WordHas(w, 32) <==> w >= 0x8000_0000
  {
    Pow2Below(31);
    HighBit(w, 31);
  }

  /** Bit `n` of a word below `2 * 2^n` is set exactly when the word is at
      least `2^n`. */
  lemma {:induction false} HighBit(w: nat, n: nat)
    requires w < 2 * Pow2(n)
    ensures WordBit(w, n) == 1 <==> w >= Pow2(n)
    decreases n
  {
    if n > 0 {
      HighBit(w / 2, n - 1);
    }
  }

  /** `sys_ssetmask(newmask)`: `blocked` becomes `newmask` without the
      SIGKILL bit, and the old mask is returned as `sys_sgetmask` would. */
  function SysSsetmask(st: SigState, newmask: int, sigs: Signals): (r: (SigState, int))
    requires sigs.Valid()
    ensures r.0.blocked == MaskOfWord(Bits(newmask)) - {sigs.kill}
    ensures sigs.kill !in r.0.blocked
    ensures r.0.actions == st.actions
    ensures -0x8000_0000 <= r.1 < 0x8000_0000
    ensures MaskOfWord(Bits(r.1)) == st.blocked
    ensures 32 in st.blocked <==> r.1 < 0
  {
    (st.(blocked := MaskOfWord(Bits(newmask)) - {sigs.kill}), SysSgetmask(st))
  }

  /** The `int` of a blocked mask is unique: any value in the signed range
      whose bits are the blocked set is the one `sys_sgetmask` returns. So
      the contract of `SysSsetmask` fixes the old mask it returns. */
  lemma SignedMaskUnique(st: SigState, w: int)
    requires -0x8000_0000 <= w < 0x8000_0000
    requires MaskOfWord(Bits(w)) == st.blocked
    ensures w == SysSgetmask(st)
  {
    var g := SysSgetmask(st);
    WordRoundTrip(Bits(w));
    WordRoundTrip(Bits(g));
    SignedUnique(w, g);
  }

  /** The mask `sys_sgetmask` reads back after `sys_ssetmask(newmask)` holds
      every signal of `newmask` except SIGKILL, and nothing else. */
  lemma SetThenGetMask(st: SigState, newmask: int, sigs: Signals)
    requires sigs.Valid()
    ensures forall sig :: InSigRange(sig) ==>
      ((sig in MaskOfWord(Bits(SysSgetmask(SysSsetmask(st, newmask, sigs).0))))
        <==> (sig != sigs.kill && WordHas(Bits(newmask), sig)))
  {
  }

  /** The signal numbers `sys_signal` and `sys_sigaction` accept. */
  predicate Settable(signum: int, sigs: Signals) {
    InSigRange(signum) && signum != sigs.kill
  }

  /** `sys_signal(signum, handler, restorer)`: installs a one-shot handler
      that blocks nothing more while it runs, and returns the handler it
      replaces; -1 and no change for a signal number it refuses. */
  function SysSignal(st: SigState, signum: int, handler: int, restorer: int, sigs: Signals): (r: (SigState, int))
    requires st.Valid() && sigs.Valid()
    ensures !Settable(signum, sigs) ==> r == (st, -1)
    ensures Settable(signum, sigs) ==>
      && r.0 == st.(actions := st.actions[signum - 1 := SigAction(handler, {}, {SaOneShot, SaNoMask}, restorer)])
      && r.1 == st.actions[signum - 1].handler
    ensures r.0.Valid() && r.0.blocked == st.blocked
    ensures forall i :: 0 <= i < 32 && i != signum - 1 ==> r.0.actions[i] == st.actions[i]
  {
    if !Settable(signum, sigs) then (st, -1)
    else
      var prev := st.actions[signum - 1].handler;
      var tmp := SigAction(handler, {}, {SaOneShot, SaNoMask}, restorer);
      (st.(actions := st.actions[signum - 1 := tmp]), prev)
  }

  /** Handing the handler `sys_signal` returned back to `sys_signal`
      restores the previous handler. */
  lemma SignalRestoresHandler(st: SigState, signum: int, handler: int, restorer: int, sigs: Signals)
    requires st.Valid() && sigs.Valid() && Settable(signum, sigs)
    ensures var (st1, prev) := SysSignal(st, signum, handler, restorer, sigs);
      SysSignal(st1, signum, prev, restorer, sigs).0.actions[signum - 1].handler == st.actions[signum - 1].handler
  {
  }

  /** The `sa_mask` `sys_sigaction` keeps for signal `signum`: none while
      SA_NOMASK is set, the given mask plus the signal itself otherwise. */
  function Normalised(a: SigAction, signum: int): (b: SigAction)
    requires InSigRange(signum)
    ensures SaNoMask in a.flags ==> b.mask == {}
    ensures SaNoMask !in a.flags ==> signum in b.mask && b.mask - {signum} == a.mask - {signum}
    ensures b.(mask := a.mask) == a
  {
    if SaNoMask in a.flags then a.(mask := {}) else a.(mask := a.mask + {signum})
  }

  /** The result of `sys_sigaction`: the status, and the previous action,
      which is copied to `oldaction` when that pointer is not null. */
  datatype SigactionResult = SigactionResult(st: SigState, status: int, previous: Option<SigAction>)

  /** `sys_sigaction(signum, action, oldaction)`, with the new action read
      from user space passed in. */
  function SysSigaction(st: SigState, signum: int, action: SigAction, sigs: Signals): (r: SigactionResult)
    requires st.Valid() && sigs.Valid()
    ensures r.st.Valid() && r.st.blocked == st.blocked
    ensures !Settable(signum, sigs) ==> r == SigactionResult(st, -1, None)
    ensures Settable(signum, sigs) ==>
      && r.status == 0
      && r.previous == Some(st.actions[signum - 1])
      && r.st.actions[signum - 1].(mask := action.mask) == action
      && (SaNoMask in action.flags ==> r.st.actions[signum - 1].mask == {})
      && (SaNoMask !in action.flags ==> r.st.actions[signum - 1].mask == action.mask + {signum})
    ensures forall i :: 0 <= i < 32 && i != signum - 1 ==> r.st.actions[i] == st.actions[i]
  {
    if !Settable(signum, sigs) then SigactionResult(st, -1, None)
    else
      var tmp := st.actions[signum - 1];
      SigactionResult(st.(actions := st.actions[signum - 1 := Normalised(action, signum)]), 0, Some(tmp))
  }

  /** Installing again the action `sys_sigaction` stored changes nothing,
      and hands that action back. */
  lemma SigactionIdempotent(st: SigState, signum: int, action: SigAction, sigs: Signals)
    requires st.Valid() && sigs.Valid() && Settable(signum, sigs)
    ensures var r := SysSigaction(st, signum, action, sigs);
      var r2 := SysSigaction(r.st, signum, r.st.actions[signum - 1], sigs);
      r2.st == r.st && r2.previous == Some(r.st.actions[signum - 1])
  {
    var r := SysSigaction(st, signum, action, sigs);
    var r2 := SysSigaction(r.st, signum, r.st.actions[signum - 1], sigs);
    assert r2.st.actions == r.st.actions;
  }

  /** The registers of the interrupted user context that `do_signal` uses. */
  datatype Regs = Regs(eax: int, ecx: int, edx: int, eflags: int, eip: int, esp: int)

  /** What `do_signal(signr, ...)` does: nothing, `do_exit(code)`, or a
      handler frame pushed on the user stack with `eip` and `esp` changed. */
  datatype Delivery =
    | Ignored
    | DefaultExit(code: int)
    | Frame(st: SigState, frame: seq<int>, eip: int, esp: int)

  /** The exit code of a signal's default action, `1 << (signr - 1)` as an
      `int`: bit `signr - 1` set, negative for signal 32. */
  function DefaultCode(signr: int): (code: int)
    requires InSigRange(signr)
    ensures -0x8000_0000 <= code < 0x8000_0000
    ensures MaskOfWord(Bits(code)) == {signr}
    ensures signr < 32 ==> code > 0
    ensures signr == 32 ==> code < 0
  {
    Pow2Below(signr - 1);
    var w := Pow2(signr - 1);
    forall i: nat ensures WordBit(w, i) == if i == signr - 1 then 1 else 0 {
      Pow2Bit(signr - 1, i);
    }
    Int32(w)
  }

  /** The frame `do_signal` writes below the user stack pointer, lowest
      address first: restorer, signal number, the blocked mask unless
      SA_NOMASK is set, eax, ecx, edx, eflags and the interrupted eip. */
  function FrameWords(a: SigAction, signr: int, blocked: SigSet, regs: Regs): (f: seq<int>)
    ensures |f| == if SaNoMask in a.flags then 7 else 8
  {
    [a.restorer, signr]
      + (if SaNoMask in a.flags then [] else [MaskWord(blocked)])
      + [regs.eax, regs.ecx, regs.edx, regs.eflags, regs.eip]
  }

  /** `do_signal(signr, ...)` for the running task: SIG_IGN does nothing,
      SIG_DFL does nothing for SIGCHLD and exits with the signal's bit
      otherwise; a handler gets a frame, runs with the mask widened by
      its `sa_mask`, and is reset to SIG_DFL when it is one-shot. */
  function DoSignal(st: SigState, signr: int, regs: Regs, sigs: Signals): (r: Delivery)
    requires st.Valid() && sigs.Valid() && InSigRange(signr)
    ensures st.actions[signr - 1].handler == 1 ==> r == Ignored
    ensures st.actions[signr - 1].handler == 0 && signr == sigs.chld ==> r == Ignored
    ensures st.actions[signr - 1].handler == 0 && signr != sigs.chld ==> r == DefaultExit(DefaultCode(signr))
    ensures r.Frame? <==> st.actions[signr - 1].handler != 0 && st.actions[signr - 1].handler != 1
    ensures r.Frame? ==>
      var a := st.actions[signr - 1];
      && r.eip == a.handler
      && r.esp == regs.esp - 4 * |r.frame|
      && r.frame == FrameWords(a, signr, st.blocked, regs)
      && r.st.blocked == st.blocked + a.mask
      && |r.st.actions| == 32
      && r.st.actions[signr - 1] == (if SaOneShot in a.flags then a.(handler := 0) else a)
      && forall i :: 0 <= i < 32 && i != signr - 1 ==> r.st.actions[i] == st.actions[i]
  {
    var a := st.actions[signr - 1];
    if a.handler == 1 then Ignored
    else if a.handler == 0 then
      if signr == sigs.chld then Ignored else DefaultExit(DefaultCode(signr))
    else
      var actions := if SaOneShot in a.flags then st.actions[signr - 1 := a.(handler := 0)] else st.actions;
      var frame := FrameWords(a, signr, st.blocked, regs);
      Frame(SigState(st.blocked + a.mask, actions), frame, a.handler, regs.esp - 4 * |frame|)
  }

  /** The user context a frame holds, as the restorer reads it back. */
  datatype Saved = Saved(restorer: int, signr: int, blocked: Option<SigSet>, eax: int, ecx: int,
                         edx: int, eflags: int, eip: int)

  /** Reads a frame of 7 words (no saved mask) or 8 words. */
  function DecodeFrame(f: seq<int>): (s: Option<Saved>)
    ensures s.Some? <==> |f| == 7 || (|f| == 8 && f[2] >= 0)
  {
    if |f| == 7 then Some(Saved(f[0], f[1], None, f[2], f[3], f[4], f[5], f[6]))
    else if |f| == 8 && f[2] >= 0 then Some(Saved(f[0], f[1], Some(MaskOfWord(f[2])), f[3], f[4], f[5], f[6], f[7]))
    else None
  }

  /** A frame pushed by `do_signal` gives back, word for word, the
      interrupted context: the registers, the signal, the restorer, and the
      blocked mask from before the handler's `sa_mask` was added. Popping
      it returns `esp` to where it was. */
  lemma FrameRoundTrip(st: SigState, signr: int, regs: Regs, sigs: Signals)
    requires st.Valid() && sigs.Valid() && InSigRange(signr)
    requires DoSignal(st, signr, regs, sigs).Frame?
    ensures var d := DoSignal(st, signr, regs, sigs);
      var a := st.actions[signr - 1];
      && d.esp + 4 * |d.frame| == regs.esp
      && DecodeFrame(d.frame) == Some(Saved(a.restorer, signr,
           if SaNoMask in a.flags then None else Some(st.blocked),
           regs.eax, regs.ecx, regs.edx, regs.eflags, regs.eip))
  {
    MaskWordRoundTrip(st.blocked);
  }

  /** A one-shot handler runs once: the next delivery of the same signal
      takes the default action. */
  lemma OneShotThenDefault(st: SigState, signr: int, regs: Regs, regs2: Regs, sigs: Signals)
    requires st.Valid() && sigs.Valid() && InSigRange(signr)
    requires st.actions[signr - 1].handler !in {0, 1} && SaOneShot in st.actions[signr - 1].flags
    ensures var d := DoSignal(st, signr, regs, sigs);
      d.Frame? && DoSignal(d.st, signr, regs2, sigs) ==
        if signr == sigs.chld then Ignored else DefaultExit(DefaultCode(signr))
  {
  }

  /** `sys_ssetmask` keeps SIGKILL out of `blocked`, but `sys_sigaction`
      does not keep it out of `sa_mask`, and `do_signal` adds `sa_mask` to
      `blocked`: a handler can run with SIGKILL blocked. */
  lemma KillBlockedThroughSaMask(st: SigState, signum: int, handler: int, regs: Regs, sigs: Signals)
    requires st.Valid() && sigs.Valid() && Settable(signum, sigs)
    requires handler !in {0, 1}
    ensures var r := SysSigaction(st, signum, SigAction(handler, {sigs.kill}, {}, 0), sigs);
      var d := DoSignal(r.st, signum, regs, sigs);
      d.Frame? && sigs.kill in d.st.blocked
  {
  }
}
