/** Process termination, signal sending and reaping of kernel/exit.c, over
    the task table: slot 0 is the first task, slot 1 is init, and `cur` is
    the slot of the running task (`current`). A task pointer is the index
    of the slot that holds the task. */
module Exit {
  import opened Common

  datatype TaskState = Running | Interruptible | Uninterruptible | Zombie | Stopped

  /** The fields of a task the modelled code reads or writes. */
  datatype Task = Task(
    pid: int, father: int, pgrp: int, session: int, leader: bool,
    state: TaskState, signal: SigSet, euid: int, tty: int, exitCode: int,
    utime: int, stime: int, cutime: int, cstime: int)

  /** `task[NR_TASKS]`: a slot is empty or holds a task. */
  type Table = seq<Option<Task>>

  /** The table has slots 0 and 1, and `cur` holds the running task. */
  predicate ValidTable(t: Table, cur: int) {
    |t| >= 2 && 0 <= cur < |t| && t[cur].Some?
  }

  /** The task with signal `sig` pending as well. */
  function Signalled(p: Task, sig: int): (q: Task)
    requires InSigRange(sig)
    ensures q.signal == p.signal + {sig} && q.(signal := p.signal) == p
  {
    p.(signal := p.signal + {sig})
  }

  /** `suser()`: the running task's effective user is root. */
  predicate Suser(me: Task) {
    me.euid == 0
  }

  /** The result of `send_sig` and the target slot afterwards. */
  datatype Sent = Sent(err: Status, target: Option<Task>)

  /** `send_sig(sig, p, priv)` sent by the running task `me`. */
  function SendSig(me: Task, sig: int, p: Option<Task>, priv: bool): (r: Sent)
    ensures p.None? || !InSigRange(sig) ==> r == Sent(Err(EINVAL), p)
    ensures p.Some? && InSigRange(sig) && (priv || me.euid == p.value.euid || Suser(me)) ==>
      r.err == Ok && r.target.Some? && r.target.value.signal == p.value.signal + {sig}
      && r.target.value.(signal := p.value.signal) == p.value
    ensures p.Some? && InSigRange(sig) && !(priv || me.euid == p.value.euid || Suser(me)) ==>
      r == Sent(Err(EPERM), p)
  {
    if p.None? || !InSigRange(sig) then Sent(Err(EINVAL), p)
    else if priv || me.euid == p.value.euid || Suser(me) then Sent(Ok, Some(Signalled(p.value, sig)))
    else Sent(Err(EPERM), p)
  }

  /** The slots `sys_kill(pid, sig)` passes to `send_sig`: the caller's own
      process group for 0, the task with that pid for a positive pid, every
      slot (empty ones too) for -1, the process group `-pid` otherwise. */
  predicate KillSelects(pid: int, me: Task, slot: Option<Task>) {
    if pid == 0 then slot.Some? && slot.value.pgrp == me.pid
    else if pid > 0 then slot.Some? && slot.value.pid == pid
    else if pid == -1 then true
    else slot.Some? && slot.value.pgrp == -pid
  }

  /** What `sys_kill` does to one slot: the send only selected slots get,
      privileged for `pid == 0` only. */
  function KillSlot(pid: int, me: Task, sig: int, slot: Option<Task>): Sent {
    if KillSelects(pid, me, slot) then SendSig(me, sig, slot, pid == 0) else Sent(Ok, slot)
  }

  /** `sys_kill(pid, sig)`: slots `NR_TASKS-1` down to 1 are each handled once
      (slot 0 never); the result is the error of the last failing send,
      which is the failing slot of lowest index, or 0. */
  method SysKill(t: Table, cur: nat, pid: int, sig: int) returns (r: Table, status: Status)
    requires ValidTable(t, cur)
    ensures |r| == |t| && r[0] == t[0]
    ensures forall k :: 1 <= k < |t| ==> r[k] == KillSlot(pid, t[cur].value, sig, t[k]).target
    ensures status.Ok? <==> forall k :: 1 <= k < |t| ==> KillSlot(pid, t[cur].value, sig, t[k]).err.Ok?
    ensures status.Err? ==> exists k :: (1 <= k < |t| && KillSlot(pid, t[cur].value, sig, t[k]).err == status
      && forall j :: 1 <= j < k ==> KillSlot(pid, t[cur].value, sig, t[j]).err.Ok?)
    ensures pid == 0 && InSigRange(sig) ==> status.Ok? && forall k :: 1 <= k < |t| && t[k].Some? ==>
      r[k].Some? && r[k].value.signal == (if t[k].value.pgrp == t[cur].value.pid then t[k].value.signal + {sig} else t[k].value.signal)
    ensures pid == -1 && (exists k :: 1 <= k < |t| && t[k].None?) ==> status.Err?
    ensures pid == -1 && InSigRange(sig) ==> forall k ::
      (1 <= k < |t| && t[k].Some? && (t[cur].value.euid == t[k].value.euid || Suser(t[cur].value)))
      ==> r[k].Some? && sig in r[k].value.signal
  {
    var me := t[cur].value;
    r := t;
    status := Ok;
    var i := |t|;
    while i > 1
      invariant 1 <= i <= |t| && |r| == |t|
      invariant forall k :: 0 <= k < i ==> r[k] == t[k]
      invariant forall k :: i <= k < |t| ==> r[k] == KillSlot(pid, me, sig, t[k]).target
      invariant status.Ok? <==> forall k :: i <= k < |t| ==> KillSlot(pid, me, sig, t[k]).err.Ok?
      invariant status.Err? ==> exists k :: (i <= k < |t| && KillSlot(pid, me, sig, t[k]).err == status
        && forall j :: i <= j < k ==> KillSlot(pid, me, sig, t[j]).err.Ok?)
    {
      i := i - 1;
      var sent := KillSlot(pid, me, sig, r[i]);
      r := r[i := sent.target];
      if sent.err.Err? {
        status := sent.err;
      }
    }
    if pid == -1 && (exists k :: 1 <= k < |t| && t[k].None?) {
      var k :| 1 <= k < |t| && t[k].None?;
      assert !KillSlot(pid, me, sig, t[k]).err.Ok?;
    }
  }

  /** Slot holds a task of the given session. */
  predicate InSession(slot: Option<Task>, session: int) {
    slot.Some? && slot.value.session == session
  }

  /** `kill_session`: SIGHUP to every task in slots `i-1` down to 1 of the
      given session. */
  function KillSessionBelow(t: Table, session: int, hup: int, i: nat): (r: Table)
    requires InSigRange(hup) && i <= |t|
    ensures |r| == |t|
    ensures forall k :: 0 <= k < |t| ==>
      r[k] == if 1 <= k < i && InSession(t[k], session) then Some(Signalled(t[k].value, hup)) else t[k]
    decreases i
  {
    if i <= 1 then t
    else
      var k := i - 1;
      var t1 := if InSession(t[k], session) then t[k := Some(Signalled(t[k].value, hup))] else t;
      KillSessionBelow(t1, session, hup, k)
  }

  function KillSession(t: Table, session: int, hup: int): (r: Table)
    requires InSigRange(hup)
    ensures |r| == |t|
    ensures forall k :: 1 <= k < |t| && InSession(t[k], session) ==> r[k].Some? && hup in r[k].value.signal
    ensures forall k :: 0 <= k < |t| && r[k] != t[k] ==>
      1 <= k && InSession(t[k], session) && r[k] == Some(Signalled(t[k].value, hup))
  {
    KillSessionBelow(t, session, hup, |t|)
  }

  /** `release(p)`, with `p` the slot index of the task (`None` for a null
      pointer): only slots 1.. are searched; a task not found there panics. */
  function Release(t: Table, p: Option<nat>): (r: Outcome<Table>)
    ensures p.None? ==> r == Done(t)
    ensures p.Some? ==> (r.Done? <==> 1 <= p.value < |t| && t[p.value].Some?)
    ensures p.Some? && r.Done? ==> (|r.value| == |t| && r.value[p.value].None?
      && forall j :: 0 <= j < |t| && j != p.value ==> r.value[j] == t[j])
  {
    match p
    case None => Done(t)
    case Some(i) => if 1 <= i < |t| && t[i].Some? then Done(t[i := None]) else Panic
  }

  predicate HasPid(slot: Option<Task>, pid: int) {
    slot.Some? && slot.value.pid == pid
  }

  /** The first slot at or after `i` holding a task with the given pid. */
  function FindPid(t: Table, pid: int, i: nat): (r: Option<nat>)
    requires i <= |t|
    ensures r.Some? ==> (i <= r.value < |t| && HasPid(t[r.value], pid)
      && forall j :: i <= j < r.value ==> !HasPid(t[j], pid))
    ensures r.None? <==> forall j :: i <= j < |t| ==> !HasPid(t[j], pid)
    decreases |t| - i
  {
    if i == |t| then None
    else if HasPid(t[i], pid) then Some(i)
    else FindPid(t, pid, i + 1)
  }

  /** `tell_father(father)` from the task in slot `cur`: SIGCHLD to the first
      task (slot 0 included) whose pid is `father`; when `father` is 0 or
      there is no such task, the caller releases its own slot. */
  function TellFather(t: Table, cur: nat, father: int, chld: int): (r: Outcome<Table>)
    requires ValidTable(t, cur) && InSigRange(chld)
    ensures father != 0 && FindPid(t, father, 0).Some? ==>
      var k := FindPid(t, father, 0).value;
      r == Done(t[k := Some(Signalled(t[k].value, chld))])
    ensures father == 0 || FindPid(t, father, 0).None? ==> r == Release(t, Some(cur))
  {
    var found := if father != 0 then FindPid(t, father, 0) else None;
    match found
    case Some(k) => Done(t[k := Some(Signalled(t[k].value, chld))])
    case None => Release(t, Some(cur))
  }

  /** The father of the task in `slot` is `pid`. */
  predicate ChildOf(slot: Option<Task>, pid: int) {
    slot.Some? && slot.value.father == pid
  }

  predicate ZombieChild(slot: Option<Task>, pid: int) {
    ChildOf(slot, pid) && slot.value.state == Zombie
  }

  /** Some slot at or after `i` holds a zombie child of `pid`. */
  ghost predicate ZombieChildFrom(t: Table, pid: int, i: nat) {
    exists k :: i <= k < |t| && ZombieChild(t[k], pid)
  }

  /** A child of `pid` handed to init, anything else as it was. */
  function Adopted(slot: Option<Task>, pid: int): Option<Task> {
    if ChildOf(slot, pid) then Some(slot.value.(father := 1)) else slot
  }

  /** The reparenting loop of `do_exit` from slot `i` on: every child of
      `me` gets father 1, and each zombie among them sends SIGCHLD to the
      task in slot 1, with privilege. */
  function ReparentFrom(t: Table, me: Task, i: nat, chld: int): (r: Table)
    requires |t| >= 2 && i <= |t| && InSigRange(chld)
    ensures |r| == |t|
    ensures forall k :: 0 <= k < |t| && k != 1 ==> r[k] == if i <= k then Adopted(t[k], me.pid) else t[k]
    ensures r[1].Some? <==> t[1].Some?
    ensures t[1].Some? ==> r[1].value == t[1].value.(
      father := if i <= 1 && ChildOf(t[1], me.pid) then 1 else t[1].value.father,
      signal := if ZombieChildFrom(t, me.pid, i) then t[1].value.signal + {chld} else t[1].value.signal)
    decreases |t| - i
  {
    if i == |t| then t
    else if ChildOf(t[i], me.pid) then
      var t1 := t[i := Some(t[i].value.(father := 1))];
      var t2 := if t[i].value.state == Zombie then t1[1 := SendSig(me, chld, t1[1], true).target] else t1;
      ReparentPreservesZombies(t, t2, me.pid, i);
      ReparentFrom(t2, me, i + 1, chld)
    else
      ReparentFrom(t, me, i + 1, chld)
  }

  /** One step of the reparenting loop changes no slot after `i` except the
      signals of slot 1, so the zombie children after `i` are the same. */
  lemma ReparentPreservesZombies(t: Table, t2: Table, pid: int, i: nat)
    requires |t2| == |t| && i < |t|
    requires forall k :: i < k < |t| ==> (t2[k].Some? <==> t[k].Some?)
    requires forall k :: i < k < |t| && t[k].Some? ==>
      t2[k].value.father == t[k].value.father && t2[k].value.state == t[k].value.state
    ensures ZombieChildFrom(t2, pid, i + 1) <==> ZombieChildFrom(t, pid, i + 1)
    ensures ZombieChildFrom(t, pid, i) <==> ZombieChild(t[i], pid) || ZombieChildFrom(t, pid, i + 1)
  {
    if ZombieChildFrom(t2, pid, i + 1) {
      var k :| i + 1 <= k < |t2| && ZombieChild(t2[k], pid);
      assert ZombieChild(t[k], pid);
    }
    if ZombieChildFrom(t, pid, i + 1) {
      var k :| i + 1 <= k < |t| && ZombieChild(t[k], pid);
      assert ZombieChild(t2[k], pid);
    }
  }

  /** `exit_code` as stored by `sys_exit(error_code)`: the low byte of the
      argument in the high byte of the status, the low byte zero. */
  function SysExitCode(errorCode: int): (code: int)
    ensures 0 <= code <= 0xff00
    ensures code % 256 == 0 && code / 256 == errorCode % 256
  {
    (errorCode % 256) * 256
  }

  /** The table after `do_exit`, the tty whose `pgrp` was cleared, and the
      task (slot) that last used the maths coprocessor afterwards. */
  datatype Exited = Exited(table: Table, clearedTty: Option<int>, mathOwner: Option<nat>)

  /** The caller's father as `tell_father` reads it, after the reparenting
      loop (which only touches it if the caller were its own child). */
  function FatherAtExit(me: Task): int {
    if me.father == me.pid then 1 else me.father
  }

  /** The father `tell_father` is called with is the caller's own father
      field once the reparenting loop has run over the table. */
  lemma FatherAfterReparent(t: Table, cur: nat, chld: int)
    requires ValidTable(t, cur) && InSigRange(chld)
    ensures var t1 := ReparentFrom(t, t[cur].value, 0, chld);
      t1[cur].Some? && t1[cur].value.father == FatherAtExit(t[cur].value)
  {
    ReparentAll(t, t[cur].value, chld);
  }

  /** The signals slot `k` holds after the loops of `do_exit`: SIGCHLD for
      init when a zombie child was handed to it, SIGHUP for the caller's
      session (slots 1.. only) when the caller leads it. */
  ghost function SignalsAtExit(t: Table, me: Task, k: nat, sigs: Signals): SigSet
    requires k < |t| && t[k].Some? && sigs.Valid()
  {
    t[k].value.signal
      + (if k == 1 && ZombieChildFrom(t, me.pid, 0) then {sigs.chld} else {})
      + (if me.leader && 1 <= k && t[k].value.session == me.session then {sigs.hup} else {})
  }

  /** The table of `do_exit` just before `tell_father`: children handed to
      init, SIGCHLD and SIGHUP sent, the caller a zombie with its exit code.
      No slot is emptied or filled, and no other field changes. */
  function ZombieTable(t: Table, cur: nat, code: int, sigs: Signals): (r: Table)
    requires ValidTable(t, cur) && sigs.Valid()
    ensures |r| == |t|
    ensures forall k :: 0 <= k < |t| ==> (r[k].Some? <==> t[k].Some?)
    ensures forall k :: 0 <= k < |t| && t[k].Some? ==> r[k].value == t[k].value.(
      father := if t[k].value.father == t[cur].value.pid then 1 else t[k].value.father,
      signal := SignalsAtExit(t, t[cur].value, k, sigs),
      state := if k == cur then Zombie else t[k].value.state,
      exitCode := if k == cur then code else t[k].value.exitCode)
  {
    var me := t[cur].value;
    var t1 := ReparentFrom(t, me, 0, sigs.chld);
    ReparentAll(t, me, sigs.chld);
    HangUpAll(t1, me.session, sigs.hup);
    var t2 := if me.leader then KillSession(t1, me.session, sigs.hup) else t1;
    var r := t2[cur := Some(t2[cur].value.(state := Zombie, exitCode := code))];
    ZombieTableFacts(t, cur, code, sigs, ZombieChildFrom(t, me.pid, 0), t1, t2, r);
    r
  }

  /** The stages of `do_exit` composed slot by slot: `t1` is `t` after the
      reparenting loop, `t2` is `t1` after the session hang-up, and `r` is
      `t2` with the caller turned into a zombie. */
  lemma ZombieTableFacts(t: Table, cur: nat, code: int, sigs: Signals, zc: bool, t1: Table, t2: Table, r: Table)
    requires ValidTable(t, cur) && sigs.Valid()
    requires zc == ZombieChildFrom(t, t[cur].value.pid, 0)
    requires |t1| == |t| && |t2| == |t|
    requires forall k :: 0 <= k < |t| ==> (t1[k].Some? <==> t[k].Some?)
    requires forall k :: 0 <= k < |t| && t[k].Some? ==> t1[k].value == t[k].value.(
      father := if t[k].value.father == t[cur].value.pid then 1 else t[k].value.father,
      signal := t[k].value.signal + (if k == 1 && zc then {sigs.chld} else {}))
    requires forall k :: 0 <= k < |t| ==> (t2[k].Some? <==> t1[k].Some?)
    requires forall k :: 0 <= k < |t| && t1[k].Some? ==> t2[k].value == if t[cur].value.leader
      then t1[k].value.(signal := t1[k].value.signal
        + (if 1 <= k && t1[k].value.session == t[cur].value.session then {sigs.hup} else {}))
      else t1[k].value
    requires t2[cur].Some?
    requires r == t2[cur := Some(t2[cur].value.(state := Zombie, exitCode := code))]
    ensures |r| == |t|
    ensures forall k :: 0 <= k < |t| ==> (r[k].Some? <==> t[k].Some?)
    ensures forall k :: 0 <= k < |t| && t[k].Some? ==> r[k].value == t[k].value.(
      father := if t[k].value.father == t[cur].value.pid then 1 else t[k].value.father,
      signal := SignalsAtExit(t, t[cur].value, k, sigs),
      state := if k == cur then Zombie else t[k].value.state,
      exitCode := if k == cur then code else t[k].value.exitCode)
  {
    var me := t[cur].value;
    forall k | 0 <= k < |t| && t[k].Some?
      ensures r[k].value == t[k].value.(
        father := if t[k].value.father == me.pid then 1 else t[k].value.father,
        signal := SignalsAtExit(t, me, k, sigs),
        state := if k == cur then Zombie else t[k].value.state,
        exitCode := if k == cur then code else t[k].value.exitCode)
    {
      ZombieSlot(t[k].value, t1[k].value, t2[k].value, r[k].value, me, k, cur, code, sigs, zc);
    }
  }

  /** The fate of one task through the stages of `do_exit`. */
  lemma ZombieSlot(a: Task, b: Task, c: Task, d: Task, me: Task, k: nat, cur: nat, code: int, sigs: Signals, zc: bool)
    requires sigs.Valid()
    requires b == a.(
      father := if a.father == me.pid then 1 else a.father,
      signal := a.signal + (if k == 1 && zc then {sigs.chld} else {}))
    requires c == if me.leader
      then b.(signal := b.signal + (if 1 <= k && b.session == me.session then {sigs.hup} else {}))
      else b
    requires d == if k == cur then c.(state := Zombie, exitCode := code) else c
    ensures d == a.(
      father := if a.father == me.pid then 1 else a.father,
      signal := a.signal
        + (if k == 1 && zc then {sigs.chld} else {})
        + (if me.leader && 1 <= k && a.session == me.session then {sigs.hup} else {}),
      state := if k == cur then Zombie else a.state,
      exitCode := if k == cur then code else a.exitCode)
  {
  }

  /** The whole reparenting loop of `do_exit`. */
  lemma ReparentAll(t: Table, me: Task, chld: int)
    requires |t| >= 2 && InSigRange(chld)
    ensures forall k :: 0 <= k < |t| ==> (ReparentFrom(t, me, 0, chld)[k].Some? <==> t[k].Some?)
    ensures forall k :: 0 <= k < |t| && t[k].Some? ==> ReparentFrom(t, me, 0, chld)[k].value == t[k].value.(
      father := if t[k].value.father == me.pid then 1 else t[k].value.father,
      signal := t[k].value.signal + (if k == 1 && ZombieChildFrom(t, me.pid, 0) then {chld} else {}))
  {
    var t1 := ReparentFrom(t, me, 0, chld);
    forall k | 0 <= k < |t|
      ensures t1[k].Some? <==> t[k].Some?
      ensures t[k].Some? ==> t1[k].value == t[k].value.(
        father := if t[k].value.father == me.pid then 1 else t[k].value.father,
        signal := t[k].value.signal + (if k == 1 && ZombieChildFrom(t, me.pid, 0) then {chld} else {}))
    {
      if k != 1 {
        assert t1[k] == Adopted(t[k], me.pid);
      }
    }
  }

  /** `kill_session` in the form of a field update per slot. */
  lemma HangUpAll(t: Table, session: int, hup: int)
    requires InSigRange(hup)
    ensures forall k :: 0 <= k < |t| ==> (KillSession(t, session, hup)[k].Some? <==> t[k].Some?)
    ensures forall k :: 0 <= k < |t| && t[k].Some? ==> KillSession(t, session, hup)[k].value == t[k].value.(
      signal := t[k].value.signal + (if 1 <= k && t[k].value.session == session then {hup} else {}))
  {
    var t2 := KillSession(t, session, hup);
    forall k | 0 <= k < |t| && t[k].Some?
      ensures t2[k].value == t[k].value.(
        signal := t[k].value.signal + (if 1 <= k && t[k].value.session == session then {hup} else {}))
    {
      if 1 <= k && t[k].value.session == session {
        assert InSession(t[k], session);
      }
    }
  }

  /** `tell_father` finds no father: the father pid is 0 or no slot holds it. */
  predicate NoFather(t: Table, father: int) {
    father == 0 || FindPid(t, father, 0).None?
  }

  /** `do_exit(code)` of the task in slot `cur`, table effects only: the
      zombie table, then SIGCHLD to the father, or the caller's own slot
      released when it has none (which panics for slot 0). */
  function DoExit(t: Table, cur: nat, code: int, mathOwner: Option<nat>, sigs: Signals): (r: Outcome<Exited>)
    requires ValidTable(t, cur) && sigs.Valid()
    ensures r.Panic? <==> cur == 0 && NoFather(t, FatherAtExit(t[cur].value))
    ensures r.Done? ==> (r.value.clearedTty ==
      if t[cur].value.leader && t[cur].value.tty >= 0 then Some(t[cur].value.tty) else None)
    ensures r.Done? ==> r.value.mathOwner == (if mathOwner == Some(cur) then None else mathOwner)
    ensures r.Done? && NoFather(t, FatherAtExit(t[cur].value)) ==>
      r.value.table == ZombieTable(t, cur, code, sigs)[cur := None]
    ensures r.Done? && !NoFather(t, FatherAtExit(t[cur].value)) ==>
      var z := ZombieTable(t, cur, code, sigs);
      var k := FindPid(t, FatherAtExit(t[cur].value), 0).value;
      r.value.table == z[k := Some(Signalled(z[k].value, sigs.chld))]
  {
    var me := t[cur].value;
    var tty := if me.leader && me.tty >= 0 then Some(me.tty) else None;
    var math := if mathOwner == Some(cur) then None else mathOwner;
    var z := ZombieTable(t, cur, code, sigs);
    SamePidsFindPid(t, z, FatherAtExit(me), 0);
    match TellFather(z, cur, z[cur].value.father, sigs.chld)
    case Panic => Panic
    case Done(t4) => Done(Exited(t4, tty, math))
  }

  /** Two tables with the same pids in the same slots find the same father. */
  lemma SamePidsFindPid(t: Table, t2: Table, pid: int, i: nat)
    requires |t2| == |t| && i <= |t|
    requires forall k :: 0 <= k < |t| ==> (t2[k].Some? <==> t[k].Some?)
    requires forall k :: 0 <= k < |t| && t[k].Some? ==> t2[k].value.pid == t[k].value.pid
    ensures FindPid(t2, pid, i) == FindPid(t, pid, i)
  {
    forall k | i <= k < |t| ensures HasPid(t2[k], pid) == HasPid(t[k], pid) {
    }
    var a, b := FindPid(t, pid, i), FindPid(t2, pid, i);
    if a.Some? && b.Some? {
      assert !(a.value < b.value) && !(b.value < a.value);
    }
  }

  /** `sys_exit(error_code)`. */
  function SysExit(t: Table, cur: nat, errorCode: int, mathOwner: Option<nat>, sigs: Signals): (r: Outcome<Exited>)
    requires ValidTable(t, cur) && sigs.Valid()
    ensures r.Panic? <==> cur == 0 && NoFather(t, FatherAtExit(t[cur].value))
    ensures r.Done? ==> |r.value.table| == |t|
    ensures r.Done? && !NoFather(t, FatherAtExit(t[cur].value)) ==>
      var me := r.value.table[cur];
      (me.Some? && me.value.state == Zombie
       && me.value.exitCode % 256 == 0 && me.value.exitCode / 256 == errorCode % 256)
  {
    DoExit(t, cur, SysExitCode(errorCode), mathOwner, sigs)
  }

  /** The `options` flags of `sys_waitpid`. */
  datatype WaitOption = WNoHang | WUntraced

  /** The pid selector of `sys_waitpid`: that pid for a positive `pid`, the
      caller's process group for 0, any child for -1, the process group
      `-pid` otherwise. */
  predicate WaitSelects(pid: int, me: Task, p: Task) {
    if pid > 0 then p.pid == pid
    else if pid == 0 then p.pgrp == me.pgrp
    else if pid != -1 then p.pgrp == -pid
    else true
  }

  /** Slot `k` is one the scan of `sys_waitpid` considers: slots 1.. other
      than the caller's, holding a child of the caller the selector picks. */
  predicate WaitMatch(t: Table, cur: nat, pid: int, k: nat)
    requires ValidTable(t, cur) && k < |t|
  {
    1 <= k && k != cur && t[k].Some? && t[k].value.father == t[cur].value.pid
    && WaitSelects(pid, t[cur].value, t[k].value)
  }

  /** A child whose state the scan reports: a zombie, or a stopped task
      when WUNTRACED is set. */
  predicate Reportable(p: Task, untraced: bool) {
    p.state == Zombie || (p.state == Stopped && untraced)
  }

  /** A child that is neither a zombie nor stopped: one worth waiting for. */
  predicate Live(p: Task) {
    p.state != Zombie && p.state != Stopped
  }

  /** The end of the scan: the slot it stops at, or that it ran out, with
      `flag` telling whether a live child matched. */
  datatype Scan = Hit(slot: nat) | Miss(flag: bool)

  /** The scan of `sys_waitpid` over slots `i-1` down to 1. */
  function WaitScan(t: Table, cur: nat, pid: int, untraced: bool, i: nat): (r: Scan)
    requires ValidTable(t, cur) && i <= |t|
    ensures r.Hit? ==> (1 <= r.slot < i && WaitMatch(t, cur, pid, r.slot)
      && Reportable(t[r.slot].value, untraced)
      && forall k :: r.slot < k < i ==> !(WaitMatch(t, cur, pid, k) && Reportable(t[k].value, untraced)))
    ensures r.Miss? ==> forall k :: 1 <= k < i ==> !(WaitMatch(t, cur, pid, k) && Reportable(t[k].value, untraced))
    ensures r.Miss? ==> (r.flag <==> exists k :: 1 <= k < i && WaitMatch(t, cur, pid, k) && Live(t[k].value))
    decreases i
  {
    if i <= 1 then Miss(false)
    else
      var k := i - 1;
      if WaitMatch(t, cur, pid, k) && Reportable(t[k].value, untraced) then Hit(k)
      else match WaitScan(t, cur, pid, untraced, k)
        case Hit(j) => Hit(j)
        case Miss(flag) => Miss(flag || (WaitMatch(t, cur, pid, k) && Live(t[k].value)))
  }

  /** What `sys_waitpid` returns: a reaped zombie's pid with its exit code
      as status, a stopped child's pid with status 0x7f, 0 under WNOHANG,
      sleeping until a signal arrives, or -ECHILD. */
  datatype Waited = Reaped(pid: int, status: int) | StoppedChild(pid: int, status: int)
    | NoHang | Sleep | NoChild

  datatype WaitResult = WaitResult(table: Table, outcome: Waited)

  /** The caller with a reaped child's times added to its children's times,
      in the 32-bit `long` fields of the task. */
  function Charged(me: Task, child: Task): (r: Task)
    ensures Bits(r.cutime) == Bits(me.cutime + child.utime) && Bits(r.cstime) == Bits(me.cstime + child.stime)
    ensures -0x8000_0000 <= r.cutime < 0x8000_0000 && -0x8000_0000 <= r.cstime < 0x8000_0000
    ensures -0x8000_0000 <= me.cutime + child.utime < 0x8000_0000 ==> r.cutime == me.cutime + child.utime
    ensures -0x8000_0000 <= me.cstime + child.stime < 0x8000_0000 ==> r.cstime == me.cstime + child.stime
    ensures r.(cutime := me.cutime, cstime := me.cstime) == me
  {
    me.(cutime := Long(me.cutime + child.utime), cstime := Long(me.cstime + child.stime))
  }

  /** One pass of `sys_waitpid(pid, stat_addr, options)` by the task in slot
      `cur`, up to the sleep. */
  function SysWaitpid(t: Table, cur: nat, pid: int, options: set<WaitOption>): (r: WaitResult)
    requires ValidTable(t, cur)
    ensures r.outcome.Reaped? ==> exists k :: (1 <= k < |t| && WaitMatch(t, cur, pid, k)
      && t[k].value.state == Zombie
      && r.outcome == Reaped(t[k].value.pid, t[k].value.exitCode)
      && Release(t[cur := Some(Charged(t[cur].value, t[k].value))], Some(k)) == Done(r.table)
      && forall j :: k < j < |t| ==> !(WaitMatch(t, cur, pid, j) && Reportable(t[j].value, WUntraced in options)))
    ensures r.outcome.StoppedChild? ==> r.table == t && exists k :: (1 <= k < |t| && WaitMatch(t, cur, pid, k)
      && t[k].value.state == Stopped && WUntraced in options
      && r.outcome == StoppedChild(t[k].value.pid, 0x7f)
      && forall j :: k < j < |t| ==> !(WaitMatch(t, cur, pid, j) && Reportable(t[j].value, WUntraced in options)))
    ensures r.outcome.Reaped? || r.outcome.StoppedChild? <==>
      exists k :: 1 <= k < |t| && WaitMatch(t, cur, pid, k) && Reportable(t[k].value, WUntraced in options)
    ensures r.outcome == NoChild <==>
      forall k :: 1 <= k < |t| && WaitMatch(t, cur, pid, k) ==> t[k].value.state == Stopped && WUntraced !in options
    ensures r.outcome == NoHang || r.outcome == Sleep <==>
      (forall k :: 1 <= k < |t| && WaitMatch(t, cur, pid, k) ==> !Reportable(t[k].value, WUntraced in options))
      && (exists k :: 1 <= k < |t| && WaitMatch(t, cur, pid, k) && Live(t[k].value))
    ensures r.outcome == NoHang ==> r.table == t && WNoHang in options
    ensures r.outcome == Sleep ==>
      (r.table == t[cur := Some(t[cur].value.(state := Interruptible))] && WNoHang !in options)
    ensures r.outcome == NoChild ==> r.table == t
  {
    var untraced := WUntraced in options;
    match WaitScan(t, cur, pid, untraced, |t|)
    case Hit(k) =>
      var child := t[k].value;
      if child.state == Stopped then WaitResult(t, StoppedChild(child.pid, 0x7f))
      else
        var t1 := t[cur := Some(Charged(t[cur].value, child))];
        WaitResult(t1[k := None], Reaped(child.pid, child.exitCode))
    case Miss(flag) =>
      if !flag then WaitResult(t, NoChild)
      else if WNoHang in options then WaitResult(t, NoHang)
      else WaitResult(t[cur := Some(t[cur].value.(state := Interruptible))], Sleep)
  }

  /** What `sys_waitpid` does once woken: scan again, or return -EINTR. */
  datatype Woken = Repeat | Interrupted

  /** `sys_waitpid` after `schedule()` returns to the sleeping caller in slot
      `cur`: SIGCHLD is cleared, then the scan is repeated when no signal is
      left pending, and -EINTR is returned when one is. */
  function WaitWake(t: Table, cur: nat, chld: int): (r: (Table, Woken))
    requires ValidTable(t, cur) && InSigRange(chld)
    ensures |r.0| == |t| && r.0[cur].Some?
    ensures r.0[cur].value.signal == t[cur].value.signal - {chld}
    ensures r.0[cur].value.(signal := t[cur].value.signal) == t[cur].value
    ensures forall k :: 0 <= k < |t| && k != cur ==> r.0[k] == t[k]
    ensures r.1 == Repeat <==> t[cur].value.signal <= {chld}
  {
    var me := t[cur].value;
    var signal := me.signal - {chld};
    (t[cur := Some(me.(signal := signal))], if signal == {} then Repeat else Interrupted)
  }

  /** `sys_waitpid` for the pid of a zombie child that no other slot shares
      reaps that child, with its exit code as status. */
  lemma WaitReapsZombie(t: Table, cur: nat, c: nat, options: set<WaitOption>)
    requires ValidTable(t, cur) && 1 <= c < |t| && c != cur && t[c].Some?
    requires t[c].value.father == t[cur].value.pid && t[c].value.state == Zombie && t[c].value.pid > 0
    requires forall j :: 0 <= j < |t| && j != c && t[j].Some? ==> t[j].value.pid != t[c].value.pid
    ensures SysWaitpid(t, cur, t[c].value.pid, options).outcome == Reaped(t[c].value.pid, t[c].value.exitCode)
  {
    assert WaitMatch(t, cur, t[c].value.pid, c);
  }

  /** What `sys_exit` leaves behind for the father of a task in slot `c`
      that is not its own father: the task a zombie with its exit status,
      the father in slot `p` with SIGCHLD pending, every pid where it was. */
  lemma ExitLeavesZombie(t: Table, c: nat, p: nat, e: int, mathOwner: Option<nat>, sigs: Signals)
    requires ValidTable(t, c) && ValidTable(t, p) && sigs.Valid() && p != c
    requires t[c].value.father == t[p].value.pid && t[p].value.pid != 0 && t[c].value.pid != t[p].value.pid
    requires FindPid(t, t[p].value.pid, 0) == Some(p)
    ensures SysExit(t, c, e, mathOwner, sigs).Done?
    ensures var t2 := SysExit(t, c, e, mathOwner, sigs).value.table;
      && |t2| == |t|
      && (forall j :: 0 <= j < |t| ==> (t2[j].Some? <==> t[j].Some?))
      && (forall j :: 0 <= j < |t| && t[j].Some? ==> t2[j].value.pid == t[j].value.pid)
      && t2[c].value.state == Zombie && t2[c].value.exitCode == SysExitCode(e)
      && t2[c].value.father == t[c].value.father
      && sigs.chld in t2[p].value.signal
  {
    ExitSignalsFather(t, c, p, e, mathOwner, sigs);
    ZombiePids(t, c, SysExitCode(e), sigs);
    FatherSignalled(t, ZombieTable(t, c, SysExitCode(e), sigs), c, p, sigs.chld);
  }

  /** Sending SIGCHLD to slot `p` of a table that keeps the pids of `t`
      keeps them too, leaves every other slot alone, and marks `p`. */
  lemma FatherSignalled(t: Table, z: Table, c: nat, p: nat, chld: int)
    requires |z| == |t| && c < |t| && p < |t| && p != c && InSigRange(chld)
    requires t[p].Some?
    requires forall k :: 0 <= k < |t| ==> (z[k].Some? <==> t[k].Some?)
    requires forall k :: 0 <= k < |t| && t[k].Some? ==> z[k].Some? && z[k].value.pid == t[k].value.pid
    ensures var t2 := z[p := Some(Signalled(z[p].value, chld))];
      && |t2| == |t|
      && (forall j :: 0 <= j < |t| ==> (t2[j].Some? <==> t[j].Some?))
      && (forall j :: 0 <= j < |t| && t[j].Some? ==> t2[j].value.pid == t[j].value.pid)
      && t2[c] == z[c]
      && chld in t2[p].value.signal
  {
  }

  /** With its father in slot `p`, `sys_exit` from slot `c` sends SIGCHLD to
      slot `p` of the zombie table. */
  lemma ExitSignalsFather(t: Table, c: nat, p: nat, e: int, mathOwner: Option<nat>, sigs: Signals)
    requires ValidTable(t, c) && ValidTable(t, p) && sigs.Valid() && p != c
    requires t[c].value.father == t[p].value.pid && t[p].value.pid != 0 && t[c].value.pid != t[p].value.pid
    requires FindPid(t, t[p].value.pid, 0) == Some(p)
    ensures SysExit(t, c, e, mathOwner, sigs).Done?
    ensures var z := ZombieTable(t, c, SysExitCode(e), sigs);
      SysExit(t, c, e, mathOwner, sigs).value.table == z[p := Some(Signalled(z[p].value, sigs.chld))]
  {
  }

  /** The zombie table keeps every task in its slot with its pid, and the
      caller becomes a zombie holding `code`. */
  lemma ZombiePids(t: Table, cur: nat, code: int, sigs: Signals)
    requires ValidTable(t, cur) && sigs.Valid()
    ensures var z := ZombieTable(t, cur, code, sigs);
      && |z| == |t|
      && (forall k :: 0 <= k < |t| ==> (z[k].Some? <==> t[k].Some?))
      && (forall k :: 0 <= k < |t| && t[k].Some? ==> z[k].Some? && z[k].value.pid == t[k].value.pid)
      && z[cur].value.state == Zombie && z[cur].value.exitCode == code
      && z[cur].value.father == FatherAtExit(t[cur].value)
  {
  }

  /** A child that calls `sys_exit(e)` is reaped by its father's
      `sys_waitpid` for its pid, which sees status `(e & 0xff) << 8`; the
      father was sent SIGCHLD on the way. */
  lemma ExitThenWaitReaps(t: Table, c: nat, p: nat, e: int, mathOwner: Option<nat>, sigs: Signals)
    requires ValidTable(t, c) && ValidTable(t, p) && sigs.Valid()
    requires 1 <= c && p != c && t[c].value.pid > 0
    requires t[c].value.father == t[p].value.pid && t[p].value.pid != 0 && t[c].value.pid != t[p].value.pid
    requires FindPid(t, t[p].value.pid, 0) == Some(p)
    requires forall j :: 0 <= j < |t| && j != c && t[j].Some? ==> t[j].value.pid != t[c].value.pid
    ensures SysExit(t, c, e, mathOwner, sigs).Done?
    ensures var t2 := SysExit(t, c, e, mathOwner, sigs).value.table;
      ValidTable(t2, p) && sigs.chld in t2[p].value.signal
      && SysWaitpid(t2, p, t[c].value.pid, {}).outcome == Reaped(t[c].value.pid, SysExitCode(e))
  {
    ExitLeavesZombie(t, c, p, e, mathOwner, sigs);
    var t2 := SysExit(t, c, e, mathOwner, sigs).value.table;
    forall j | 0 <= j < |t2| && j != c && t2[j].Some?
      ensures t2[j].value.pid != t2[c].value.pid
    {
      assert t2[j].value.pid == t[j].value.pid;
    }
    WaitReapsZombie(t2, p, c, {});
  }
}
