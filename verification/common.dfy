/** Shared vocabulary of the kernel model: optional values, the outcome of an
    operation that may hit `panic()`, error numbers, signal sets and the
    signal numbers that come from the (unmodelled) kernel headers. */
module Common {

  /** A nullable pointer, or a value that may be absent. */
  datatype Option<+T> = None | Some(value: T)

  /** The result of an operation that may call `panic()`, which halts the kernel. */
  datatype Outcome<+T> = Done(value: T) | Panic

  /** The error numbers the modelled code returns (negated, in C). */
  datatype Errno = EINVAL | EPERM | ECHILD | EINTR

  /** A system-call status: 0 or a negated error number. */
  datatype Status = Ok | Err(errno: Errno)

  /** The signal numbers a 32-bit signal word can carry. */
  predicate InSigRange(sig: int) {
    1 <= sig <= 32
  }

  /** A 32-bit signal word, seen as the set of signal numbers whose bit
      `sig - 1` is set. `m | (1 << (sig-1))` is `m + {sig}`,
      `m & ~(1 << (sig-1))` is `m - {sig}` and `a | b` is `a + b`. */
  type SigSet = s: set<int> | forall sig :: sig in s ==> InSigRange(sig)

  /** The signal numbers the modelled code names. Their values live in a
      header that is not part of this model; all the model relies on is
      that they are distinct signal numbers. */
  datatype Signals = Signals(hup: int, kill: int, chld: int) {
    predicate Valid() {
      && InSigRange(hup) && InSigRange(kill) && InSigRange(chld)
      && hup != kill && hup != chld && kill != chld
    }
  }

  const WORD: nat := 0x1_0000_0000

  /** The bit pattern of a C `int` as an unsigned 32-bit word. */
  function Bits(x: int): (w: nat)
    ensures w < WORD
    ensures (x - w) % WORD == 0
    ensures x >= 0 && x < WORD ==> w == x
  {
    x % WORD
  }

  /** The C `int` whose bit pattern is the 32-bit word `w`. */
  function Int32(w: nat): (x: int)
    requires w < WORD
    ensures -0x8000_0000 <= x < 0x8000_0000
    ensures Bits(x) == w
  {
    if w < 0x8000_0000 then w else w - WORD
  }

  /** A C `int` is determined by its bit pattern: two values in the signed
      32-bit range with the same pattern are equal. */
  lemma SignedUnique(x: int, y: int)
    requires -0x8000_0000 <= x < 0x8000_0000 && -0x8000_0000 <= y < 0x8000_0000
    requires Bits(x) == Bits(y)
    ensures x == y
  {
  }

  /** `1 << n` as an unbounded number. */
  function Pow2(n: nat): (p: nat)
    ensures p >= 1
  {
    if n == 0 then 1 else 2 * Pow2(n - 1)
  }

  /** `1 << n` fits in 31 bits below 31, and `1 << 31` is 2^31. */
  lemma {:induction false} Pow2Below(n: nat)
    requires n <= 31
    ensures n < 31 ==> Pow2(n) < 0x8000_0000
    ensures n == 31 ==> Pow2(n) == 0x8000_0000
    decreases 31 - n
  {
    if n == 31 {
      assert Pow2(8) == 0x100;
      assert Pow2(16) == 0x1_0000;
      assert Pow2(24) == 0x100_0000;
    } else {
      Pow2Below(n + 1);
      assert Pow2(n + 1) == 2 * Pow2(n);
    }
  }

  /** A C `long` or `int` (32 bits): `Long(x)` is what `x` wraps to. */
  function Long(x: int): (y: int)
    ensures -0x8000_0000 <= y < 0x8000_0000
    ensures Bits(y) == Bits(x)
    ensures -0x8000_0000 <= x < 0x8000_0000 ==> y == x
  {
    Int32(Bits(x))
  }

  /** The numeric value of the signal word holding the members `>= k` of `s`,
      shifted down so that signal `k` is bit 0. */
  function WordFrom(s: SigSet, k: nat): (w: nat)
    requires 1 <= k <= 33
    decreases 33 - k
  {
    if k == 33 then 0
    else (if k in s then 1 else 0) + 2 * WordFrom(s, k + 1)
  }

  /** The 32-bit word that holds the signal set `s`: bit `sig - 1` is set
      for every member `sig`. */
  function MaskWord(s: SigSet): (w: nat)
    ensures w < WORD
  {
    Pow2Below(31);
    WordFromBound(s, 1);
    WordFrom(s, 1)
  }

  /** The word of the members `>= k` has `33 - k` bits. */
  lemma {:induction false} WordFromBound(s: SigSet, k: nat)
    requires 1 <= k <= 33
    ensures WordFrom(s, k) < Pow2(33 - k)
    decreases 33 - k
  {
    if k < 33 {
      WordFromBound(s, k + 1);
    }
  }

  /** Bit `i` of a word. */
  function WordBit(w: nat, i: nat): (b: nat)
    ensures b <= 1
  {
    if i == 0 then w % 2 else WordBit(w / 2, i - 1)
  }

  /** Bit `sig - 1` of the word `w` is set. */
  predicate WordHas(w: nat, sig: int)
    requires InSigRange(sig)
  {
    WordBit(w, sig - 1) == 1
  }

  /** The signal set a 32-bit word holds: the inverse of `MaskWord`. */
  function MaskOfWord(w: nat): (s: SigSet)
    ensures forall sig :: sig in s <==> InSigRange(sig) && WordHas(w, sig)
  {
    set sig | 1 <= sig <= 32 && WordHas(w, sig)
  }

  /** Bit `sig - k` of `WordFrom(s, k)` records whether `sig` is in `s`. */
  lemma {:induction false} WordFromBit(s: SigSet, k: nat, sig: int)
    requires 1 <= k <= sig <= 32
    ensures WordBit(WordFrom(s, k), sig - k) == (if sig in s then 1 else 0)
    decreases sig - k
  {
    var w := WordFrom(s, k);
    assert w == (if k in s then 1 else 0) + 2 * WordFrom(s, k + 1);
    if sig > k {
      assert w / 2 == WordFrom(s, k + 1);
      WordFromBit(s, k + 1, sig);
    }
  }

  /** Bit `sig - 1` of the word a signal set is stored as is set exactly
      when `sig` is in the set. */
  lemma MaskWordHas(s: SigSet, sig: int)
    requires InSigRange(sig)
    ensures WordHas(MaskWord(s), sig) <==> sig in s
  {
    WordFromBit(s, 1, sig);
  }

  /** Saving a signal set as a word and reading it back gives the same set. */
  lemma MaskWordRoundTrip(s: SigSet)
    ensures MaskOfWord(MaskWord(s)) == s
  {
    var m := MaskOfWord(MaskWord(s));
    forall sig | sig in m
      ensures sig in s
    {
      MaskWordHas(s, sig);
    }
    forall sig | sig in s
      ensures sig in m
    {
      MaskWordHas(s, sig);
    }
  }

  /** `w >> i` on an unsigned word. */
  function ShiftRight(w: nat, i: nat): (v: nat)
    ensures v <= w
  {
    if i == 0 then w else ShiftRight(w / 2, i - 1)
  }

  /** Bit `i` of `w` is the low bit of `w >> i`, and shifting once more
      halves `w >> i`. */
  lemma {:induction false} ShiftRightBit(w: nat, i: nat)
    ensures WordBit(w, i) == ShiftRight(w, i) % 2
    ensures ShiftRight(w, i + 1) == ShiftRight(w, i) / 2
    decreases i
  {
    if i > 0 {
      ShiftRightBit(w / 2, i - 1);
    }
  }

  /** Shifting a word of `n` bits right by `i` leaves `n - i` bits. */
  lemma {:induction false} ShiftRightBound(w: nat, i: nat, n: nat)
    requires w < Pow2(n) && i <= n
    ensures ShiftRight(w, i) < Pow2(n - i)
    decreases i
  {
    if i > 0 {
      ShiftRightBound(w / 2, i - 1, n - 1);
    }
  }

  /** The members `>= k` of the set read from `w` make up `w >> (k - 1)`. */
  lemma {:induction false} WordFromShift(w: nat, k: nat)
    requires w < WORD && 1 <= k <= 33
    ensures WordFrom(MaskOfWord(w), k) == ShiftRight(w, k - 1)
    decreases 33 - k
  {
    if k == 33 {
      Pow2Below(31);
      ShiftRightBound(w, 32, 32);
    } else {
      WordFromShift(w, k + 1);
      ShiftRightBit(w, k - 1);
      assert k in MaskOfWord(w) <==> WordBit(w, k - 1) == 1;
    }
  }

  /** Reading a 32-bit word as a signal set and storing the set again gives
      back the same word: no bit of the word is lost. */
  lemma WordRoundTrip(w: nat)
    requires w < WORD
    ensures MaskWord(MaskOfWord(w)) == w
  {
    WordFromShift(w, 1);
  }
}
