/** The bitwise CRC-32 that guards PNG chunks (section 3.4 of RFC 2083). */
module Crc {

  import opened ImageBytes

  const POLYNOMIAL: bv32 := 0xedb88320
  const ALL_ONES: bv32 := 0xffffffff

  function Bits(b: Byte): bv32 {
    b as bv32
  }

  function Xor(x: bv32, y: bv32): bv32 {
    x ^ y
  }

  function Feedback(c: bv32): bv32 {
    if c & 1 == 1 then POLYNOMIAL else 0
  }

  function BitStep(c: bv32): bv32 {
    (c >> 1) ^ Feedback(c)
  }

  function Steps(c: bv32, n: nat): bv32
    decreases n
  {
    if n == 0 then c else Steps(BitStep(c), n - 1)
  }

  /** The register after each byte is folded into its low end and shifted out. */
  function Register(c: bv32, bytes: seq<Byte>): bv32
    decreases |bytes|
  {
    if bytes == [] then c
    else Steps(Xor(Register(c, bytes[..|bytes| - 1]), Bits(bytes[|bytes| - 1])), 8)
  }

  function Crc32(bytes: seq<Byte>): nat {
    Xor(Register(ALL_ONES, bytes), ALL_ONES) as int
  }

  lemma {:induction false} StepsUnrollLast(c: bv32, n: nat)
    ensures Steps(c, n + 1) == BitStep(Steps(c, n))
    decreases n
  {
    hide BitStep;
    if n > 0 { StepsUnrollLast(BitStep(c), n - 1); }
  }

  method ComputeCrc32(bytes: seq<Byte>) returns (crc: nat)
    ensures crc == Crc32(bytes)
  {
    var c := ALL_ONES;
    for i := 0 to |bytes|
      invariant c == Register(ALL_ONES, bytes[..i])
    {
      assert bytes[..i + 1][..i] == bytes[..i];
      c := Xor(c, Bits(bytes[i]));
      ghost var start := c;
      for bit := 0 to 8
        invariant c == Steps(start, bit)
      {
        hide Steps;
        StepsUnrollLast(start, bit);
        c := (c >> 1) ^ (if c & 1 == 1 then POLYNOMIAL else 0);
      }
    }
    assert bytes[..|bytes|] == bytes;
    crc := Xor(c, ALL_ONES) as int;
  }

  // ---- One step is linear and loses nothing ----

  lemma XorCommutes(x: bv32, y: bv32)
    ensures Xor(x, y) == Xor(y, x)
  {
  }

  lemma XorAssociates(x: bv32, y: bv32, z: bv32)
    ensures Xor(Xor(x, y), z) == Xor(x, Xor(y, z))
  {
  }

  lemma XorRegroups(p: bv32, x: bv32, q: bv32, y: bv32)
    ensures Xor(Xor(p, x), Xor(q, y)) == Xor(Xor(p, q), Xor(x, y))
  {
    hide Xor;
    XorAssociates(p, x, Xor(q, y));
    XorAssociates(p, q, Xor(x, y));
    XorAssociates(x, q, y);
    XorAssociates(q, x, y);
    XorCommutes(x, q);
  }

  lemma XorCancels(x: bv32, y: bv32, e: bv32)
    requires Xor(x, e) == Xor(y, e)
    ensures x == y
  {
    assert (x ^ e) ^ e == x && (y ^ e) ^ e == y;
  }

  lemma XorIsZero(x: bv32, y: bv32)
    ensures Xor(x, y) == 0 <==> x == y
  {
    if Xor(x, y) == 0 { XorOfZero(x, y); }
    if x == y { XorOfSame(x); }
  }

  lemma XorOfSame(x: bv32)
    ensures Xor(x, x) == 0
  {
  }

  lemma XorOfZero(x: bv32, y: bv32)
    requires Xor(x, y) == 0
    ensures x == y
  {
    XorOfSame(y);
    XorCancels(x, y, y);
  }

  lemma ShiftOverXor(x: bv32, y: bv32)
    ensures (x ^ y) >> 1 == (x >> 1) ^ (y >> 1)
  {
  }

  lemma FeedbackOverXor(x: bv32, y: bv32)
    ensures Feedback(x ^ y) == Feedback(x) ^ Feedback(y)
  {
  }

  lemma BitStepIsLinear(x: bv32, y: bv32)
    ensures BitStep(Xor(x, y)) == Xor(BitStep(x), BitStep(y))
  {
    hide Feedback;
    ShiftOverXor(x, y);
    FeedbackOverXor(x, y);
    XorRegroups(x >> 1, Feedback(x), y >> 1, Feedback(y));
  }

  /** The top bit of the polynomial records the bit that was shifted out. */
  lemma BitStepIsInjective(x: bv32, y: bv32)
    ensures BitStep(x) == BitStep(y) ==> x == y
  {
  }

  lemma {:induction false} StepsAreLinear(x: bv32, y: bv32, n: nat)
    ensures Steps(Xor(x, y), n) == Xor(Steps(x, n), Steps(y, n))
    decreases n
  {
    hide BitStep, Xor;
    if n > 0 {
      BitStepIsLinear(x, y);
      StepsAreLinear(BitStep(x), BitStep(y), n - 1);
    }
  }

  lemma {:induction false} StepsAreInjective(x: bv32, y: bv32, n: nat)
    requires Steps(x, n) == Steps(y, n)
    ensures x == y
    decreases n
  {
    hide BitStep;
    if n > 0 {
      StepsAreInjective(BitStep(x), BitStep(y), n - 1);
      BitStepIsInjective(x, y);
    }
  }

  lemma {:induction false} StepsCompose(x: bv32, m: nat, n: nat)
    ensures Steps(Steps(x, m), n) == Steps(x, m + n)
    decreases m
  {
    hide BitStep;
    if m > 0 { StepsCompose(BitStep(x), m - 1, n); }
  }

  lemma {:induction false} StepsOfZero(n: nat)
    ensures Steps(0, n) == 0
  {
    if n > 0 {
      ZeroStaysZero();
      StepsOfZero(n - 1);
    }
  }

  lemma ZeroStaysZero()
    ensures BitStep(0) == 0
  {
  }

  // ---- A byte above the low end waits its turn ----

  function Halved(x: bv32, i: nat): bv32
    requires i <= 8
  {
    x >> i
  }

  lemma EmptyBit(x: bv32, i: nat)
    requires i < 8 && x & 0xff == 0
    ensures (x >> i) & 1 == 0
  {
    if i == 0 {} else if i == 1 {} else if i == 2 {} else if i == 3 {}
    else if i == 4 {} else if i == 5 {} else if i == 6 {} else {}
  }

  lemma HalvedOnce(x: bv32, i: nat)
    requires i < 8
    ensures (x >> i) >> 1 == x >> (i + 1)
  {
    if i == 0 {} else if i == 1 {} else if i == 2 {} else if i == 3 {}
    else if i == 4 {} else if i == 5 {} else if i == 6 {} else {}
  }

  lemma NoFeedback(c: bv32)
    requires c & 1 == 0
    ensures BitStep(c) == c >> 1
  {
  }

  lemma EmptyBitIsDropped(x: bv32, i: nat)
    requires i < 8 && x & 0xff == 0
    ensures BitStep(Halved(x, i)) == Halved(x, i + 1)
  {
    hide BitStep;
    EmptyBit(x, i);
    HalvedOnce(x, i);
    NoFeedback(x >> i);
  }

  lemma {:induction false} EmptyBitsAreDropped(x: bv32, i: nat)
    requires i <= 8 && x & 0xff == 0
    ensures Steps(x, i) == Halved(x, i)
    decreases i
  {
    hide BitStep;
    if i > 0 {
      EmptyBitsAreDropped(x, i - 1);
      EmptyBitIsDropped(x, i - 1);
      StepsUnrollLast(x, i - 1);
    }
  }

  /** The byte `e` at place `k` of a little-endian word. */
  function Placed(e: bv32, k: nat): bv32
    requires k < 4
  {
    if k == 0 then e else if k == 1 then e << 8 else if k == 2 then e << 16 else e << 24
  }

  lemma PlacedShifts(e: bv32, k: nat)
    requires 0 < k < 4 && e <= 0xff
    ensures Placed(e, k) & 0xff == 0 && Halved(Placed(e, k), 8) == Placed(e, k - 1)
  {
  }

  lemma {:induction false} PlacedComesDown(e: bv32, k: nat)
    requires k < 4 && e <= 0xff
    ensures Steps(Placed(e, k), 8 * k) == e
    decreases k
  {
    if k > 0 {
      hide Placed, Halved, BitStep, Steps;
      PlacedShifts(e, k);
      EmptyBitsAreDropped(Placed(e, k), 8);
      PlacedComesDown(e, k - 1);
      StepsCompose(Placed(e, k), 8, 8 * (k - 1));
    }
  }

  // ---- Error detection ----

  function Difference(a: seq<Byte>, b: seq<Byte>, k: nat): bv32
    requires |a| == |b|
  {
    if k < |a| then Xor(Bits(a[k]), Bits(b[k])) else 0
  }

  /** The first `k` byte differences, as one little-endian word. */
  function Word(a: seq<Byte>, b: seq<Byte>, k: nat): bv32
    requires k <= |a| == |b| <= 4
    decreases k
  {
    if k == 0 then 0 else Xor(Word(a, b, k - 1), Placed(Difference(a, b, k - 1), k - 1))
  }

  lemma BytesDifferInEightBits(x: Byte, y: Byte)
    ensures Xor(Bits(x), Bits(y)) <= 0xff
  {
  }

  lemma DifferenceIsSmall(a: seq<Byte>, b: seq<Byte>, k: nat)
    requires |a| == |b|
    ensures Difference(a, b, k) <= 0xff
  {
    hide Bits, Xor;
    if k < |a| { BytesDifferInEightBits(a[k], b[k]); }
  }

  /** Four bytes amount to 32 steps on the difference word. */
  lemma {:induction false} RegisterDifference(c: bv32, a: seq<Byte>, b: seq<Byte>, k: nat)
    requires k <= |a| == |b| <= 4
    ensures Xor(Register(c, a[..k]), Register(c, b[..k])) == Steps(Word(a, b, k), 8 * k)
    decreases k
  {
    if k == 0 {
      hide Bits, Steps;
      assert a[..0] == [] == b[..0];
      StepsOfZero(0);
    } else {
      RegisterDifference(c, a, b, k - 1);
      var p, q := Register(c, a[..k - 1]), Register(c, b[..k - 1]);
      OneMoreByte(p, q, a, b, k);
      RegisterUnrolls(c, a, k);
      RegisterUnrolls(c, b, k);
    }
  }

  lemma RegisterUnrolls(c: bv32, a: seq<Byte>, k: nat)
    requires 0 < k <= |a|
    ensures Register(c, a[..k]) == Steps(Xor(Register(c, a[..k - 1]), Bits(a[k - 1])), 8)
  {
    hide Xor, Bits, Steps;
    assert a[..k][..k - 1] == a[..k - 1];
  }

  lemma OneMoreByte(p: bv32, q: bv32, a: seq<Byte>, b: seq<Byte>, k: nat)
    requires 0 < k <= |a| == |b| <= 4
    requires Xor(p, q) == Steps(Word(a, b, k - 1), 8 * (k - 1))
    ensures Xor(Steps(Xor(p, Bits(a[k - 1])), 8), Steps(Xor(q, Bits(b[k - 1])), 8)) == Steps(Word(a, b, k), 8 * k)
  {
    hide Xor, Bits, Steps, Placed;
    var x, y, e := Bits(a[k - 1]), Bits(b[k - 1]), Difference(a, b, k - 1);
    StepsAreLinear(Xor(p, x), Xor(q, y), 8);
    XorRegroups(p, x, q, y);
    DifferenceIsSmall(a, b, k - 1);
    PlacedComesDown(e, k - 1);
    StepsAreLinear(Word(a, b, k - 1), Placed(e, k - 1), 8 * (k - 1));
    StepsCompose(Word(a, b, k), 8 * (k - 1), 8);
  }

  lemma FourBytesAreIndependent(e0: bv32, e1: bv32, e2: bv32, e3: bv32)
    requires e0 <= 0xff && e1 <= 0xff && e2 <= 0xff && e3 <= 0xff
    requires Xor(Xor(Xor(Placed(e0, 0), Placed(e1, 1)), Placed(e2, 2)), Placed(e3, 3)) == 0
    ensures e0 == 0 && e1 == 0 && e2 == 0 && e3 == 0
  {
  }

  lemma SameBitsSameByte(x: Byte, y: Byte)
    ensures Bits(x) == Bits(y) ==> x == y
  {
  }

  lemma XorZero(x: bv32)
    ensures Xor(x, Placed(0, 0)) == Xor(x, Placed(0, 1)) == Xor(x, Placed(0, 2)) == Xor(x, Placed(0, 3)) == x
            == Xor(0, x)
  {
  }

  lemma WordIsFlat(a: seq<Byte>, b: seq<Byte>)
    requires |a| == |b| <= 4
    ensures Word(a, b, |a|)
         == Xor(Xor(Xor(Placed(Difference(a, b, 0), 0), Placed(Difference(a, b, 1), 1)),
            Placed(Difference(a, b, 2), 2)), Placed(Difference(a, b, 3), 3))
  {
    hide Xor, Placed, Bits;
    var e0, e1, e2 := Placed(Difference(a, b, 0), 0), Placed(Difference(a, b, 1), 1), Placed(Difference(a, b, 2), 2);
    XorZero(e0);
    XorZero(Placed(0, 0));
    XorZero(Xor(e0, e1));
    XorZero(Xor(Xor(e0, e1), e2));
    XorZero(0);
    assert Word(a, b, 0) == 0;
    if |a| > 0 { assert Word(a, b, 1) == e0; }
    if |a| > 1 { assert Word(a, b, 2) == Xor(e0, e1); }
    if |a| > 2 { assert Word(a, b, 3) == Xor(Xor(e0, e1), e2); }
  }

  lemma ZeroWordMeansEqual(a: seq<Byte>, b: seq<Byte>)
    requires |a| == |b| <= 4 && Word(a, b, |a|) == 0
    ensures a == b
  {
    hide Xor, Placed, Bits, Word;
    forall k: nat ensures Difference(a, b, k) <= 0xff { DifferenceIsSmall(a, b, k); }
    WordIsFlat(a, b);
    FourBytesAreIndependent(Difference(a, b, 0), Difference(a, b, 1), Difference(a, b, 2), Difference(a, b, 3));
    forall k: nat | k < |a| ensures a[k] == b[k] {
      assert k == 0 || k == 1 || k == 2 || k == 3;
      XorIsZero(Bits(a[k]), Bits(b[k]));
      SameBitsSameByte(a[k], b[k]);
    }
  }

  lemma {:induction false} RegisterSplits(c: bv32, a: seq<Byte>, b: seq<Byte>)
    ensures Register(c, a + b) == Register(Register(c, a), b)
    decreases |b|
  {
    hide Xor, Bits, Steps;
    if b == [] {
      assert a + b == a;
    } else {
      RegisterSplits(c, a, b[..|b| - 1]);
      assert (a + b)[..|a + b| - 1] == a + b[..|b| - 1];
    }
  }

  lemma {:induction false} RegisterIsInjective(c: bv32, d: bv32, bytes: seq<Byte>)
    requires Register(c, bytes) == Register(d, bytes)
    ensures c == d
    decreases |bytes|
  {
    hide Xor, Bits, Steps;
    if bytes != [] {
      var front, e := bytes[..|bytes| - 1], Bits(bytes[|bytes| - 1]);
      StepsAreInjective(Xor(Register(c, front), e), Xor(Register(d, front), e), 8);
      XorCancels(Register(c, front), Register(d, front), e);
      RegisterIsInjective(c, d, front);
    }
  }

  lemma SameNumberSameWord(x: bv32, y: bv32)
    requires x as int == y as int
    ensures x == y
  {
    assert (x as int) as bv32 == x && (y as int) as bv32 == y;
  }

  lemma SameCrcSameRegister(x: seq<Byte>, y: seq<Byte>)
    requires Crc32(x) == Crc32(y)
    ensures Register(ALL_ONES, x) == Register(ALL_ONES, y)
  {
    hide Xor, Register;
    SameNumberSameWord(Xor(Register(ALL_ONES, x), ALL_ONES), Xor(Register(ALL_ONES, y), ALL_ONES));
    XorCancels(Register(ALL_ONES, x), Register(ALL_ONES, y), ALL_ONES);
  }

  lemma EqualRegistersMeanEqual(c: bv32, a: seq<Byte>, b: seq<Byte>)
    requires |a| == |b| <= 4 && Register(c, a) == Register(c, b)
    ensures a == b
  {
    hide Xor, Register, Steps, Word;
    RegisterDifference(c, a, b, |a|);
    assert a[..|a|] == a && b[..|b|] == b;
    XorIsZero(Register(c, a), Register(c, b));
    StepsOfZero(8 * |a|);
    StepsAreInjective(Word(a, b, |a|), 0, 8 * |a|);
    ZeroWordMeansEqual(a, b);
  }

  /** Any change confined to four consecutive bytes changes the checksum. */
  lemma BurstsAreDetected(prefix: seq<Byte>, a: seq<Byte>, b: seq<Byte>, suffix: seq<Byte>)
    requires |a| == |b| <= 4 && a != b
    ensures Crc32(prefix + a + suffix) != Crc32(prefix + b + suffix)
  {
    hide Register, Crc32;
    if Crc32(prefix + a + suffix) == Crc32(prefix + b + suffix) {
      SameCrcSameRegister(prefix + a + suffix, prefix + b + suffix);
      RegisterSplits(ALL_ONES, prefix + a, suffix);
      RegisterSplits(ALL_ONES, prefix + b, suffix);
      RegisterIsInjective(Register(ALL_ONES, prefix + a), Register(ALL_ONES, prefix + b), suffix);
      RegisterSplits(ALL_ONES, prefix, a);
      RegisterSplits(ALL_ONES, prefix, b);
      EqualRegistersMeanEqual(Register(ALL_ONES, prefix), a, b);
      assert false;
    }
  }

  function EightSteps(c: bv32): bv32 {
    BitStep(BitStep(BitStep(BitStep(BitStep(BitStep(BitStep(BitStep(c))))))))
  }

  lemma EightStepsAreSteps(c: bv32)
    ensures Steps(c, 8) == EightSteps(c)
  {
    hide BitStep;
    var c4 := BitStep(BitStep(BitStep(BitStep(c))));
    assert Steps(c, 4) == c4;
    assert Steps(c4, 4) == EightSteps(c);
    StepsCompose(c, 4, 4);
  }

  lemma NextRegister(bytes: seq<Byte>, k: nat, c: bv32, d: bv32)
    requires k < |bytes| && Register(ALL_ONES, bytes[..k]) == c && EightSteps(Xor(c, Bits(bytes[k]))) == d
    ensures Register(ALL_ONES, bytes[..k + 1]) == d
  {
    hide EightSteps, Steps;
    RegisterUnrolls(ALL_ONES, bytes, k + 1);
    EightStepsAreSteps(Xor(c, Bits(bytes[k])));
  }

  lemma RegistersOfIend()
    ensures EightSteps(0xffffffb6) == 0x22fde946 && EightSteps(0x22fde903) == 0x992bac53
    ensures EightSteps(0x992bac1d) == 0x639f4775 && EightSteps(0x639f4731) == 0x51bd9f7d
  {
  }

  /** The type bytes of an empty IEND chunk, whose checksum closes every PNG file. */
  lemma ChecksumOfIend()
    ensures Crc32([0x49, 0x45, 0x4e, 0x44]) == 0xae426082
  {
    hide EightSteps, Register;
    var bytes: seq<Byte> := [0x49, 0x45, 0x4e, 0x44];
    RegistersOfIend();
    NothingRegistered(bytes);
    NextRegister(bytes, 0, 0xffffffff, 0x22fde946);
    NextRegister(bytes, 1, 0x22fde946, 0x992bac53);
    NextRegister(bytes, 2, 0x992bac53, 0x639f4775);
    NextRegister(bytes, 3, 0x639f4775, 0x51bd9f7d);
    assert bytes[..4] == bytes;
  }

  lemma NothingRegistered(bytes: seq<Byte>)
    ensures Register(ALL_ONES, bytes[..0]) == 0xffffffff
  {
  }
}
