/** Bytes, and the size every accepted image keeps to. */
module ImageBytes {

  type Byte = bv8

  const MAX_DIMENSION := 16384
  const MAX_PIXELS := 40000000

  function Value(b: Byte): nat {
    b as int
  }

  function ByteOf(n: nat): Byte
    requires n < 256
  {
    n as Byte
  }

  lemma ByteOfNumber(n: nat)
    requires n < 256
    ensures Value(ByteOf(n)) == n
  {
    hide Value, ByteOf;
    EveryNumberIsAByte(n);
    var b: Byte :| Value(b) == n;
    NumberOfByte(b);
  }

  lemma {:induction false} EveryNumberIsAByte(n: nat)
    requires n < 256
    ensures exists b: Byte :: Value(b) == n
  {
    if n == 0 {
      assert Value(0) == 0;
    } else {
      EveryNumberIsAByte(n - 1);
      var b: Byte :| Value(b) == n - 1;
      NextByte(b);
      assert Value(b + 1) == n;
    }
  }

  lemma NextByte(b: Byte)
    requires Value(b) != 255
    ensures Value(b + 1) == Value(b) + 1
  {
    assert b != 0xff;
  }

  lemma NumberOfByte(b: Byte)
    ensures Value(b) < 256 && ByteOf(Value(b)) == b
  {
  }

  predicate SafeDimensions(width: nat, height: nat) {
    0 < width <= MAX_DIMENSION && 0 < height <= MAX_DIMENSION && width * height <= MAX_PIXELS
  }
}
