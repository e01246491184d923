/** Texts of bytes inside longer ones. */
module Layout {
  import opened ImageBytes

  predicate Has(bytes: seq<Byte>, at: nat, text: seq<Byte>) {
    at + |text| <= |bytes| && bytes[at..at + |text|] == text
  }

  lemma HasBoth(bytes: seq<Byte>, at: nat, a: seq<Byte>, b: seq<Byte>)
    ensures Has(bytes, at, a + b) <==> Has(bytes, at, a) && Has(bytes, at + |a|, b)
  {
    var mid, end := at + |a|, at + |a| + |b|;
    if end <= |bytes| {
      assert bytes[at..end] == bytes[at..mid] + bytes[mid..end];
      if bytes[at..end] == a + b {
        assert bytes[at..mid] == bytes[at..end][..|a|] && bytes[mid..end] == bytes[at..end][|a|..];
      }
    }
  }

  lemma HasThree(bytes: seq<Byte>, at: nat, a: seq<Byte>, b: seq<Byte>, c: seq<Byte>)
    ensures Has(bytes, at, a + b + c) <==>
            Has(bytes, at, a) && Has(bytes, at + |a|, b) && Has(bytes, at + |a| + |b|, c)
  {
    hide Has;
    HasBoth(bytes, at, a + b, c);
    HasBoth(bytes, at, a, b);
  }

  lemma HasSlice(bytes: seq<Byte>, at: nat, end: nat)
    requires at <= end <= |bytes|
    ensures Has(bytes, at, bytes[at..end])
  {
  }

  lemma HasItself(bytes: seq<Byte>, text: seq<Byte>)
    ensures Has(bytes, 0, text) && |text| == |bytes| <==> bytes == text
  {
    if |text| == |bytes| { assert bytes[0..|bytes|] == bytes; }
  }

  lemma HasTwo(bytes: seq<Byte>, at: nat, first: Byte, second: Byte)
    ensures Has(bytes, at, [first, second]) <==> at + 2 <= |bytes| && bytes[at] == first && bytes[at + 1] == second
  {
    if at + 2 <= |bytes| { assert bytes[at..at + 2] == [bytes[at], bytes[at + 1]]; }
  }
}
