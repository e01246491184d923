/** The baseline JPEG container test, and the grammar it decides (Annex B and section F.1.2.3 of ITU-T T.81). */
module Jpeg {
  import opened ImageBytes

  function U16(bytes: seq<Byte>, i: nat): nat
    requires i + 2 <= |bytes|
  {
    Value(bytes[i]) * 0x100 + Value(bytes[i + 1])
  }

  // ---- Entropy-coded data ----

  predicate IsRestart(b: Byte) {
    0xd0 <= b <= 0xd7
  }

  type RestartMarker = b: Byte | IsRestart(b) witness 0xd0

  datatype Symbol = Data(value: Byte) | Restart(marker: RestartMarker)

  /** A data byte 0xff is followed by a stuffed zero; a restart marker is not. */
  function SymbolBytes(x: Symbol): seq<Byte> {
    match x
    case Data(b) => if b == 0xff then [0xff, 0x00] else [b]
    case Restart(m) => var marker: Byte := m; [0xff, marker]
  }

  function Encode(xs: seq<Symbol>): seq<Byte>
    decreases |xs|
  {
    if xs == [] then [] else SymbolBytes(xs[0]) + Encode(xs[1..])
  }

  /** `bytes[i..j]` is entropy-coded data. */
  predicate IsScan(bytes: seq<Byte>, i: nat, j: nat)
    decreases j - i
  {
    if i >= j then i == j
    else
      && j <= |bytes|
      && if bytes[i] != 0xff then IsScan(bytes, i + 1, j)
         else i + 2 <= j && (bytes[i + 1] == 0x00 || IsRestart(bytes[i + 1])) && IsScan(bytes, i + 2, j)
  }

  function Decode(bytes: seq<Byte>, i: nat, j: nat): seq<Symbol>
    requires IsScan(bytes, i, j)
    decreases j - i
  {
    if i == j then []
    else if bytes[i] != 0xff then [Data(bytes[i])] + Decode(bytes, i + 1, j)
    else if bytes[i + 1] == 0x00 then [Data(0xff)] + Decode(bytes, i + 2, j)
    else [Restart(bytes[i + 1])] + Decode(bytes, i + 2, j)
  }

  lemma {:induction false} EncodingDecodedReturns(bytes: seq<Byte>, i: nat, j: nat)
    requires IsScan(bytes, i, j) && j <= |bytes|
    ensures Encode(Decode(bytes, i, j)) == bytes[i..j]
    decreases j - i
  {
    if i < j {
      var xs := Decode(bytes, i, j);
      if bytes[i] != 0xff {
        EncodingDecodedReturns(bytes, i + 1, j);
        assert xs[1..] == Decode(bytes, i + 1, j);
        assert bytes[i..j] == [bytes[i]] + bytes[i + 1..j];
      } else {
        EncodingDecodedReturns(bytes, i + 2, j);
        assert xs[1..] == Decode(bytes, i + 2, j);
        assert bytes[i..j] == [bytes[i], bytes[i + 1]] + bytes[i + 2..j];
      }
    }
  }

  lemma {:induction false} DecodingEncodedReturns(xs: seq<Symbol>, bytes: seq<Byte>, i: nat, j: nat)
    requires i <= j <= |bytes| && bytes[i..j] == Encode(xs)
    ensures IsScan(bytes, i, j) && Decode(bytes, i, j) == xs
    decreases |xs|
  {
    if xs != [] {
      hide IsScan, Decode, SymbolBytes, Encode;
      var head := SymbolBytes(xs[0]);
      EncodeUnfolds(xs);
      SliceStarts(bytes, i, j, head, Encode(xs[1..]));
      DecodingEncodedReturns(xs[1..], bytes, i + |head|, j);
      HeadSymbol(xs[0], bytes, i, j);
      assert xs == [xs[0]] + xs[1..];
    }
  }

  lemma EncodeUnfolds(xs: seq<Symbol>)
    requires xs != []
    ensures Encode(xs) == SymbolBytes(xs[0]) + Encode(xs[1..])
  {
  }

  lemma SliceStarts(bytes: seq<Byte>, i: nat, j: nat, head: seq<Byte>, rest: seq<Byte>)
    requires i <= j <= |bytes| && bytes[i..j] == head + rest
    ensures i + |head| <= j && bytes[i + |head|..j] == rest
    ensures forall n :: 0 <= n < |head| ==> bytes[i + n] == head[n]
  {
    assert |bytes[i..j]| == |head| + |rest|;
    assert bytes[i + |head|..j] == bytes[i..j][|head|..] == rest;
    assert forall n :: 0 <= n < |head| ==> bytes[i + n] == bytes[i..j][n] == head[n];
  }

  lemma HeadSymbol(x: Symbol, bytes: seq<Byte>, i: nat, j: nat)
    requires var k := i + |SymbolBytes(x)|;
             && k <= j <= |bytes|
             && (forall n :: 0 <= n < |SymbolBytes(x)| ==> bytes[i + n] == SymbolBytes(x)[n])
             && IsScan(bytes, k, j)
    ensures IsScan(bytes, i, j) && Decode(bytes, i, j) == [x] + Decode(bytes, i + |SymbolBytes(x)|, j)
  {
    assert bytes[i + 0] == SymbolBytes(x)[0];
    if |SymbolBytes(x)| == 2 { assert bytes[i + 1] == SymbolBytes(x)[1]; }
  }

  lemma {:induction false} ScansJoin(bytes: seq<Byte>, i: nat, j: nat, k: nat)
    requires IsScan(bytes, i, j) && IsScan(bytes, j, k) && k <= |bytes|
    ensures IsScan(bytes, i, k)
    decreases j - i
  {
    ScanGoesForward(bytes, i, j);
    ScanGoesForward(bytes, j, k);
    if i < j {
      if bytes[i] != 0xff { ScansJoin(bytes, i + 1, j, k); } else { ScansJoin(bytes, i + 2, j, k); }
    }
  }

  lemma ScanGoesForward(bytes: seq<Byte>, i: nat, j: nat)
    requires IsScan(bytes, i, j)
    ensures i <= j
  {
  }

  /** Symbols never overlap: what follows a scan inside a longer one is itself a scan. */
  lemma {:induction false} ScansSplit(bytes: seq<Byte>, i: nat, j: nat, k: nat)
    requires IsScan(bytes, i, j) && IsScan(bytes, i, k) && j <= k
    ensures IsScan(bytes, j, k)
    decreases j - i
  {
    ScanGoesForward(bytes, i, j);
    if i < j {
      if bytes[i] != 0xff { ScansSplit(bytes, i + 1, j, k); } else { ScansSplit(bytes, i + 2, j, k); }
    }
  }

  /** `bytes[start..]` is entropy-coded up to `i`, where some other marker stands. */
  predicate ScanStopsAt(bytes: seq<Byte>, start: nat, i: nat) {
    && i + 2 <= |bytes|
    && IsScan(bytes, start, i)
    && bytes[i] == 0xff
    && bytes[i + 1] != 0x00 && !IsRestart(bytes[i + 1])
  }

  predicate IsEoiAt(bytes: seq<Byte>, start: nat, i: nat) {
    ScanStopsAt(bytes, start, i) && bytes[i + 1] == 0xd9
  }

  lemma StopIsUnique(bytes: seq<Byte>, start: nat, i: nat, j: nat)
    requires ScanStopsAt(bytes, start, i) && ScanStopsAt(bytes, start, j)
    ensures i == j
  {
    if i <= j { ScansSplit(bytes, start, i, j); } else { ScansSplit(bytes, start, j, i); }
  }

  /** The first EOI of the scan, or -1; `malformed` when another marker comes first. */
  method FindSingleScanEoi(bytes: seq<Byte>, start: nat) returns (malformed: bool, eoi: int)
    ensures malformed <==> exists i :: ScanStopsAt(bytes, start, i) && bytes[i + 1] != 0xd9
    ensures eoi >= -1 && (malformed ==> eoi == -1)
    ensures eoi >= 0 <==> exists i :: IsEoiAt(bytes, start, i)
    ensures eoi >= 0 ==> IsEoiAt(bytes, start, eoi)
  {
    forall j | ScanStopsAt(bytes, start, j) ensures start <= j { ScanGoesForward(bytes, start, j); }
    var i := start;
    while i + 1 < |bytes|
      invariant start <= i
      invariant i <= |bytes| ==> IsScan(bytes, start, i)
      invariant forall j :: start <= j < i ==> !ScanStopsAt(bytes, start, j)
    {
      hide IsScan;
      if bytes[i] != 0xff {
        OneByteScans(bytes, start, i);
        i := i + 1;
        continue;
      }
      var next := bytes[i + 1];
      if next == 0x00 || IsRestart(next) {
        TwoBytesScan(bytes, start, i);
        i := i + 2;
        continue;
      }
      assert ScanStopsAt(bytes, start, i);
      forall j | ScanStopsAt(bytes, start, j) ensures j == i { StopIsUnique(bytes, start, i, j); }
      if next == 0xd9 { assert IsEoiAt(bytes, start, i); return false, i; }
      return true, -1;
    }
    return false, -1;
  }

  lemma OneByteScans(bytes: seq<Byte>, start: nat, i: nat)
    requires i + 1 < |bytes| && IsScan(bytes, start, i) && bytes[i] != 0xff
    ensures IsScan(bytes, start, i + 1) && !ScanStopsAt(bytes, start, i)
  {
    assert IsScan(bytes, i + 1, i + 1);
    ScansJoin(bytes, start, i, i + 1);
  }

  lemma TwoBytesScan(bytes: seq<Byte>, start: nat, i: nat)
    requires i + 1 < |bytes| && IsScan(bytes, start, i) && bytes[i] == 0xff
             && (bytes[i + 1] == 0x00 || IsRestart(bytes[i + 1]))
    ensures IsScan(bytes, start, i + 2) && !ScanStopsAt(bytes, start, i) && !ScanStopsAt(bytes, start, i + 1)
  {
    assert IsScan(bytes, i + 2, i + 2);
    ScansJoin(bytes, start, i, i + 2);
    if IsScan(bytes, start, i + 1) { ScansSplit(bytes, start, i, i + 1); }
  }

  /** Whatever was encoded, the scan ends exactly where the encoder put the EOI. */
  lemma EncodedScanEndsAtItsEoi(before: seq<Byte>, xs: seq<Symbol>, after: seq<Byte>)
    ensures var bytes := before + Encode(xs) + [0xff, 0xd9] + after;
            && IsEoiAt(bytes, |before|, |before| + |Encode(xs)|)
            && forall i :: ScanStopsAt(bytes, |before|, i) ==> i == |before| + |Encode(xs)|
  {
    var bytes := before + Encode(xs) + [0xff, 0xd9] + after;
    var end := |before| + |Encode(xs)|;
    assert bytes[|before|..end] == Encode(xs);
    assert bytes[end] == 0xff && bytes[end + 1] == 0xd9;
    DecodingEncodedReturns(xs, bytes, |before|, end);
    forall i | ScanStopsAt(bytes, |before|, i) ensures i == end { StopIsUnique(bytes, |before|, i, end); }
  }

  // ---- Marker segments ----

  /** One or more bytes 0xff, then a marker byte that is not 0xff. */
  predicate MarkerAt(bytes: seq<Byte>, at: nat, fill: nat, marker: Byte) {
    && fill >= 1
    && at + fill < |bytes|
    && (forall i :: at <= i < at + fill ==> bytes[i] == 0xff)
    && bytes[at + fill] == marker && marker != 0xff
  }

  predicate IsUnsupportedFrame(marker: Byte) {
    0xc1 <= marker <= 0xcf && marker != 0xc4 && marker != 0xc8 && marker != 0xcc
  }

  predicate ValidFrame(frame: seq<Byte>) {
    && |frame| >= 6
    && frame[0] == 8
    && SafeDimensions(U16(frame, 3), U16(frame, 1))
    && 1 <= Value(frame[5]) <= 4
    && |frame| == 6 + Value(frame[5]) * 3
  }

  /** The length counts its own two bytes; a marker that stands alone has none. */
  datatype Element = Element(fill: nat, marker: Byte, length: nat)

  function Size(e: Element): nat {
    e.fill + 1 + e.length
  }

  predicate LengthAt(bytes: seq<Byte>, at: nat, length: nat) {
    && at + 2 <= |bytes|
    && U16(bytes, at) == length
    && length >= 2
    && at + length <= |bytes|
  }

  predicate EndsImage(marker: Byte) {
    marker == 0xd9 || marker == 0xda
  }

  predicate SegmentAt(bytes: seq<Byte>, at: nat, marker: Byte, length: nat) {
    if marker == 0x01 then length == 0
    else
      && LengthAt(bytes, at, length)
      && !IsUnsupportedFrame(marker)
      && (marker == 0xc0 ==> ValidFrame(bytes[at + 2..at + length]))
  }

  predicate ElementAt(e: Element, bytes: seq<Byte>, at: nat) {
    && MarkerAt(bytes, at, e.fill, e.marker)
    && !EndsImage(e.marker) && !IsRestart(e.marker)
    && SegmentAt(bytes, at + e.fill + 1, e.marker, e.length)
  }

  predicate Fill(es: seq<Element>, bytes: seq<Byte>, at: nat, end: nat)
    decreases |es|
  {
    if es == [] then at == end
    else ElementAt(es[0], bytes, at) && Fill(es[1..], bytes, at + Size(es[0]), end)
  }

  function Frames(es: seq<Element>): nat
    decreases |es|
  {
    if es == [] then 0 else Frames(es[..|es| - 1]) + (if es[|es| - 1].marker == 0xc0 then 1 else 0)
  }

  /** After the closing marker: nothing, or a scan header and one scan up to an EOI that ends the input. */
  predicate ClosesAt(bytes: seq<Byte>, at: nat, marker: Byte) {
    if marker == 0xd9 then at == |bytes|
    else
      && at + 2 <= |bytes|
      && LengthAt(bytes, at, U16(bytes, at))
      && |bytes| >= 2
      && IsEoiAt(bytes, at + U16(bytes, at), |bytes| - 2)
  }

  ghost predicate TailAt(bytes: seq<Byte>, at: nat) {
    exists fill, marker ::
      MarkerAt(bytes, at, fill, marker) && EndsImage(marker) && ClosesAt(bytes, at + fill + 1, marker)
  }

  /** SOI, segments with exactly one valid baseline frame, and a tail that uses every byte. */
  ghost predicate IsJpeg(bytes: seq<Byte>) {
    && |bytes| >= 2 && bytes[0] == 0xff && bytes[1] == 0xd8
    && exists es, end :: Fill(es, bytes, 2, end) && Frames(es) == 1 && TailAt(bytes, end)
  }

  lemma MarkerIsUnique(bytes: seq<Byte>, at: nat, f: nat, m: Byte, g: nat, n: Byte)
    requires MarkerAt(bytes, at, f, m) && MarkerAt(bytes, at, g, n)
    ensures f == g && m == n
  {
    assert bytes[at + f] != 0xff && bytes[at + g] != 0xff;
  }

  lemma ElementIsUnique(bytes: seq<Byte>, at: nat, d: Element, e: Element)
    requires ElementAt(d, bytes, at) && ElementAt(e, bytes, at)
    ensures d == e
  {
    hide MarkerAt, U16, ValidFrame;
    MarkerIsUnique(bytes, at, d.fill, d.marker, e.fill, e.marker);
  }

  /** Segments read so far begin every reading of the whole. */
  lemma {:induction false} ReadingIsForced(seen: seq<Element>, es: seq<Element>, bytes: seq<Byte>, at: nat, mid: nat,
      end: nat)
    requires Fill(seen, bytes, at, mid) && Fill(es, bytes, at, end) && TailAt(bytes, end)
    ensures |seen| <= |es| && es[..|seen|] == seen
    ensures if |seen| < |es| then ElementAt(es[|seen|], bytes, mid) else mid == end
    decreases |seen|
  {
    hide MarkerAt, SegmentAt, ClosesAt;
    if seen == [] {
      assert es[..0] == [];
    } else if es == [] {
      var fill, marker :| MarkerAt(bytes, end, fill, marker) && EndsImage(marker)
        && ClosesAt(bytes, end + fill + 1, marker);
      MarkerIsUnique(bytes, at, fill, marker, seen[0].fill, seen[0].marker);
    } else {
      ElementIsUnique(bytes, at, seen[0], es[0]);
      ReadingIsForced(seen[1..], es[1..], bytes, at + Size(seen[0]), mid, end);
      assert es[..|seen|] == [es[0]] + es[1..][..|seen| - 1];
    }
  }

  lemma {:induction false} FillExtends(seen: seq<Element>, e: Element, bytes: seq<Byte>, at: nat, mid: nat)
    requires Fill(seen, bytes, at, mid) && ElementAt(e, bytes, mid)
    ensures Fill(seen + [e], bytes, at, mid + Size(e))
    decreases |seen|
  {
    hide ElementAt;
    if seen == [] {
      assert (seen + [e])[1..] == [];
    } else {
      FillExtends(seen[1..], e, bytes, at + Size(seen[0]), mid);
      assert (seen + [e])[1..] == seen[1..] + [e];
    }
  }

  lemma {:induction false} FramesGrow(es: seq<Element>, n: nat)
    requires n <= |es|
    ensures Frames(es[..n]) <= Frames(es)
    decreases |es|
  {
    if n < |es| {
      FramesGrow(es[..|es| - 1], n);
      assert es[..|es| - 1][..n] == es[..n];
    } else {
      assert es[..n] == es;
    }
  }

  /** What stands at `at`, after `frames` frames, in any image with this start. */
  ghost predicate NextIsGood(bytes: seq<Byte>, at: nat, frames: nat) {
    || (frames == 1 && TailAt(bytes, at))
    || (exists e :: ElementAt(e, bytes, at) && (e.marker == 0xc0 ==> frames == 0))
  }

  lemma GoodNextIsNeeded(bytes: seq<Byte>, seen: seq<Element>, at: nat)
    requires Fill(seen, bytes, 2, at) && IsJpeg(bytes)
    ensures NextIsGood(bytes, at, Frames(seen))
  {
    hide Fill, TailAt, ElementAt, Frames;
    var es, end :| Fill(es, bytes, 2, end) && Frames(es) == 1 && TailAt(bytes, end);
    ReadingIsForced(seen, es, bytes, 2, at, end);
    if |seen| < |es| {
      var more := es[..|seen| + 1];
      FramesGrow(es, |more|);
      FramesOfOneMore(seen, es[|seen|]);
      assert more == seen + [es[|seen|]];
      assert ElementAt(es[|seen|], bytes, at);
    } else {
      assert es == seen;
    }
  }

  lemma FramesOfOneMore(seen: seq<Element>, e: Element)
    ensures Frames(seen + [e]) == Frames(seen) + (if e.marker == 0xc0 then 1 else 0)
  {
    assert (seen + [e])[..|seen|] == seen;
  }

  lemma TailMakesJpeg(bytes: seq<Byte>, seen: seq<Element>, at: nat)
    requires |bytes| >= 2 && bytes[0] == 0xff && bytes[1] == 0xd8
    requires Fill(seen, bytes, 2, at) && Frames(seen) == 1 && TailAt(bytes, at)
    ensures IsJpeg(bytes)
  {
  }

  /** The tests made on one marker, in the validator's terms. */
  lemma GoodMeans(bytes: seq<Byte>, at: nat, frames: nat, fill: nat, marker: Byte)
    requires MarkerAt(bytes, at, fill, marker)
    ensures var next := at + fill + 1;
            NextIsGood(bytes, at, frames) <==>
              if EndsImage(marker) then frames == 1 && ClosesAt(bytes, next, marker)
              else
                && !IsRestart(marker)
                && (exists length :: SegmentAt(bytes, next, marker, length))
                && (marker == 0xc0 ==> frames == 0)
  {
    hide MarkerAt, ClosesAt, SegmentAt;
    forall g, n | MarkerAt(bytes, at, g, n) ensures g == fill && n == marker {
      MarkerIsUnique(bytes, at, g, n, fill, marker);
    }
    var next := at + fill + 1;
    forall length | SegmentAt(bytes, next, marker, length) && !EndsImage(marker) && !IsRestart(marker)
      ensures ElementAt(Element(fill, marker, length), bytes, at)
    {
    }
  }

  lemma GoodNeedsMarker(bytes: seq<Byte>, at: nat, frames: nat)
    requires NextIsGood(bytes, at, frames)
    ensures exists fill, marker :: MarkerAt(bytes, at, fill, marker)
  {
  }

  lemma JpegHasFourBytes(bytes: seq<Byte>)
    requires IsJpeg(bytes)
    ensures |bytes| >= 4
  {
    hide Frames, TailAt, ElementAt, ClosesAt;
    GoodNextIsNeeded(bytes, [], 2);
    GoodNeedsMarker(bytes, 2, Frames([]));
  }

  lemma ScanClosesMeans(bytes: seq<Byte>, at: nat)
    requires at <= |bytes|
    ensures ClosesAt(bytes, at, 0xda) <==>
              && at + 2 <= |bytes|
              && var length := U16(bytes, at);
                 length >= 2 && at + length <= |bytes| && IsEoiAt(bytes, at + length, |bytes| - 2)
  {
    hide IsEoiAt, U16;
  }

  lemma EoiIsUnique(bytes: seq<Byte>, start: nat, eoi: nat)
    requires IsEoiAt(bytes, start, eoi)
    ensures forall i :: IsEoiAt(bytes, start, i) ==> i == eoi
  {
    forall i | IsEoiAt(bytes, start, i) ensures i == eoi { StopIsUnique(bytes, start, i, eoi); }
  }

  lemma SegmentMeans(bytes: seq<Byte>, at: nat, marker: Byte)
    requires marker != 0x01
    ensures (exists length :: SegmentAt(bytes, at, marker, length)) <==>
              && at + 2 <= |bytes|
              && var length := U16(bytes, at);
                 length >= 2 && at + length <= |bytes| && !IsUnsupportedFrame(marker)
                   && (marker == 0xc0 ==> ValidFrame(bytes[at + 2..at + length]))
    ensures at + 2 <= |bytes| && (exists length :: SegmentAt(bytes, at, marker, length)) ==>
            SegmentAt(bytes, at, marker, U16(bytes, at))
  {
    hide U16, IsUnsupportedFrame, ValidFrame;
    if at + 2 <= |bytes| {
      assert SegmentAt(bytes, at, marker, U16(bytes, at)) || !SegmentAt(bytes, at, marker, U16(bytes, at));
    }
  }

  lemma ElementIsAdded(bytes: seq<Byte>, at: nat, seen: seq<Element>, fill: nat, marker: Byte, length: nat)
    requires Fill(seen, bytes, 2, at) && MarkerAt(bytes, at, fill, marker)
    requires !EndsImage(marker) && !IsRestart(marker) && SegmentAt(bytes, at + fill + 1, marker, length)
    ensures Fill(seen + [Element(fill, marker, length)], bytes, 2, at + fill + 1 + length)
    ensures Frames(seen + [Element(fill, marker, length)]) == Frames(seen) + (if marker == 0xc0 then 1 else 0)
  {
    hide Fill, MarkerAt, SegmentAt, Frames;
    var e := Element(fill, marker, length);
    FillExtends(seen, e, bytes, 2, at);
    FramesOfOneMore(seen, e);
  }

  lemma TailFound(bytes: seq<Byte>, at: nat, fill: nat, marker: Byte)
    requires MarkerAt(bytes, at, fill, marker) && EndsImage(marker) && ClosesAt(bytes, at + fill + 1, marker)
    ensures TailAt(bytes, at)
  {
  }

  lemma NoMarkerNoJpeg(bytes: seq<Byte>, seen: seq<Element>, at: nat)
    requires Fill(seen, bytes, 2, at)
    requires forall fill, marker :: !MarkerAt(bytes, at, fill, marker)
    ensures !IsJpeg(bytes)
  {
    hide Fill, Frames, MarkerAt, IsJpeg, NextIsGood;
    if IsJpeg(bytes) {
      GoodNextIsNeeded(bytes, seen, at);
      GoodNeedsMarker(bytes, at, Frames(seen));
    }
  }

  method ValidateJpegContainer(bytes: seq<Byte>) returns (ok: bool)
    ensures ok <==> IsJpeg(bytes)
  {
    hide Fill, Frames, IsJpeg, NextIsGood, TailAt, ClosesAt, SegmentAt, IsEoiAt, U16, ValidFrame, MarkerAt,
         IsUnsupportedFrame;
    if IsJpeg(bytes) { JpegHasFourBytes(bytes); JpegStarts(bytes); }
    if |bytes| < 4 || bytes[0] != 0xff || bytes[1] != 0xd8 { return false; }
    var offset := 2;
    var sawFrame := false;
    ghost var seen: seq<Element> := [];
    NothingSeen(bytes);
    while offset < |bytes|
      invariant 2 <= offset <= |bytes|
      invariant Fill(seen, bytes, 2, offset)
      invariant Frames(seen) == if sawFrame then 1 else 0
    {
      ghost var at := offset;
      if bytes[offset] != 0xff { NotAMarker(bytes, seen, at, at); return false; }
      while offset < |bytes| && bytes[offset] == 0xff
        invariant at <= offset <= |bytes|
        invariant forall i :: at <= i < offset ==> bytes[i] == 0xff
      {
        offset := offset + 1;
      }
      if offset >= |bytes| { NotAMarker(bytes, seen, at, offset); return false; }
      var marker := bytes[offset];
      ghost var fill := offset - at;
      MarkerFound(bytes, at, fill);
      offset := offset + 1;
      if IsJpeg(bytes) { GoodNextIsNeeded(bytes, seen, at); }
      GoodMeans(bytes, at, Frames(seen), fill, marker);
      if marker == 0xd9 {
        EoiClosesMeans(bytes, offset);
        if !sawFrame || offset != |bytes| { return false; }
        TailFound(bytes, at, fill, marker);
        TailMakesJpeg(bytes, seen, at);
        return true;
      }
      if marker == 0xda {
        ScanClosesMeans(bytes, offset);
        if !sawFrame || offset + 2 > |bytes| { return false; }
        var length := U16(bytes, offset);
        if length < 2 || offset + length > |bytes| { return false; }
        var malformed, eoi := FindSingleScanEoi(bytes, offset + length);
        if malformed { return false; }
        if eoi >= 0 { EoiIsUnique(bytes, offset + length, eoi); }
        if eoi < 0 || eoi + 2 != |bytes| { return false; }
        TailFound(bytes, at, fill, marker);
        TailMakesJpeg(bytes, seen, at);
        return true;
      }
      if 0xd0 <= marker <= 0xd7 { return false; }
      if marker == 0x01 {
        StandsAlone(bytes, offset);
        ElementIsAdded(bytes, at, seen, fill, marker, 0);
        seen := seen + [Element(fill, marker, 0)];
        continue;
      }
      SegmentMeans(bytes, offset, marker);
      if offset + 2 > |bytes| { return false; }
      var length := U16(bytes, offset);
      if length < 2 || offset + length > |bytes| { return false; }
      if marker == 0xc0 {
        if sawFrame { return false; }
        if !ValidFrame(bytes[offset + 2..offset + length]) { return false; }
        sawFrame := true;
      } else if IsUnsupportedFrame(marker) {
        return false;
      }
      BaselineIsSupported();
      ElementIsAdded(bytes, at, seen, fill, marker, length);
      seen := seen + [Element(fill, marker, length)];
      offset := offset + length;
    }
    NotAMarker(bytes, seen, offset, offset);
    return false;
  }

  lemma JpegStarts(bytes: seq<Byte>)
    requires IsJpeg(bytes)
    ensures |bytes| >= 2 && bytes[0] == 0xff && bytes[1] == 0xd8
  {
  }

  lemma NothingSeen(bytes: seq<Byte>)
    ensures Fill([], bytes, 2, 2) && Frames([]) == 0
  {
  }

  lemma NotAMarker(bytes: seq<Byte>, seen: seq<Element>, at: nat, stop: nat)
    requires Fill(seen, bytes, 2, at) && at <= stop <= |bytes|
    requires stop == at < |bytes| ==> bytes[at] != 0xff
    requires stop > at || at == |bytes| ==> stop == |bytes|
    requires forall i :: at <= i < stop ==> bytes[i] == 0xff
    ensures !IsJpeg(bytes)
  {
    hide Fill, IsJpeg;
    forall fill, marker ensures !MarkerAt(bytes, at, fill, marker) {
    }
    NoMarkerNoJpeg(bytes, seen, at);
  }

  lemma MarkerFound(bytes: seq<Byte>, at: nat, fill: nat)
    requires fill >= 1 && at + fill < |bytes| && bytes[at + fill] != 0xff
    requires forall i :: at <= i < at + fill ==> bytes[i] == 0xff
    ensures MarkerAt(bytes, at, fill, bytes[at + fill])
  {
  }

  lemma EoiClosesMeans(bytes: seq<Byte>, at: nat)
    ensures ClosesAt(bytes, at, 0xd9) <==> at == |bytes|
  {
  }

  lemma StandsAlone(bytes: seq<Byte>, at: nat)
    ensures SegmentAt(bytes, at, 0x01, 0)
  {
  }

  lemma BaselineIsSupported()
    ensures !IsUnsupportedFrame(0xc0)
  {
  }
}
