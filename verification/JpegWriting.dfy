/** The JPEG container from its writer's side: what a list of segments, a frame and a scan look like in bytes. */
module JpegWriting {
  import opened ImageBytes
  import opened Layout
  import opened Jpeg

  /** Identifier, sampling factors and quantization table. */
  datatype Component = Component(id: Byte, sampling: Byte, table: Byte)

  /** Any marker may have more than one byte 0xff before it. */
  datatype Piece =
    | Alone(fill: nat)
    | Segment(fill: nat, marker: Byte, data: seq<Byte>)
    | Frame(fill: nat, width: nat, height: nat, components: seq<Component>)

  datatype Ending = EndNow(fill: nat) | EndOfScan(fill: nat, header: seq<Byte>, scan: seq<Symbol>)

  datatype Image = Image(pieces: seq<Piece>, ending: Ending)

  // ---- Writing ----

  function Ones(n: nat): (s: seq<Byte>)
    ensures |s| == n
  {
    seq(n, _ => 0xff)
  }

  /** The more significant byte comes first. */
  function TwoBytes(n: nat): (s: seq<Byte>)
    requires n < 65536
    ensures |s| == 2
  {
    [ByteOf(n / 256), ByteOf(n % 256)]
  }

  function ComponentBytes(cs: seq<Component>): (s: seq<Byte>)
    ensures |s| == 3 * |cs|
    decreases |cs|
  {
    if cs == [] then [] else [cs[0].id, cs[0].sampling, cs[0].table] + ComponentBytes(cs[1..])
  }

  predicate IsFrame(p: Piece) {
    p.Frame?
  }

  /** Markers that have a length and a content of their own: no frame, no restart marker and no end of anything. */
  predicate IsPlainMarker(marker: Byte) {
    marker !in [0x01, 0xc0, 0xc1, 0xc2, 0xc3, 0xc5, 0xc6, 0xc7, 0xc9, 0xca, 0xcb, 0xcd, 0xce, 0xcf,
                0xd0, 0xd1, 0xd2, 0xd3, 0xd4, 0xd5, 0xd6, 0xd7, 0xd9, 0xda, 0xff]
  }

  predicate PieceOk(p: Piece) {
    match p
    case Alone(fill) => fill >= 1
    case Segment(fill, marker, data) => fill >= 1 && IsPlainMarker(marker) && |data| <= 65533
    case Frame(fill, width, height, components) =>
      && fill >= 1
      && 1 <= width <= 16384 && 1 <= height <= 16384 && width * height <= 40000000
      && 1 <= |components| <= 4
  }

  predicate EndingOk(e: Ending) {
    e.fill >= 1 && (e.EndOfScan? ==> |e.header| <= 65533)
  }

  ghost predicate HasOneFrame(ps: seq<Piece>) {
    exists i :: OnlyFrameIsAt(ps, i)
  }

  ghost predicate OnlyFrameIsAt(ps: seq<Piece>, i: int) {
    0 <= i < |ps| && forall j :: 0 <= j < |ps| ==> (IsFrame(ps[j]) <==> j == i)
  }

  predicate AllOk(ps: seq<Piece>) {
    forall i :: 0 <= i < |ps| ==> PieceOk(ps[i])
  }

  ghost predicate ImageOk(image: Image) {
    AllOk(image.pieces) && HasOneFrame(image.pieces) && EndingOk(image.ending)
  }

  function FrameData(p: Piece): (s: seq<Byte>)
    requires p.Frame? && PieceOk(p)
    ensures |s| == 6 + 3 * |p.components| <= 18
  {
    [8] + TwoBytes(p.height) + TwoBytes(p.width) + [ByteOf(|p.components|)] + ComponentBytes(p.components)
  }

  function WithLength(data: seq<Byte>): (s: seq<Byte>)
    requires |data| <= 65533
    ensures |s| == |data| + 2
  {
    TwoBytes(|data| + 2) + data
  }

  function MarkerOf(p: Piece): Byte {
    match p
    case Alone(_) => 0x01
    case Segment(_, marker, _) => marker
    case Frame(_, _, _, _) => 0xc0
  }

  function ContentOf(p: Piece): seq<Byte>
    requires PieceOk(p)
  {
    match p
    case Alone(_) => []
    case Segment(_, _, data) => WithLength(data)
    case Frame(_, _, _, _) => WithLength(FrameData(p))
  }

  function PieceBytes(p: Piece): (s: seq<Byte>)
    requires PieceOk(p)
    ensures |s| == p.fill + 1 + |ContentOf(p)|
  {
    Ones(p.fill) + [MarkerOf(p)] + ContentOf(p)
  }

  function AllBytes(ps: seq<Piece>): seq<Byte>
    requires AllOk(ps)
    decreases |ps|
  {
    if ps == [] then [] else PieceBytes(ps[0]) + AllBytes(ps[1..])
  }

  function EndingBytes(e: Ending): seq<Byte>
    requires EndingOk(e)
  {
    match e
    case EndNow(fill) => Ones(fill) + [0xd9]
    case EndOfScan(fill, header, scan) => Ones(fill) + [0xda] + WithLength(header) + Encode(scan) + [0xff, 0xd9]
  }

  function Written(image: Image): seq<Byte>
    requires ImageOk(image)
  {
    [0xff, 0xd8] + AllBytes(image.pieces) + EndingBytes(image.ending)
  }

  // ---- Numbers of two bytes ----

  lemma TwoBytesRead(n: nat, bytes: seq<Byte>, at: nat)
    requires n < 65536 && Has(bytes, at, TwoBytes(n))
    ensures at + 2 <= |bytes| && U16(bytes, at) == n
  {
    hide Value, ByteOf, Has;
    HasTwo(bytes, at, ByteOf(n / 256), ByteOf(n % 256));
    ByteOfNumber(n / 256);
    ByteOfNumber(n % 256);
  }

  lemma TwoBytesOfRead(bytes: seq<Byte>, at: nat)
    requires at + 2 <= |bytes|
    ensures U16(bytes, at) < 65536 && Has(bytes, at, TwoBytes(U16(bytes, at)))
    ensures TwoBytes(U16(bytes, at)) == [bytes[at], bytes[at + 1]]
  {
    hide Value, ByteOf, Has;
    HasTwo(bytes, at, bytes[at], bytes[at + 1]);
    NumberOfByte(bytes[at]);
    NumberOfByte(bytes[at + 1]);
    HighAndLow(Value(bytes[at]), Value(bytes[at + 1]));
  }

  lemma HighAndLow(high: nat, low: nat)
    requires high < 256 && low < 256
    ensures (high * 0x100 + low) / 256 == high && (high * 0x100 + low) % 256 == low
  {
  }

  // ---- Frames ----

  lemma FrameDataIsValid(p: Piece)
    requires p.Frame? && PieceOk(p)
    ensures ValidFrame(FrameData(p))
  {
    var data := FrameData(p);
    FrameDataParts(p);
    hide TwoBytes, U16, ByteOf, Value, FrameData, Has;
    TwoBytesRead(p.height, data, 1);
    TwoBytesRead(p.width, data, 3);
    ByteOfNumber(|p.components|);
  }

  lemma FrameDataParts(p: Piece)
    requires p.Frame? && PieceOk(p)
    ensures var data := FrameData(p);
            && data[0] == 8 && Has(data, 1, TwoBytes(p.height)) && Has(data, 3, TwoBytes(p.width))
            && data[5] == ByteOf(|p.components|)
  {
    hide TwoBytes, ByteOf;
  }

  function ComponentsOf(data: seq<Byte>): seq<Component>
    decreases |data|
  {
    if |data| < 3 then [] else [Component(data[0], data[1], data[2])] + ComponentsOf(data[3..])
  }

  lemma {:induction false} ComponentsReadBack(data: seq<Byte>, n: nat)
    requires |data| == 3 * n
    ensures |ComponentsOf(data)| == n && ComponentBytes(ComponentsOf(data)) == data
    decreases n
  {
    if n > 0 { ComponentsReadBack(data[3..], n - 1); }
  }

  lemma ValidFrameIsData(data: seq<Byte>, fill: nat) returns (p: Piece)
    requires ValidFrame(data) && fill >= 1
    ensures p.Frame? && p.fill == fill && PieceOk(p) && FrameData(p) == data
  {
    hide TwoBytes, U16, ByteOf, Value, Has, ComponentsOf, ComponentBytes;
    NumberOfByte(data[5]);
    var components := ComponentsOf(data[6..]);
    ComponentsReadBack(data[6..], Value(data[5]));
    p := Frame(fill, U16(data, 3), U16(data, 1), components);
    TwoBytesOfRead(data, 1);
    TwoBytesOfRead(data, 3);
    assert data == [data[0]] + [data[1], data[2]] + [data[3], data[4]] + [data[5]] + data[6..];
  }

  // ---- One piece ----

  lemma PlainMarkers(marker: Byte)
    ensures IsPlainMarker(marker) <==>
            && marker != 0x01 && marker != 0xc0 && marker != 0xff
            && !IsUnsupportedFrame(marker) && !IsRestart(marker) && !EndsImage(marker)
  {
  }

  function ElementOf(p: Piece): Element
    requires PieceOk(p)
  {
    Element(p.fill, MarkerOf(p), |ContentOf(p)|)
  }

  lemma OnesThenMarker(bytes: seq<Byte>, at: nat, fill: nat, marker: Byte)
    requires fill >= 1 && marker != 0xff && Has(bytes, at, Ones(fill) + [marker])
    ensures MarkerAt(bytes, at, fill, marker)
  {
    var text := bytes[at..at + fill + 1];
    forall i | at <= i < at + fill ensures bytes[i] == 0xff { assert bytes[i] == text[i - at]; }
    assert bytes[at + fill] == text[fill];
  }

  lemma OnesWereThere(bytes: seq<Byte>, at: nat, fill: nat, marker: Byte)
    requires MarkerAt(bytes, at, fill, marker)
    ensures fill >= 1 && marker != 0xff && Has(bytes, at, Ones(fill) + [marker])
  {
  }

  lemma LengthIsThere(bytes: seq<Byte>, at: nat, data: seq<Byte>)
    requires |data| <= 65533 && Has(bytes, at, WithLength(data))
    ensures LengthAt(bytes, at, |data| + 2) && bytes[at + 2..at + 2 + |data|] == data
  {
    hide TwoBytes, U16;
    HasBoth(bytes, at, TwoBytes(|data| + 2), data);
    TwoBytesRead(|data| + 2, bytes, at);
  }

  lemma LengthWasThere(bytes: seq<Byte>, at: nat, length: nat)
    requires LengthAt(bytes, at, length)
    ensures 2 <= length <= 65535 && at + length <= |bytes|
    ensures Has(bytes, at, WithLength(bytes[at + 2..at + length]))
  {
    hide TwoBytes, U16, Has;
    var data := bytes[at + 2..at + length];
    TwoBytesOfRead(bytes, at);
    HasSlice(bytes, at + 2, at + length);
    HasBoth(bytes, at, TwoBytes(length), data);
  }

  lemma ContentIsSegment(p: Piece, bytes: seq<Byte>, at: nat)
    requires PieceOk(p) && Has(bytes, at, ContentOf(p))
    ensures SegmentAt(bytes, at, MarkerOf(p), |ContentOf(p)|)
  {
    hide ValidFrame, LengthAt, IsUnsupportedFrame, FrameData, TwoBytes, WithLength, Has, IsPlainMarker;
    match p
    case Alone(_) =>
    case Segment(_, marker, data) =>
      PlainMarkers(marker);
      LengthIsThere(bytes, at, data);
    case Frame(_, _, _, _) =>
      BaselineIsSupported();
      FrameDataIsValid(p);
      LengthIsThere(bytes, at, FrameData(p));
  }

  lemma PieceIsElement(p: Piece, bytes: seq<Byte>, at: nat)
    requires PieceOk(p) && Has(bytes, at, PieceBytes(p))
    ensures ElementAt(ElementOf(p), bytes, at) && Size(ElementOf(p)) == |PieceBytes(p)|
  {
    hide *;
    MarkerOfPiece(p);
    PartsOfPiece(p);
    PartsAreThere(p, bytes, at);
    OnesThenMarker(bytes, at, p.fill, MarkerOf(p));
    ContentIsSegment(p, bytes, at + p.fill + 1);
    ElementFound(bytes, at, p.fill, MarkerOf(p), |ContentOf(p)|);
  }

  lemma MarkerOfPiece(p: Piece)
    requires PieceOk(p)
    ensures p.fill >= 1 && MarkerOf(p) != 0xff && !EndsImage(MarkerOf(p)) && !IsRestart(MarkerOf(p))
  {
    PlainMarkers(MarkerOf(p));
  }

  lemma PartsOfPiece(p: Piece)
    requires PieceOk(p)
    ensures ElementOf(p) == Element(p.fill, MarkerOf(p), |ContentOf(p)|) && Size(ElementOf(p)) == |PieceBytes(p)|
  {
    hide ContentOf, MarkerOf, Ones, PieceOk;
  }

  lemma PartsAreThere(p: Piece, bytes: seq<Byte>, at: nat)
    requires PieceOk(p) && Has(bytes, at, PieceBytes(p))
    ensures Has(bytes, at, Ones(p.fill) + [MarkerOf(p)]) && Has(bytes, at + p.fill + 1, ContentOf(p))
  {
    hide ContentOf, MarkerOf, Ones, PieceOk, Has;
    HasBoth(bytes, at, Ones(p.fill) + [MarkerOf(p)], ContentOf(p));
  }

  lemma ElementFound(bytes: seq<Byte>, at: nat, fill: nat, marker: Byte, length: nat)
    requires MarkerAt(bytes, at, fill, marker) && !EndsImage(marker) && !IsRestart(marker)
    requires SegmentAt(bytes, at + fill + 1, marker, length)
    ensures ElementAt(Element(fill, marker, length), bytes, at)
  {
    hide MarkerAt, SegmentAt, EndsImage, IsRestart;
  }

  /** Every element can have been written as a piece. */
  lemma ElementIsPiece(e: Element, bytes: seq<Byte>, at: nat) returns (p: Piece)
    requires ElementAt(e, bytes, at)
    ensures PieceOk(p) && Has(bytes, at, PieceBytes(p)) && |PieceBytes(p)| == Size(e)
    ensures IsFrame(p) <==> e.marker == 0xc0
  {
    hide Ones, MarkerAt, LengthAt, WithLength, ValidFrame, FrameData, IsUnsupportedFrame, IsPlainMarker, EndsImage, Has;
    var next := at + e.fill + 1;
    OnesWereThere(bytes, at, e.fill, e.marker);
    PlainMarkers(e.marker);
    if e.marker == 0x01 {
      p := Alone(e.fill);
      assert PieceBytes(p) == Ones(e.fill) + [e.marker];
    } else {
      LengthWasThere(bytes, next, e.length);
      var data := bytes[next + 2..next + e.length];
      if e.marker == 0xc0 {
        p := ValidFrameIsData(data, e.fill);
      } else {
        p := Segment(e.fill, e.marker, data);
      }
      HasBoth(bytes, at, Ones(e.fill) + [e.marker], WithLength(data));
    }
  }

  // ---- All pieces ----

  function ElementsOf(ps: seq<Piece>): (es: seq<Element>)
    requires AllOk(ps)
    ensures |es| == |ps| && forall i :: 0 <= i < |ps| ==> es[i] == ElementOf(ps[i])
  {
    seq(|ps|, i requires 0 <= i < |ps| => ElementOf(ps[i]))
  }

  lemma {:induction false} PiecesFill(ps: seq<Piece>, bytes: seq<Byte>, at: nat)
    requires AllOk(ps) && Has(bytes, at, AllBytes(ps))
    ensures Fill(ElementsOf(ps), bytes, at, at + |AllBytes(ps)|)
    decreases |ps|
  {
    hide *;
    if ps == [] {
      NoPieces(bytes, at);
    } else {
      FirstAndRest(ps);
      ElementsUnfold(ps);
      var p, rest := ps[0], ps[1..];
      FirstIsThere(ps, bytes, at);
      PieceIsElement(p, bytes, at);
      PiecesFill(rest, bytes, at + |PieceBytes(p)|);
      FillPrepends(ElementOf(p), ElementsOf(rest), bytes, at, at + |AllBytes(ps)|);
    }
  }

  lemma NoPieces(bytes: seq<Byte>, at: nat)
    ensures AllOk([]) && AllBytes([]) == [] && ElementsOf([]) == [] && Fill([], bytes, at, at)
    ensures Has(bytes, at, []) <==> at <= |bytes|
  {
  }

  lemma ElementsUnfold(ps: seq<Piece>)
    requires AllOk(ps) && ps != [] && PieceOk(ps[0]) && AllOk(ps[1..])
    ensures ElementsOf(ps) == [ElementOf(ps[0])] + ElementsOf(ps[1..])
  {
    hide PieceOk, ElementOf;
  }

  lemma FillPrepends(e: Element, es: seq<Element>, bytes: seq<Byte>, at: nat, end: nat)
    requires ElementAt(e, bytes, at) && Fill(es, bytes, at + Size(e), end)
    ensures Fill([e] + es, bytes, at, end)
  {
    hide ElementAt;
    assert ([e] + es)[1..] == es;
  }

  lemma {:induction false} FillIsPieces(es: seq<Element>, bytes: seq<Byte>, at: nat, end: nat) returns (ps: seq<Piece>)
    requires Fill(es, bytes, at, end) && end <= |bytes|
    ensures AllOk(ps) && Has(bytes, at, AllBytes(ps)) && at + |AllBytes(ps)| == end
    ensures |ps| == |es| && forall i :: 0 <= i < |ps| ==> (IsFrame(ps[i]) <==> es[i].marker == 0xc0)
    decreases |es|
  {
    hide *;
    if es == [] {
      ps := [];
      NoPieces(bytes, at);
      NoElements(bytes, at, end);
    } else {
      FillUnfolds(es, bytes, at, end);
      var rest := FillIsPieces(es[1..], bytes, at + Size(es[0]), end);
      var p := ElementIsPiece(es[0], bytes, at);
      ps := [p] + rest;
      RestIsOk(p, rest);
      assert forall i :: 0 < i < |ps| ==> ps[i] == rest[i - 1] && es[i] == es[1..][i - 1];
      FirstIsThere(ps, bytes, at);
    }
  }

  lemma NoElements(bytes: seq<Byte>, at: nat, end: nat)
    requires Fill([], bytes, at, end)
    ensures at == end
  {
  }

  lemma FillUnfolds(es: seq<Element>, bytes: seq<Byte>, at: nat, end: nat)
    requires Fill(es, bytes, at, end) && es != []
    ensures ElementAt(es[0], bytes, at) && Fill(es[1..], bytes, at + Size(es[0]), end)
  {
    hide ElementAt;
  }

  lemma RestIsOk(p: Piece, rest: seq<Piece>)
    requires PieceOk(p) && AllOk(rest)
    ensures AllOk([p] + rest) && ([p] + rest)[0] == p && ([p] + rest)[1..] == rest
  {
    hide PieceOk;
  }

  lemma FirstIsThere(ps: seq<Piece>, bytes: seq<Byte>, at: nat)
    requires AllOk(ps) && ps != [] && PieceOk(ps[0]) && AllOk(ps[1..])
    ensures |AllBytes(ps)| == |PieceBytes(ps[0])| + |AllBytes(ps[1..])|
    ensures Has(bytes, at, AllBytes(ps)) <==>
            Has(bytes, at, PieceBytes(ps[0])) && Has(bytes, at + |PieceBytes(ps[0])|, AllBytes(ps[1..]))
  {
    hide *;
    FirstAndRest(ps);
    HasBoth(bytes, at, PieceBytes(ps[0]), AllBytes(ps[1..]));
  }

  lemma FirstAndRest(ps: seq<Piece>)
    requires AllOk(ps) && ps != []
    ensures PieceOk(ps[0]) && AllOk(ps[1..]) && AllBytes(ps) == PieceBytes(ps[0]) + AllBytes(ps[1..])
  {
    hide PieceOk, PieceBytes;
  }

  /** Exactly one of the elements is a frame. */
  ghost predicate OneIsFrame(es: seq<Element>) {
    exists i :: OnlyOneAt(es, i)
  }

  ghost predicate OnlyOneAt(es: seq<Element>, i: int) {
    0 <= i < |es| && forall j :: 0 <= j < |es| ==> (es[j].marker == 0xc0 <==> j == i)
  }

  lemma {:induction false} FramesAreCounted(es: seq<Element>)
    ensures Frames(es) == 0 <==> forall j :: 0 <= j < |es| ==> es[j].marker != 0xc0
    ensures Frames(es) == 1 <==> OneIsFrame(es)
    decreases |es|
  {
    if es != [] {
      var front, last := es[..|es| - 1], es[|es| - 1];
      FramesAreCounted(front);
      if last.marker == 0xc0 {
        if Frames(front) == 0 { assert OnlyOneAt(es, |front|); }
        if OneIsFrame(es) {
          var i :| OnlyOneAt(es, i);
          assert i == |front|;
          forall j | 0 <= j < |front| ensures front[j].marker != 0xc0 { assert front[j] == es[j]; }
        }
      } else {
        if OneIsFrame(front) {
          var i :| OnlyOneAt(front, i);
          assert OnlyOneAt(es, i);
        }
        if OneIsFrame(es) {
          var i :| OnlyOneAt(es, i);
          assert OnlyOneAt(front, i);
        }
      }
    }
  }

  lemma OneFrameIsOneElement(ps: seq<Piece>, es: seq<Element>)
    requires |es| == |ps| && forall i :: 0 <= i < |ps| ==> (IsFrame(ps[i]) <==> es[i].marker == 0xc0)
    ensures HasOneFrame(ps) <==> Frames(es) == 1
  {
    hide IsFrame, Frames;
    FramesAreCounted(es);
    forall i ensures OnlyFrameIsAt(ps, i) <==> OnlyOneAt(es, i) {
    }
  }

  lemma FramesOfPieces(ps: seq<Piece>)
    requires AllOk(ps)
    ensures forall i :: 0 <= i < |ps| ==> (IsFrame(ps[i]) <==> ElementsOf(ps)[i].marker == 0xc0)
  {
    forall i | 0 <= i < |ps| ensures IsFrame(ps[i]) <==> MarkerOf(ps[i]) == 0xc0 { assert PieceOk(ps[i]); }
  }

  // ---- The ending ----

  lemma EndingCloses(e: Ending, bytes: seq<Byte>, at: nat)
    requires EndingOk(e) && Has(bytes, at, EndingBytes(e)) && at + |EndingBytes(e)| == |bytes|
    ensures TailAt(bytes, at)
  {
    hide Ones, WithLength, Encode, MarkerAt, ClosesAt, Has;
    match e
    case EndNow(fill) =>
      OnesThenMarker(bytes, at, fill, 0xd9);
      EoiClosesMeans(bytes, at + fill + 1);
      TailFound(bytes, at, fill, 0xd9);
    case EndOfScan(fill, header, scan) =>
      var rest := WithLength(header) + Encode(scan) + [0xff, 0xd9];
      assert EndingBytes(e) == (Ones(fill) + [0xda]) + rest;
      HasBoth(bytes, at, Ones(fill) + [0xda], rest);
      OnesThenMarker(bytes, at, fill, 0xda);
      ScanCloses(bytes, at + fill + 1, header, scan);
      TailFound(bytes, at, fill, 0xda);
  }

  lemma ScanCloses(bytes: seq<Byte>, at: nat, header: seq<Byte>, scan: seq<Symbol>)
    requires |header| <= 65533 && Has(bytes, at, WithLength(header) + Encode(scan) + [0xff, 0xd9])
    requires at + |WithLength(header)| + |Encode(scan)| + 2 == |bytes|
    ensures ClosesAt(bytes, at, 0xda)
  {
    hide WithLength, Encode, IsEoiAt, U16, Has;
    var start := at + 2 + |header|;
    HasThree(bytes, at, WithLength(header), Encode(scan), [0xff, 0xd9]);
    LengthIsThere(bytes, at, header);
    SplitAtScan(bytes, start, Encode(scan));
    EncodedScanEndsAtItsEoi(bytes[..start], scan, []);
  }

  lemma SplitAtScan(bytes: seq<Byte>, start: nat, scan: seq<Byte>)
    requires Has(bytes, start, scan) && Has(bytes, start + |scan|, [0xff, 0xd9]) && start + |scan| + 2 == |bytes|
    ensures bytes == bytes[..start] + scan + [0xff, 0xd9] + []
  {
    assert bytes == bytes[..start] + bytes[start..start + |scan|] + bytes[start + |scan|..];
  }

  lemma TailIsEnding(bytes: seq<Byte>, at: nat) returns (e: Ending)
    requires TailAt(bytes, at)
    ensures EndingOk(e) && Has(bytes, at, EndingBytes(e)) && at + |EndingBytes(e)| == |bytes|
  {
    hide MarkerAt, IsScan, Decode, Encode, U16, Ones, WithLength, LengthAt, Has;
    var fill, marker :| MarkerAt(bytes, at, fill, marker) && EndsImage(marker)
      && ClosesAt(bytes, at + fill + 1, marker);
    var next := at + fill + 1;
    OnesWereThere(bytes, at, fill, marker);
    if marker == 0xd9 {
      e := EndNow(fill);
    } else {
      var start, end := next + U16(bytes, next), |bytes| - 2;
      LengthWasThere(bytes, next, U16(bytes, next));
      var header := bytes[next + 2..start];
      ScanGoesForward(bytes, start, end);
      EncodingDecodedReturns(bytes, start, end);
      HasSlice(bytes, start, end);
      HasTwo(bytes, end, 0xff, 0xd9);
      e := EndOfScan(fill, header, Decode(bytes, start, end));
      var rest := WithLength(header) + Encode(e.scan) + [0xff, 0xd9];
      HasThree(bytes, next, WithLength(header), Encode(e.scan), [0xff, 0xd9]);
      assert EndingBytes(e) == (Ones(fill) + [0xda]) + rest;
      HasBoth(bytes, at, Ones(fill) + [0xda], rest);
    }
  }

  // ---- Both directions ----

  lemma WrittenHas(image: Image)
    requires ImageOk(image)
    ensures var bytes, at := Written(image), 2 + |AllBytes(image.pieces)|;
            && |bytes| >= 2 && bytes[0] == 0xff && bytes[1] == 0xd8
            && Has(bytes, 2, AllBytes(image.pieces))
            && Has(bytes, at, EndingBytes(image.ending)) && at + |EndingBytes(image.ending)| == |bytes|
  {
    hide HasOneFrame, AllBytes, EndingBytes, EndingOk, PieceOk, AllOk, Has;
    var bytes := Written(image);
    HasItself(bytes, bytes);
    HasThree(bytes, 0, [0xff, 0xd8], AllBytes(image.pieces), EndingBytes(image.ending));
  }

  lemma WrittenIsJpeg(image: Image)
    requires ImageOk(image)
    ensures IsJpeg(Written(image))
  {
    hide Fill, TailAt, IsJpeg, HasOneFrame, AllBytes, EndingBytes, EndingOk, PieceOk, AllOk, IsFrame, Has;
    hide Written;
    var bytes, ps := Written(image), image.pieces;
    WrittenHas(image);
    PiecesFill(ps, bytes, 2);
    FramesOfPieces(ps);
    OneFrameIsOneElement(ps, ElementsOf(ps));
    EndingCloses(image.ending, bytes, 2 + |AllBytes(ps)|);
    TailMakesJpeg(bytes, ElementsOf(ps), 2 + |AllBytes(ps)|);
  }

  lemma JpegIsWritten(bytes: seq<Byte>) returns (image: Image)
    requires IsJpeg(bytes)
    ensures ImageOk(image) && Written(image) == bytes
  {
    hide Fill, TailAt, HasOneFrame, AllBytes, EndingBytes, EndingOk, PieceOk, AllOk, IsFrame, Frames, Has;
    var es: seq<Element>, end: nat :| Fill(es, bytes, 2, end) && Frames(es) == 1 && TailAt(bytes, end);
    var ending := TailIsEnding(bytes, end);
    var ps := FillIsPieces(es, bytes, 2, end);
    OneFrameIsOneElement(ps, es);
    image := Image(ps, ending);
    HasTwo(bytes, 0, 0xff, 0xd8);
    HasThree(bytes, 0, [0xff, 0xd8], AllBytes(ps), EndingBytes(ending));
    HasItself(bytes, Written(image));
  }

  /** The accepted inputs are exactly the images that can be written. */
  lemma AcceptedExactlyWhenWritten(bytes: seq<Byte>)
    ensures IsJpeg(bytes) <==> exists image :: ImageOk(image) && Written(image) == bytes
  {
    hide IsJpeg, ImageOk, Written;
    if IsJpeg(bytes) { var image := JpegIsWritten(bytes); }
    forall image | ImageOk(image) && Written(image) == bytes ensures IsJpeg(bytes) { WrittenIsJpeg(image); }
  }

  /** One grey pixel: a frame, a scan header and one byte of entropy-coded data. */
  const ONE_PIXEL: seq<Byte> := [
    0xff, 0xd8, 0xff, 0xc0, 0x00, 0x0b, 0x08, 0x00, 0x01, 0x00, 0x01, 0x01, 0x01, 0x11, 0x00,
    0xff, 0xda, 0x00, 0x08, 0x01, 0x01, 0x00, 0x00, 0x3f, 0x00, 0x2a, 0xff, 0xd9]

  lemma SmallBytes()
    ensures ByteOf(0) == 0x00 && ByteOf(1) == 0x01 && ByteOf(8) == 0x08 && ByteOf(11) == 0x0b
  {
  }

  lemma OnePixelPieces(frame: Piece)
    requires frame == Frame(1, 1, 1, [Component(0x01, 0x11, 0x00)])
    ensures PieceOk(frame)
    ensures AllBytes([frame]) == [0xff, 0xc0, 0x00, 0x0b, 0x08, 0x00, 0x01, 0x00, 0x01, 0x01, 0x01, 0x11, 0x00]
  {
    SmallBytes();
    hide ByteOf;
    assert ComponentBytes(frame.components) == [0x01, 0x11, 0x00] + ComponentBytes([]);
    var data: seq<Byte> := [0x08, 0x00, 0x01, 0x00, 0x01, 0x01, 0x01, 0x11, 0x00];
    assert FrameData(frame) == data;
    hide FrameData;
    assert ContentOf(frame) == [0x00, 0x0b] + data;
    assert Ones(1) == [0xff];
    hide ContentOf;
    assert AllBytes([frame]) == PieceBytes(frame) + AllBytes([]);
  }

  lemma OnePixelScan(header: seq<Byte>)
    requires |header| == 6
    ensures EndingBytes(EndOfScan(1, header, [Data(0x2a)])) == [0xff, 0xda, 0x00, 0x08] + header + [0x2a, 0xff, 0xd9]
  {
    SmallBytes();
    hide ByteOf;
    assert Encode([Data(0x2a)]) == [0x2a] + Encode([]);
    assert Ones(1) == [0xff];
  }

  lemma OnePixelIsAccepted()
    ensures IsJpeg(ONE_PIXEL)
  {
    hide AllBytes, EndingBytes, Encode, PieceOk, IsJpeg;
    var frame := Frame(1, 1, 1, [Component(0x01, 0x11, 0x00)]);
    var header: seq<Byte> := [0x01, 0x01, 0x00, 0x00, 0x3f, 0x00];
    var image := Image([frame], EndOfScan(1, header, [Data(0x2a)]));
    OnePixelPieces(frame);
    OnePixelScan(header);
    OneFrameIsOk(frame);
    OnePixelText(AllBytes([frame]), EndingBytes(image.ending));
    WrittenIsJpeg(image);
  }

  lemma OneFrameIsOk(frame: Piece)
    requires PieceOk(frame) && frame.Frame?
    ensures AllOk([frame]) && HasOneFrame([frame])
  {
    assert OnlyFrameIsAt([frame], 0);
  }

  lemma OnePixelText(pieces: seq<Byte>, ending: seq<Byte>)
    requires pieces == [0xff, 0xc0, 0x00, 0x0b, 0x08, 0x00, 0x01, 0x00, 0x01, 0x01, 0x01, 0x11, 0x00]
    requires ending == [0xff, 0xda, 0x00, 0x08, 0x01, 0x01, 0x00, 0x00, 0x3f, 0x00, 0x2a, 0xff, 0xd9]
    ensures [0xff, 0xd8] + pieces + ending == ONE_PIXEL
  {
  }
}
