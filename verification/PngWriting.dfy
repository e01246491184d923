/** The PNG container from its writer's side: a header, chunks around one run of IDAT, and IEND. */
module PngWriting {
  import opened ImageBytes
  import opened Layout
  import opened Crc
  import opened Png
  import opened PngStrict

  datatype Header = Header(width: nat, height: nat, depth: nat, colour: nat, interlace: nat)

  /** `before` and `after` are the other chunks on either side of the image data. */
  datatype Image = Image(header: Header, before: seq<Chunk>, idats: seq<seq<Byte>>, after: seq<Chunk>)

  // ---- What may be written ----

  /** Colour types with their bit depths (section 4.1.1 of RFC 2083), and the safe bounds. */
  predicate HeaderOk(h: Header) {
    && 1 <= h.width <= 16384 && 1 <= h.height <= 16384 && h.width * h.height <= 40000000
    && (h.colour, h.depth) in [
      (0, 1), (0, 2), (0, 4), (0, 8), (0, 16), (2, 8), (2, 16), (3, 1), (3, 2), (3, 4), (3, 8), (4, 8), (4, 16),
      (6, 8), (6, 16)]
    && h.interlace <= 1
  }

  predicate IsUpper(b: Byte) {
    0x41 <= b <= 0x5a
  }

  predicate IsLower(b: Byte) {
    0x61 <= b <= 0x7a
  }

  /** A palette, or a chunk whose first letter is small: it may be skipped by who does not know it. */
  predicate OtherOk(c: Chunk) {
    && |c.data| <= 64 * 1024 * 1024
    && |c.kind| == 4 && (forall i :: 0 <= i < 4 ==> IsUpper(c.kind[i]) || IsLower(c.kind[i]))
    && (c.kind == [0x50, 0x4c, 0x54, 0x45] || IsLower(c.kind[0]))
  }

  predicate AllOther(cs: seq<Chunk>) {
    forall i :: 0 <= i < |cs| ==> OtherOk(cs[i])
  }

  predicate ImageOk(image: Image) {
    && HeaderOk(image.header) && AllOther(image.before) && AllOther(image.after)
    && image.idats != [] && forall i :: 0 <= i < |image.idats| ==> |image.idats[i]| <= 64 * 1024 * 1024
  }

  // ---- Writing ----

  /** The most significant byte comes first. */
  function FourBytes(n: nat): (s: seq<Byte>)
    requires n < 0x1_0000_0000
    ensures |s| == 4
  {
    [ByteOf(n / 256 / 256 / 256), ByteOf(n / 256 / 256 % 256), ByteOf(n / 256 % 256), ByteOf(n % 256)]
  }

  function HeaderBytes(h: Header): (s: seq<Byte>)
    requires HeaderOk(h)
    ensures |s| == 13
  {
    FourBytes(h.width) + FourBytes(h.height) + [ByteOf(h.depth), ByteOf(h.colour), 0, 0, ByteOf(h.interlace)]
  }

  function IdatChunks(idats: seq<seq<Byte>>): (cs: seq<Chunk>)
    ensures |cs| == |idats| && forall i :: 0 <= i < |idats| ==> cs[i] == Chunk([0x49, 0x44, 0x41, 0x54], idats[i])
  {
    seq(|idats|, i requires 0 <= i < |idats| => Chunk([0x49, 0x44, 0x41, 0x54], idats[i]))
  }

  function ChunksOf(image: Image): seq<Chunk>
    requires ImageOk(image)
  {
    [Chunk([0x49, 0x48, 0x44, 0x52], HeaderBytes(image.header))]
    + image.before + IdatChunks(image.idats) + image.after
    + [Chunk([0x49, 0x45, 0x4e, 0x44], [])]
  }

  predicate Writable(c: Chunk) {
    |c.kind| == 4 && |c.data| <= MAX_CHUNK
  }

  predicate AllWritable(cs: seq<Chunk>) {
    forall i :: 0 <= i < |cs| ==> Writable(cs[i])
  }

  function ChunkBytes(c: Chunk): (s: seq<Byte>)
    requires Writable(c)
    ensures |s| == Size(c)
  {
    ChecksumFits(c.kind + c.data);
    FourBytes(|c.data|) + c.kind + c.data + FourBytes(Crc32(c.kind + c.data))
  }

  lemma ChecksumFits(bytes: seq<Byte>)
    ensures Crc32(bytes) < 0x1_0000_0000
  {
  }

  function AllBytes(cs: seq<Chunk>): seq<Byte>
    requires AllWritable(cs)
    decreases |cs|
  {
    if cs == [] then [] else ChunkBytes(cs[0]) + AllBytes(cs[1..])
  }

  // ---- Numbers of four bytes ----

  lemma HasFour(bytes: seq<Byte>, at: nat, a: Byte, b: Byte, c: Byte, d: Byte)
    ensures Has(bytes, at, [a, b, c, d]) <==>
            at + 4 <= |bytes| && bytes[at] == a && bytes[at + 1] == b && bytes[at + 2] == c && bytes[at + 3] == d
  {
    if at + 4 <= |bytes| {
      assert bytes[at..at + 4] == [bytes[at], bytes[at + 1], bytes[at + 2], bytes[at + 3]];
    }
  }

  lemma DigitsOf256(n: nat)
    ensures n == n / 256 / 256 / 256 * 0x1000000 + n / 256 / 256 % 256 * 0x10000 + n / 256 % 256 * 0x100 + n % 256
  {
    var p := n / 256;
    var q := p / 256;
    assert n == 256 * p + n % 256 && p == 256 * q + p % 256 && q == 256 * (q / 256) + q % 256;
  }

  lemma DigitOf256(high: nat, low: nat)
    requires low < 256
    ensures (high * 256 + low) / 256 == high && (high * 256 + low) % 256 == low
  {
  }

  lemma NumberOf256(a: nat, b: nat, c: nat, d: nat)
    requires a < 256 && b < 256 && c < 256 && d < 256
    ensures var n := a * 0x1000000 + b * 0x10000 + c * 0x100 + d;
            && n < 0x1_0000_0000 && n / 256 / 256 / 256 == a && n / 256 / 256 % 256 == b
            && n / 256 % 256 == c && n % 256 == d
  {
    DigitOf256(a, b);
    DigitOf256(a * 256 + b, c);
    DigitOf256((a * 256 + b) * 256 + c, d);
    assert ((a * 256 + b) * 256 + c) * 256 + d == a * 0x1000000 + b * 0x10000 + c * 0x100 + d;
  }

  lemma FourBytesRead(n: nat, bytes: seq<Byte>, at: nat)
    requires n < 0x1_0000_0000 && Has(bytes, at, FourBytes(n))
    ensures at + 4 <= |bytes| && U32(bytes, at) == n
  {
    hide Value, ByteOf, Has;
    var a, b, c, d := n / 256 / 256 / 256, n / 256 / 256 % 256, n / 256 % 256, n % 256;
    HasFour(bytes, at, ByteOf(a), ByteOf(b), ByteOf(c), ByteOf(d));
    ByteOfNumber(a);
    ByteOfNumber(b);
    ByteOfNumber(c);
    ByteOfNumber(d);
    DigitsOf256(n);
  }

  lemma FourBytesOfRead(bytes: seq<Byte>, at: nat)
    requires at + 4 <= |bytes|
    ensures U32(bytes, at) < 0x1_0000_0000 && Has(bytes, at, FourBytes(U32(bytes, at)))
    ensures FourBytes(U32(bytes, at)) == [bytes[at], bytes[at + 1], bytes[at + 2], bytes[at + 3]]
  {
    hide Value, ByteOf, Has;
    HasFour(bytes, at, bytes[at], bytes[at + 1], bytes[at + 2], bytes[at + 3]);
    NumberOfByte(bytes[at]);
    NumberOfByte(bytes[at + 1]);
    NumberOfByte(bytes[at + 2]);
    NumberOfByte(bytes[at + 3]);
    NumberOf256(Value(bytes[at]), Value(bytes[at + 1]), Value(bytes[at + 2]), Value(bytes[at + 3]));
  }

  // ---- Chunks ----

  lemma HasChunk(bytes: seq<Byte>, at: nat, c: Chunk)
    requires Writable(c)
    ensures var mid, end := at + 8, at + 8 + |c.data|;
            Has(bytes, at, ChunkBytes(c)) <==>
            && Crc32(c.kind + c.data) < 0x1_0000_0000
            && Has(bytes, at, FourBytes(|c.data|)) && Has(bytes, at + 4, c.kind)
            && Has(bytes, mid, c.data) && Has(bytes, end, FourBytes(Crc32(c.kind + c.data)))
  {
    hide FourBytes, Crc32, Has;
    ChecksumFits(c.kind + c.data);
    HasThree(bytes, at, FourBytes(|c.data|), c.kind, c.data);
    HasBoth(bytes, at, FourBytes(|c.data|) + c.kind + c.data, FourBytes(Crc32(c.kind + c.data)));
  }

  lemma WrittenIsLaid(c: Chunk, bytes: seq<Byte>, at: nat)
    requires Writable(c)
    ensures Has(bytes, at, ChunkBytes(c)) <==> LaidAt(c, bytes, at)
  {
    hide FourBytes, Crc32, U32, ChunkBytes;
    HasChunk(bytes, at, c);
    ChecksumFits(c.kind + c.data);
    var end := at + 8 + |c.data|;
    if Has(bytes, at, ChunkBytes(c)) {
      FourBytesRead(|c.data|, bytes, at);
      FourBytesRead(Crc32(c.kind + c.data), bytes, end);
    }
    if LaidAt(c, bytes, at) {
      FourBytesOfRead(bytes, at);
      FourBytesOfRead(bytes, end);
    }
  }

  lemma FirstAndRest(cs: seq<Chunk>)
    requires AllWritable(cs) && cs != []
    ensures Writable(cs[0]) && AllWritable(cs[1..]) && AllBytes(cs) == ChunkBytes(cs[0]) + AllBytes(cs[1..])
  {
    hide Writable, ChunkBytes;
  }

  lemma NoChunks(bytes: seq<Byte>, at: nat, end: nat)
    ensures AllWritable([]) && AllBytes([]) == []
    ensures end <= |bytes| ==> (Has(bytes, at, []) && at == end <==> Fill([], bytes, at, end))
  {
  }

  lemma FillUnfolds(cs: seq<Chunk>, bytes: seq<Byte>, at: nat, end: nat)
    requires cs != []
    ensures Fill(cs, bytes, at, end) <==> LaidAt(cs[0], bytes, at) && Fill(cs[1..], bytes, at + Size(cs[0]), end)
  {
    hide LaidAt;
  }

  /** What fills the bytes is what stands there when written. */
  lemma {:induction false} WrittenFills(cs: seq<Chunk>, bytes: seq<Byte>, at: nat, end: nat)
    requires AllWritable(cs) && end <= |bytes|
    ensures Has(bytes, at, AllBytes(cs)) && at + |AllBytes(cs)| == end <==> Fill(cs, bytes, at, end)
    decreases |cs|
  {
    hide *;
    if cs == [] {
      NoChunks(bytes, at, end);
    } else {
      FirstAndRest(cs);
      HasBoth(bytes, at, ChunkBytes(cs[0]), AllBytes(cs[1..]));
      WrittenIsLaid(cs[0], bytes, at);
      WrittenFills(cs[1..], bytes, at + Size(cs[0]), end);
      FillUnfolds(cs, bytes, at, end);
    }
  }

  // ---- Headers ----

  lemma HeaderParts(h: Header)
    requires HeaderOk(h)
    ensures var s := HeaderBytes(h);
            && Has(s, 0, FourBytes(h.width)) && Has(s, 4, FourBytes(h.height))
            && s[8] == ByteOf(h.depth) && s[9] == ByteOf(h.colour) && s[10] == 0 && s[11] == 0
            && s[12] == ByteOf(h.interlace)
  {
    hide FourBytes, ByteOf;
  }

  lemma SmallBytes()
    ensures ByteOf(0) == 0 && ByteOf(1) == 1 && ByteOf(2) == 2 && ByteOf(3) == 3 && ByteOf(4) == 4
    ensures ByteOf(6) == 6 && ByteOf(8) == 8 && ByteOf(16) == 16
  {
  }

  lemma WrittenHeaderIsValid(h: Header)
    requires HeaderOk(h)
    ensures ValidHeader(HeaderBytes(h))
  {
    SmallBytes();
    hide FourBytes, ByteOf, Value, U32, HeaderBytes, Has;
    HeaderParts(h);
    FourBytesRead(h.width, HeaderBytes(h), 0);
    FourBytesRead(h.height, HeaderBytes(h), 4);
  }

  lemma DepthIsListed(colour: Byte, depth: Byte)
    requires DepthFits(colour, depth)
    ensures HeaderOk(Header(1, 1, Value(depth), Value(colour), 0))
    ensures ByteOf(Value(colour)) == colour && ByteOf(Value(depth)) == depth
  {
    NumberOfByte(colour);
    NumberOfByte(depth);
    SmallValues();
    hide Value, ByteOf;
  }

  lemma SmallValues()
    ensures Value(0) == 0 && Value(1) == 1 && Value(2) == 2 && Value(3) == 3 && Value(4) == 4
    ensures Value(6) == 6 && Value(8) == 8 && Value(16) == 16
  {
  }

  lemma ValidHeaderIsWritten(data: seq<Byte>) returns (h: Header)
    requires ValidHeader(data)
    ensures HeaderOk(h) && HeaderBytes(h) == data
  {
    SmallBytes();
    SmallValues();
    hide FourBytes, ByteOf, Value, U32, Has, DepthFits;
    h := Header(U32(data, 0), U32(data, 4), Value(data[8]), Value(data[9]), Value(data[12]));
    DepthIsListed(data[9], data[8]);
    NumberOfByte(data[12]);
    FourBytesOfRead(data, 0);
    FourBytesOfRead(data, 4);
    assert data == [data[0], data[1], data[2], data[3]] + [data[4], data[5], data[6], data[7]]
                 + [data[8], data[9], data[10], data[11], data[12]];
  }

  // ---- Sequences of chunks ----

  lemma KindsDiffer()
    ensures IHDR == [0x49, 0x48, 0x44, 0x52] && IDAT == [0x49, 0x44, 0x41, 0x54] && IEND == [0x49, 0x45, 0x4e, 0x44]
    ensures PLTE == [0x50, 0x4c, 0x54, 0x45]
    ensures IHDR != IDAT && IHDR != IEND && IDAT != IEND && PLTE != IHDR && PLTE != IDAT && PLTE != IEND
    ensures IsFourLetters(IHDR) && IsFourLetters(IDAT) && IsFourLetters(IEND)
  {
    assert IHDR[1] == 0x48 && IDAT[1] == 0x44 && IEND[1] == 0x45 && PLTE[0] == 0x50;
  }

  lemma SmallLetterBit(b: Byte)
    requires IsUpper(b) || IsLower(b)
    ensures b & 0x20 == 0 <==> IsUpper(b)
  {
  }

  /** Any other chunk that the strict grammar admits is one that may be written, and no other. */
  lemma OthersAreOk(c: Chunk)
    ensures OtherOk(c) <==> IsRawPlausible(c) && c.kind != IHDR && c.kind != IDAT && c.kind != IEND
  {
    KindsDiffer();
    if |c.kind| == 4 && IsFourLetters(c.kind) {
      SmallLetterBit(c.kind[0]);
      assert IsLetter(c.kind[0]);
    }
    hide IHDR, IDAT, IEND, PLTE;
  }

  /** Where each chunk of an image comes from. */
  lemma ChunkAt(image: Image, i: nat)
    requires ImageOk(image) && i < |ChunksOf(image)|
    ensures var cs, b, m, a := ChunksOf(image), |image.before|, |image.idats|, |image.after|;
            && |cs| == b + m + a + 2
            && (i == 0 ==> cs[i] == Chunk(IHDR, HeaderBytes(image.header)))
            && (1 <= i < 1 + b ==> cs[i] == image.before[i - 1] && OtherOk(cs[i]))
            && (1 + b <= i < 1 + b + m ==> cs[i].kind == IDAT && |cs[i].data| <= MAX_CHUNK)
            && (1 + b + m <= i < 1 + b + m + a ==> cs[i] == image.after[i - 1 - b - m] && OtherOk(cs[i]))
            && (i == 1 + b + m + a ==> cs[i] == Chunk(IEND, []))
  {
    KindsDiffer();
    hide HeaderOk, OtherOk, HeaderBytes;
  }

  /** What the grammar asks of the `i`-th of `n` chunks, the image data being those from `first` to `last`. */
  ghost predicate ChunkFits(c: Chunk, i: int, n: int, first: int, last: int) {
    && IsRawPlausible(c)
    && (c.kind == IHDR <==> i == 0)
    && (c.kind == IEND <==> i == n - 1)
    && (c.kind == IDAT <==> first <= i <= last)
  }

  lemma ChunksFit(cs: seq<Chunk>, first: int, last: int)
    requires cs != [] && 0 <= first <= last < |cs|
    requires forall i :: 0 <= i < |cs| ==> ChunkFits(cs[i], i, |cs|, first, last)
    ensures StrictlyWellFormed(cs) <==> ValidHeader(cs[0].data) && cs[|cs| - 1].data == []
  {
    hide IsRawPlausible, ValidHeader;
    assert ChunkFits(cs[first], first, |cs|, first, last);
    assert IsRawIdat(cs, first);
    forall i | IsRawIdat(cs, i) ensures first <= i <= last { assert ChunkFits(cs[i], i, |cs|, first, last); }
    forall i | first <= i <= last ensures IsRawIdat(cs, i) { assert ChunkFits(cs[i], i, |cs|, first, last); }
  }

  lemma ImageChunkFits(image: Image, i: nat)
    requires ImageOk(image) && i < |ChunksOf(image)|
    ensures var b, m := |image.before|, |image.idats|;
            ChunkFits(ChunksOf(image)[i], i, b + m + |image.after| + 2, 1 + b, b + m)
  {
    ChunkAt(image, i);
    IdatsAreThere(image);
    var c := ChunksOf(image)[i];
    OthersAreOk(c);
    NamedIsPlausible(c);
    KindsDiffer();
    hide ChunksOf, OtherOk, IsRawPlausible, HeaderBytes, ImageOk;
  }

  lemma ImageIsWellFormed(image: Image)
    requires ImageOk(image)
    ensures AllWritable(ChunksOf(image)) && StrictlyWellFormed(ChunksOf(image))
  {
    var cs, b, m := ChunksOf(image), |image.before|, |image.idats|;
    IdatsAreThere(image);
    ImageHasHeader(image);
    ChunkAt(image, 0);
    ChunkAt(image, |cs| - 1);
    WrittenHeaderIsValid(image.header);
    hide ImageOk, ChunksOf, HeaderOk, OtherOk, HeaderBytes, ValidHeader, ChunkFits, StrictlyWellFormed, Writable;
    forall i | 0 <= i < |cs| ensures ChunkFits(cs[i], i, |cs|, 1 + b, b + m) && Writable(cs[i]) {
      ImageChunkFits(image, i);
      FitIsWritable(cs[i], i, |cs|, 1 + b, b + m);
    }
    ChunksFit(cs, 1 + b, b + m);
  }

  lemma FitIsWritable(c: Chunk, i: int, n: int, first: int, last: int)
    requires ChunkFits(c, i, n, first, last)
    ensures Writable(c)
  {
  }

  lemma IdatsAreThere(image: Image)
    requires ImageOk(image)
    ensures |image.idats| >= 1 && |ChunksOf(image)| == |image.before| + |image.idats| + |image.after| + 2
  {
  }

  lemma ImageHasHeader(image: Image)
    requires ImageOk(image)
    ensures HeaderOk(image.header)
  {
  }

  lemma NamedIsPlausible(c: Chunk)
    ensures (c.kind == IHDR || c.kind == IDAT || c.kind == IEND) && |c.data| <= MAX_CHUNK ==> IsRawPlausible(c)
  {
    KindsDiffer();
  }

  // ---- Every well-formed sequence is an image ----

  lemma {:induction false} FirstIdat(cs: seq<Chunk>, n: nat) returns (first: nat)
    requires n <= |cs| && exists i :: i < n && IsRawIdat(cs, i)
    ensures first < n && IsRawIdat(cs, first) && forall i :: IsRawIdat(cs, i) && i < n ==> first <= i
    decreases n
  {
    if exists i :: i < n - 1 && IsRawIdat(cs, i) {
      first := FirstIdat(cs, n - 1);
    } else {
      first := n - 1;
    }
  }

  lemma {:induction false} LastIdat(cs: seq<Chunk>, n: nat) returns (last: nat)
    requires n <= |cs| && exists i :: i < n && IsRawIdat(cs, i)
    ensures last < n && IsRawIdat(cs, last) && forall i :: IsRawIdat(cs, i) && i < n ==> i <= last
    decreases n
  {
    if IsRawIdat(cs, n - 1) {
      last := n - 1;
    } else {
      last := LastIdat(cs, n - 1);
    }
  }

  lemma WellFormedIsImage(cs: seq<Chunk>) returns (image: Image)
    requires StrictlyWellFormed(cs)
    ensures ImageOk(image) && ChunksOf(image) == cs
  {
    hide *;
    HasEnds(cs);
    var first := FirstIdat(cs, |cs|);
    var last := LastIdat(cs, |cs|);
    IdatsAreInside(cs, first, last);
    var header := ValidHeaderIsWritten(cs[0].data);
    OthersAround(cs, first, last);
    IdatsBetween(cs, first, last);
    image := ImageOfParts(cs, header, first, last);
  }

  lemma HasEnds(cs: seq<Chunk>)
    requires StrictlyWellFormed(cs)
    ensures |cs| > 0 && ValidHeader(cs[0].data) && cs[0].kind == IHDR
    ensures cs[|cs| - 1].kind == IEND && cs[|cs| - 1].data == []
    ensures exists i :: i < |cs| && IsRawIdat(cs, i)
  {
    hide ValidHeader, IsRawPlausible;
    var i :| IsRawIdat(cs, i);
  }

  lemma IdatsAreInside(cs: seq<Chunk>, first: nat, last: nat)
    requires StrictlyWellFormed(cs) && IsRawIdat(cs, first) && IsRawIdat(cs, last)
    requires forall i :: IsRawIdat(cs, i) && i < |cs| ==> first <= i <= last
    ensures 0 < first <= last < |cs| - 1 && forall i :: IsRawIdat(cs, i) ==> first <= i <= last
  {
    KindsDiffer();
    hide ValidHeader, IsRawPlausible;
  }

  lemma ImageOfParts(cs: seq<Chunk>, header: Header, first: nat, last: nat) returns (image: Image)
    requires 0 < first <= last < |cs| - 1 && HeaderOk(header)
    requires cs[0] == Chunk(IHDR, HeaderBytes(header)) && cs[|cs| - 1] == Chunk(IEND, [])
    requires AllOther(cs[1..first]) && AllOther(cs[last + 1..|cs| - 1])
    requires forall i :: first <= i <= last ==> cs[i].kind == IDAT && |cs[i].data| <= 64 * 1024 * 1024
    ensures ImageOk(image) && ChunksOf(image) == cs
  {
    KindsDiffer();
    hide AllOther, HeaderOk, HeaderBytes;
    var n := last + 1 - first;
    var idats := seq(n, j requires 0 <= j < n => cs[first + j].data);
    image := Image(header, cs[1..first], idats, cs[last + 1..|cs| - 1]);
    assert IdatChunks(idats) == cs[first..last + 1];
    SplitAround(cs, first, last);
  }

  lemma SplitAround(cs: seq<Chunk>, first: nat, last: nat)
    requires 0 < first <= last < |cs| - 1
    ensures cs == [cs[0]] + cs[1..first] + cs[first..last + 1] + cs[last + 1..|cs| - 1] + [cs[|cs| - 1]]
  {
  }

  lemma IdatsBetween(cs: seq<Chunk>, first: nat, last: nat)
    requires StrictlyWellFormed(cs) && first <= last && IsRawIdat(cs, first) && IsRawIdat(cs, last)
    ensures last < |cs| && forall i :: first <= i <= last ==> cs[i].kind == IDAT && |cs[i].data| <= 64 * 1024 * 1024
  {
    hide ValidHeader;
    forall i | first <= i <= last ensures IsRawIdat(cs, i) && IsRawPlausible(cs[i]) {
      assert first < i < last ==> IsRawIdat(cs, i);
    }
  }

  lemma OthersAround(cs: seq<Chunk>, first: nat, last: nat)
    requires StrictlyWellFormed(cs) && 0 < first <= last < |cs| - 1
    requires forall i :: IsRawIdat(cs, i) ==> first <= i <= last
    ensures AllOther(cs[1..first]) && AllOther(cs[last + 1..|cs| - 1])
  {
    hide ValidHeader, IsRawPlausible, OtherOk;
    forall i | 0 < i < |cs| - 1 && (i < first || last < i) ensures OtherOk(cs[i]) {
      assert !IsRawIdat(cs, i);
      OthersAreOk(cs[i]);
    }
  }

  // ---- Both directions ----

  lemma WellFormedIsWritable(cs: seq<Chunk>)
    requires StrictlyWellFormed(cs)
    ensures AllWritable(cs)
  {
    hide ValidHeader;
  }

  lemma SignatureIsSpelled()
    ensures SIGNATURE == [0x89] + [0x50, 0x4e, 0x47] + [0x0d, 0x0a, 0x1a, 0x0a] && |SIGNATURE| == 8
  {
  }

  function Written(cs: seq<Chunk>): seq<Byte>
    requires AllWritable(cs)
  {
    [0x89] + [0x50, 0x4e, 0x47] + [0x0d, 0x0a, 0x1a, 0x0a] + AllBytes(cs)
  }

  lemma WrittenFillsAll(cs: seq<Chunk>, bytes: seq<Byte>)
    requires AllWritable(cs)
    ensures bytes == Written(cs) <==> SIGNATURE <= bytes && Fill(cs, bytes, |SIGNATURE|, |bytes|)
  {
    SignatureIsSpelled();
    hide AllBytes, Fill, Has, AllWritable;
    HasItself(bytes, Written(cs));
    HasBoth(bytes, 0, SIGNATURE, AllBytes(cs));
    WrittenFills(cs, bytes, 8, |bytes|);
    HasAtStart(bytes, SIGNATURE);
  }

  lemma HasAtStart(bytes: seq<Byte>, text: seq<Byte>)
    ensures Has(bytes, 0, text) <==> text <= bytes
  {
    if |text| <= |bytes| { assert bytes[0..|text|] == bytes[..|text|]; }
  }

  /** The inputs of the strict grammar are exactly the images that can be written. */
  lemma StrictExactlyWhenWritten(bytes: seq<Byte>)
    ensures IsStrictPng(bytes) <==>
            exists image :: ImageOk(image) && AllWritable(ChunksOf(image)) && bytes == Written(ChunksOf(image))
  {
    hide ImageOk, ChunksOf, Written, StrictlyWellFormed, Fill, AllWritable;
    if IsStrictPng(bytes) {
      var cs :| Fill(cs, bytes, |SIGNATURE|, |bytes|) && StrictlyWellFormed(cs);
      WellFormedIsWritable(cs);
      WrittenFillsAll(cs, bytes);
      var image := WellFormedIsImage(cs);
    }
    forall image | ImageOk(image) && AllWritable(ChunksOf(image)) && bytes == Written(ChunksOf(image))
      ensures IsStrictPng(bytes)
    {
      ImageIsWellFormed(image);
      WrittenFillsAll(ChunksOf(image), bytes);
    }
  }

  // ---- What the validator accepts ----

  /** The same chunk with a type that may have high bits set. */
  ghost predicate IsMarked(c: Chunk, plain: Chunk) {
    && c.data == plain.data && |c.kind| == |plain.kind| == 4
    && forall i :: 0 <= i < 4 ==> c.kind[i] & 0x7f == plain.kind[i]
  }

  ghost predicate AreMarked(cs: seq<Chunk>, plain: seq<Chunk>) {
    |cs| == |plain| && forall i :: 0 <= i < |cs| ==> IsMarked(cs[i], plain[i])
  }

  lemma MarkedNames(c: Chunk, plain: Chunk)
    requires IsMarked(c, plain)
    ensures Name(c) == plain.kind && (IsPlausible(c) <==> IsRawPlausible(plain))
  {
    assert Ascii(c.kind) == plain.kind;
  }

  lemma MarkedIsWellFormed(cs: seq<Chunk>, plain: seq<Chunk>)
    requires AreMarked(cs, plain)
    ensures WellFormed(cs) <==> StrictlyWellFormed(plain)
  {
    hide ValidHeader, IsPlausible, IsRawPlausible, Name;
    forall i | 0 <= i < |cs|
      ensures Name(cs[i]) == plain[i].kind && (IsPlausible(cs[i]) <==> IsRawPlausible(plain[i]))
      ensures cs[i].data == plain[i].data
    {
      MarkedNames(cs[i], plain[i]);
    }
    forall i ensures IsIdat(cs, i) <==> IsRawIdat(plain, i) {
    }
  }

  function Plain(cs: seq<Chunk>): (plain: seq<Chunk>)
    ensures |plain| == |cs| && forall i :: 0 <= i < |cs| ==> plain[i] == Chunk(Name(cs[i]), cs[i].data)
  {
    seq(|cs|, i requires 0 <= i < |cs| => Chunk(Name(cs[i]), cs[i].data))
  }

  lemma PlausibleIsMarked(cs: seq<Chunk>)
    requires WellFormed(cs)
    ensures AreMarked(cs, Plain(cs)) && AllWritable(cs)
  {
    hide ValidHeader;
    forall i | 0 <= i < |cs| ensures IsMarked(cs[i], Plain(cs)[i]) && Writable(cs[i]) { assert IsPlausible(cs[i]); }
  }

  /** The validator accepts exactly the images that can be written, but for the high bits of the type bytes. */
  lemma AcceptedExactlyWhenWritten(bytes: seq<Byte>)
    ensures IsPng(bytes) <==>
            exists image, cs ::
              ImageOk(image) && AreMarked(cs, ChunksOf(image)) && AllWritable(cs) && bytes == Written(cs)
  {
    hide ImageOk, ChunksOf, Written, StrictlyWellFormed, WellFormed, Fill, AllWritable, AreMarked;
    if IsPng(bytes) {
      var cs :| Fill(cs, bytes, |SIGNATURE|, |bytes|) && WellFormed(cs);
      PlausibleIsMarked(cs);
      MarkedIsWellFormed(cs, Plain(cs));
      WrittenFillsAll(cs, bytes);
      var image := WellFormedIsImage(Plain(cs));
    }
    forall image, cs | ImageOk(image) && AreMarked(cs, ChunksOf(image)) && AllWritable(cs) && bytes == Written(cs)
      ensures IsPng(bytes)
    {
      ImageIsWellFormed(image);
      MarkedIsWellFormed(cs, ChunksOf(image));
      WrittenFillsAll(cs, bytes);
    }
  }
}
