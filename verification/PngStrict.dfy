/** Where the validator is laxer than section 3.2 of RFC 2083: it reads chunk types without their high bits. */
module PngStrict {
  import opened ImageBytes
  import opened Crc
  import opened Png

  // ---- The grammar on raw type bytes ----

  predicate IsRawIdat(cs: seq<Chunk>, i: int) {
    0 <= i < |cs| && cs[i].kind == IDAT
  }

  ghost predicate RawIdatsAreTogether(cs: seq<Chunk>) {
    forall i, j, k :: i < j < k && IsRawIdat(cs, i) && IsRawIdat(cs, k) ==> IsRawIdat(cs, j)
  }

  predicate IsRawPlausible(c: Chunk) {
    |c.data| <= MAX_CHUNK && IsFourLetters(c.kind) && !IsUnknownCritical(c.kind)
  }

  ghost predicate StrictlyWellFormed(cs: seq<Chunk>) {
    && |cs| > 0
    && (forall i :: 0 <= i < |cs| ==> IsRawPlausible(cs[i]))
    && (forall i :: 0 <= i < |cs| ==> (cs[i].kind == IHDR <==> i == 0))
    && ValidHeader(cs[0].data)
    && (forall i :: 0 <= i < |cs| ==> (cs[i].kind == IEND <==> i == |cs| - 1))
    && cs[|cs| - 1].data == []
    && (exists i :: IsRawIdat(cs, i))
    && RawIdatsAreTogether(cs)
  }

  ghost predicate IsStrictPng(bytes: seq<Byte>) {
    && SIGNATURE <= bytes
    && exists cs :: Fill(cs, bytes, |SIGNATURE|, |bytes|) && StrictlyWellFormed(cs)
  }

  /** No type byte has its high bit set. */
  predicate IsSevenBit(kind: seq<Byte>) {
    forall i :: 0 <= i < |kind| ==> kind[i] < 0x80
  }

  predicate AllSevenBit(cs: seq<Chunk>) {
    forall i :: 0 <= i < |cs| ==> IsSevenBit(cs[i].kind)
  }

  lemma SevenBitByteIsItself(b: Byte)
    ensures b < 0x80 ==> b & 0x7f == b
  {
  }

  lemma SevenBitTextIsItself(kind: seq<Byte>)
    ensures IsSevenBit(kind) ==> Ascii(kind) == kind
  {
    if IsSevenBit(kind) {
      forall i | 0 <= i < |kind| ensures Ascii(kind)[i] == kind[i] { SevenBitByteIsItself(kind[i]); }
    }
  }

  lemma LettersAreSevenBit(kind: seq<Byte>)
    ensures IsFourLetters(kind) ==> IsSevenBit(kind)
  {
  }

  lemma SameOnSevenBits(cs: seq<Chunk>)
    requires AllSevenBit(cs)
    ensures WellFormed(cs) <==> StrictlyWellFormed(cs)
  {
    hide Ascii, IsFourLetters, IsUnknownCritical, ValidHeader, IsSevenBit;
    forall i | 0 <= i < |cs| ensures Name(cs[i]) == cs[i].kind { SevenBitTextIsItself(cs[i].kind); }
    forall i ensures IsIdat(cs, i) == IsRawIdat(cs, i) {
    }
  }

  lemma StrictIsSevenBit(cs: seq<Chunk>)
    requires StrictlyWellFormed(cs)
    ensures AllSevenBit(cs)
  {
    hide IsSevenBit, IsFourLetters, RawIdatsAreTogether;
    forall i | 0 <= i < |cs| ensures IsSevenBit(cs[i].kind) {
      assert IsRawPlausible(cs[i]);
      LettersAreSevenBit(cs[i].kind);
    }
  }

  /** An accepted input is strict if and only if none of its chunks' type bytes has its high bit set. */
  lemma AcceptedIsStrictExactly(bytes: seq<Byte>, cs: seq<Chunk>)
    requires SIGNATURE <= bytes && Fill(cs, bytes, |SIGNATURE|, |bytes|) && WellFormed(cs)
    ensures IsStrictPng(bytes) <==> AllSevenBit(cs)
  {
    hide Fill, WellFormed, StrictlyWellFormed, AllSevenBit;
    if AllSevenBit(cs) { SameOnSevenBits(cs); }
    forall ds | Fill(ds, bytes, |SIGNATURE|, |bytes|) && StrictlyWellFormed(ds) ensures AllSevenBit(cs) {
      SameFill(cs, ds, bytes, |SIGNATURE|, |bytes|);
      StrictIsSevenBit(ds);
    }
  }

  /** Whatever is strict is accepted. */
  lemma StrictIsAccepted(bytes: seq<Byte>)
    requires IsStrictPng(bytes)
    ensures IsPng(bytes)
  {
    hide Fill, WellFormed, StrictlyWellFormed, AllSevenBit;
    var cs :| Fill(cs, bytes, |SIGNATURE|, |bytes|) && StrictlyWellFormed(cs);
    StrictIsSevenBit(cs);
    SameOnSevenBits(cs);
  }

  // ---- An accepted input that is not strict ----

  /** `registers` are what the checksum register holds before and after each byte. */
  predicate Walks(bytes: seq<Byte>, registers: seq<bv32>) {
    && |registers| == |bytes| + 1 && registers[0] == ALL_ONES
    && forall k :: 0 <= k < |bytes| ==> Advances(registers[k], bytes[k], registers[k + 1])
  }

  predicate Advances(c: bv32, b: Byte, d: bv32) {
    EightSteps(Xor(c, Bits(b))) == d
  }

  lemma {:induction false} WalkedRegister(bytes: seq<Byte>, registers: seq<bv32>, k: nat)
    requires Walks(bytes, registers) && k <= |bytes|
    ensures Register(ALL_ONES, bytes[..k]) == registers[k]
    decreases k
  {
    hide EightSteps, Xor, Bits, Register;
    if k == 0 {
      NothingRegistered(bytes);
    } else {
      WalkedRegister(bytes, registers, k - 1);
      assert Advances(registers[k - 1], bytes[k - 1], registers[k]);
      NextRegister(bytes, k - 1, registers[k - 1], registers[k]);
    }
  }

  lemma WalkedChecksum(bytes: seq<Byte>, registers: seq<bv32>)
    requires Walks(bytes, registers)
    ensures Crc32(bytes) == Xor(registers[|bytes|], ALL_ONES) as int
  {
    hide EightSteps, Xor, Bits, Register, Walks;
    WalkedRegister(bytes, registers, |bytes|);
    assert bytes[..|bytes|] == bytes;
  }

  /** One pixel of eight-bit grey. */
  const HEADER: seq<Byte> := [0, 0, 0, 1, 0, 0, 0, 1, 8, 0, 0, 0, 0]

  /** IEND with the high bit of its first byte set. */
  const MARKED: seq<Byte> := [0xc9, 0x45, 0x4e, 0x44]

  const HEADER_REGISTERS: seq<bv32> := [
    0xffffffff, 0x22fde946, 0xe79ad0ee, 0x36e4d026, 0x575e51f5, 0xcd8058c2, 0x75a723c4, 0x9c7ca18a, 0x7af62609,
    0x79a64e82, 0x03cf4442, 0x98d1eff8, 0xc4f99b57, 0xfb10b5fe, 0x5afecfae, 0x31347020, 0x3b5f14b8, 0xc58164aa]
  const DATA_REGISTERS: seq<bv32> := [0xffffffff, 0x22fde946, 0xee2c9cc5, 0xea3b6ba5, 0xca50f9e1]
  const MARKED_REGISTERS: seq<bv32> := [0xffffffff, 0xcf456a66, 0xa2a83418, 0x82aa5cf5, 0xbce42946]

  lemma AdvancesA()
    ensures Advances(0xffffffff, 0x49, 0x22fde946) && Advances(0x22fde946, 0x48, 0xe79ad0ee)
    ensures Advances(0xe79ad0ee, 0x44, 0x36e4d026) && Advances(0x36e4d026, 0x52, 0x575e51f5)
  {
  }

  lemma AdvancesB()
    ensures Advances(0x575e51f5, 0, 0xcd8058c2) && Advances(0xcd8058c2, 0, 0x75a723c4)
    ensures Advances(0x75a723c4, 0, 0x9c7ca18a) && Advances(0x9c7ca18a, 1, 0x7af62609)
  {
  }

  lemma AdvancesC()
    ensures Advances(0x7af62609, 0, 0x79a64e82) && Advances(0x79a64e82, 0, 0x03cf4442)
    ensures Advances(0x03cf4442, 0, 0x98d1eff8) && Advances(0x98d1eff8, 1, 0xc4f99b57)
  {
  }

  lemma AdvancesD()
    ensures Advances(0xc4f99b57, 8, 0xfb10b5fe) && Advances(0xfb10b5fe, 0, 0x5afecfae)
    ensures Advances(0x5afecfae, 0, 0x31347020) && Advances(0x31347020, 0, 0x3b5f14b8)
    ensures Advances(0x3b5f14b8, 0, 0xc58164aa)
  {
  }

  lemma AdvancesE()
    ensures Advances(0x22fde946, 0x44, 0xee2c9cc5) && Advances(0xee2c9cc5, 0x41, 0xea3b6ba5)
    ensures Advances(0xea3b6ba5, 0x54, 0xca50f9e1)
  {
  }

  lemma AdvancesF()
    ensures Advances(0xffffffff, 0xc9, 0xcf456a66) && Advances(0xcf456a66, 0x45, 0xa2a83418)
    ensures Advances(0xa2a83418, 0x4e, 0x82aa5cf5) && Advances(0x82aa5cf5, 0x44, 0xbce42946)
  {
  }

  lemma HeaderChecksum()
    ensures Crc32(IHDR + HEADER) == 0x3a7e9b55
  {
    hide Advances;
    AdvancesA();
    AdvancesB();
    AdvancesC();
    AdvancesD();
    var bytes: seq<Byte> := [0x49, 0x48, 0x44, 0x52, 0, 0, 0, 1, 0, 0, 0, 1, 8, 0, 0, 0, 0];
    assert IHDR + HEADER == bytes;
    assert Walks(bytes, HEADER_REGISTERS);
    WalkedChecksum(bytes, HEADER_REGISTERS);
  }

  lemma DataChecksum()
    ensures Crc32(IDAT + []) == 0x35af061e
  {
    hide Advances;
    AdvancesA();
    AdvancesE();
    assert IDAT + [] == IDAT;
    assert Walks(IDAT, DATA_REGISTERS);
    WalkedChecksum(IDAT, DATA_REGISTERS);
  }

  lemma MarkedChecksum()
    ensures Crc32(MARKED + []) == 0x431bd6b9
  {
    hide Advances;
    AdvancesF();
    assert MARKED + [] == MARKED;
    assert Walks(MARKED, MARKED_REGISTERS);
    WalkedChecksum(MARKED, MARKED_REGISTERS);
  }

  /** The bytes of a chunk, given its length and checksum as four bytes each. */
  function Written(c: Chunk, length: seq<Byte>, crc: seq<Byte>): seq<Byte> {
    length + c.kind + c.data + crc
  }

  lemma WrittenIsLaid(before: seq<Byte>, c: Chunk, length: seq<Byte>, crc: seq<Byte>, after: seq<Byte>)
    requires |c.kind| == |length| == |crc| == 4
    requires U32(length, 0) == |c.data| && U32(crc, 0) == Crc32(c.kind + c.data)
    ensures LaidAt(c, before + Written(c, length, crc) + after, |before|)
  {
    hide Crc32, U32;
    var bytes := before + Written(c, length, crc) + after;
    var at, end := |before|, |before| + 8 + |c.data|;
    assert bytes[at..at + 4] == length && bytes[end..end + 4] == crc;
    assert bytes[at + 4..at + 8] == c.kind && bytes[at + 8..end] == c.data;
    U32OfSlice(bytes, at);
    U32OfSlice(bytes, end);
  }

  lemma U32OfSlice(bytes: seq<Byte>, i: nat)
    requires i + 4 <= |bytes|
    ensures U32(bytes, i) == U32(bytes[i..i + 4], 0)
  {
    hide Value;
  }

  function MarkedChunks(): seq<Chunk> {
    [Chunk(IHDR, HEADER), Chunk(IDAT, []), Chunk(MARKED, [])]
  }

  function HeaderBytes(): seq<Byte> {
    Written(Chunk(IHDR, HEADER), [0, 0, 0, 13], [0x3a, 0x7e, 0x9b, 0x55])
  }

  function DataBytes(): seq<Byte> {
    Written(Chunk(IDAT, []), [0, 0, 0, 0], [0x35, 0xaf, 0x06, 0x1e])
  }

  function MarkedBytes(): seq<Byte> {
    Written(Chunk(MARKED, []), [0, 0, 0, 0], [0x43, 0x1b, 0xd6, 0xb9])
  }

  /** A header, an empty IDAT, and an IEND whose first type byte has its high bit set. */
  function MarkedImage(): seq<Byte> {
    SIGNATURE + HeaderBytes() + DataBytes() + MarkedBytes()
  }

  lemma Checksums()
    ensures U32([0, 0, 0, 13], 0) == 13 && U32([0, 0, 0, 0], 0) == 0
    ensures U32([0x3a, 0x7e, 0x9b, 0x55], 0) == 0x3a7e9b55 && U32([0x35, 0xaf, 0x06, 0x1e], 0) == 0x35af061e
    ensures U32([0x43, 0x1b, 0xd6, 0xb9], 0) == 0x431bd6b9
  {
  }

  lemma MarkedImageIsLaidOut()
    ensures LaidAt(MarkedChunks()[0], MarkedImage(), 8) && LaidAt(MarkedChunks()[1], MarkedImage(), 33)
    ensures LaidAt(MarkedChunks()[2], MarkedImage(), 45) && |MarkedImage()| == 57
  {
    hide Crc32, U32, LaidAt;
    Checksums();
    HeaderChecksum();
    DataChecksum();
    MarkedChecksum();
    var bytes := MarkedImage();
    WrittenIsLaid(SIGNATURE, Chunk(IHDR, HEADER), [0, 0, 0, 13], [0x3a, 0x7e, 0x9b, 0x55], DataBytes() + MarkedBytes());
    assert bytes == SIGNATURE + HeaderBytes() + (DataBytes() + MarkedBytes());
    WrittenIsLaid(SIGNATURE + HeaderBytes(), Chunk(IDAT, []), [0, 0, 0, 0], [0x35, 0xaf, 0x06, 0x1e], MarkedBytes());
    WrittenIsLaid(SIGNATURE + HeaderBytes() + DataBytes(), Chunk(MARKED, []), [0, 0, 0, 0], [0x43, 0x1b, 0xd6, 0xb9],
      []);
    assert bytes == SIGNATURE + HeaderBytes() + DataBytes() + MarkedBytes() + [];
  }

  lemma MarkedImageIsFilled()
    ensures Fill(MarkedChunks(), MarkedImage(), |SIGNATURE|, |MarkedImage()|)
  {
    hide LaidAt, MarkedImage;
    MarkedImageIsLaidOut();
    var cs, bytes := MarkedChunks(), MarkedImage();
    assert cs[1..] == [cs[1], cs[2]] && cs[2..] == [cs[2]] && cs[1..][1..] == cs[2..] && cs[2..][1..] == [];
    assert Fill([], bytes, 57, 57);
    assert Fill(cs[2..], bytes, 45, 57);
    assert Fill(cs[1..], bytes, 33, 57);
  }

  lemma MarkedHeaderIsValid()
    ensures ValidHeader(HEADER)
  {
    assert U32(HEADER, 0) == 1 && U32(HEADER, 4) == 1;
  }

  lemma NamesOfMarked()
    ensures Ascii(IHDR) == IHDR && Ascii(IDAT) == IDAT && Ascii(MARKED) == IEND
    ensures IsFourLetters(IHDR) && IsFourLetters(IDAT) && IsFourLetters(IEND)
  {
    SevenBitTextIsItself(IHDR);
    SevenBitTextIsItself(IDAT);
    assert Ascii(MARKED)[0] == 0x49 && Ascii(MARKED)[1] == 0x45 && Ascii(MARKED)[2] == 0x4e && Ascii(MARKED)[3] == 0x44;
  }

  lemma MarkedChunksAreWellFormed()
    ensures WellFormed(MarkedChunks()) && !AllSevenBit(MarkedChunks())
  {
    hide Ascii, IsFourLetters, ValidHeader;
    NamesOfMarked();
    NamesDiffer();
    MarkedHeaderIsValid();
    var cs := MarkedChunks();
    assert IsIdat(cs, 1) && !IsIdat(cs, 0) && !IsIdat(cs, 2);
    assert forall i :: IsIdat(cs, i) ==> i == 1;
    assert !IsSevenBit(MARKED) by { assert MARKED[0] == 0xc9; }
    assert cs[2].kind == MARKED;
  }

  /** An input that the validator accepts and the standard does not allow. */
  lemma MarkedImageIsAcceptedButNotStrict()
    ensures IsPng(MarkedImage()) && !IsStrictPng(MarkedImage())
  {
    hide Fill, WellFormed, AllSevenBit, IsStrictPng, MarkedChunks;
    MarkedImageIsFilled();
    MarkedChunksAreWellFormed();
    assert SIGNATURE <= MarkedImage();
    AcceptedIsStrictExactly(MarkedImage(), MarkedChunks());
  }
}
