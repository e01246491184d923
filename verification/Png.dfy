/** The PNG container test, and the grammar it decides (sections 3.1 to 3.4 and 4.1 of RFC 2083). */
module Png {
  import opened ImageBytes
  import opened Crc

  const SIGNATURE: seq<Byte> := [0x89, 0x50, 0x4e, 0x47, 0x0d, 0x0a, 0x1a, 0x0a]
  const IHDR: seq<Byte> := [0x49, 0x48, 0x44, 0x52]
  const PLTE: seq<Byte> := [0x50, 0x4c, 0x54, 0x45]
  const IDAT: seq<Byte> := [0x49, 0x44, 0x41, 0x54]
  const IEND: seq<Byte> := [0x49, 0x45, 0x4e, 0x44]
  const MAX_CHUNK := 64 * 1024 * 1024

  /** Four bytes, most significant first. */
  function U32(bytes: seq<Byte>, i: nat): nat
    requires i + 4 <= |bytes|
  {
    Value(bytes[i]) * 0x1000000 + Value(bytes[i + 1]) * 0x10000 + Value(bytes[i + 2]) * 0x100 + Value(bytes[i + 3])
  }

  // ---- The grammar ----

  datatype Chunk = Chunk(kind: seq<Byte>, data: seq<Byte>)

  function Size(c: Chunk): nat {
    12 + |c.data|
  }

  /** `c` is laid out at `at`: its length, its four type bytes, its data, its checksum. */
  predicate LaidAt(c: Chunk, bytes: seq<Byte>, at: nat) {
    && |c.kind| == 4
    && at + Size(c) <= |bytes|
    && U32(bytes, at) == |c.data|
    && bytes[at + 4..at + 8] == c.kind
    && bytes[at + 8..at + 8 + |c.data|] == c.data
    && U32(bytes, at + 8 + |c.data|) == Crc32(c.kind + c.data)
  }

  /** `cs` fill the bytes from `at` to `end`, one after the other. */
  predicate Fill(cs: seq<Chunk>, bytes: seq<Byte>, at: nat, end: nat)
    decreases |cs|
  {
    if cs == [] then at == end
    else LaidAt(cs[0], bytes, at) && Fill(cs[1..], bytes, at + Size(cs[0]), end)
  }

  /** Text as it is read: every byte loses its high bit. */
  function Ascii(kind: seq<Byte>): (text: seq<Byte>)
    ensures |text| == |kind|
  {
    seq(|kind|, i requires 0 <= i < |kind| => kind[i] & 0x7f)
  }

  function Name(c: Chunk): (name: seq<Byte>) {
    Ascii(c.kind)
  }

  predicate IsLetter(b: Byte) {
    0x41 <= b <= 0x5a || 0x61 <= b <= 0x7a
  }

  predicate IsFourLetters(name: seq<Byte>) {
    |name| == 4 && forall i :: 0 <= i < 4 ==> IsLetter(name[i])
  }

  predicate IsUnknownCritical(name: seq<Byte>)
    requires |name| == 4
  {
    name[0] & 0x20 == 0 && name != IHDR && name != PLTE && name != IDAT && name != IEND
  }

  predicate IsPlausible(c: Chunk) {
    && |c.data| <= MAX_CHUNK
    && IsFourLetters(Name(c))
    && !IsUnknownCritical(Name(c))
  }

  predicate DepthFits(colour: Byte, depth: Byte) {
    match colour
    case 0 => depth == 1 || depth == 2 || depth == 4 || depth == 8 || depth == 16
    case 2 => depth == 8 || depth == 16
    case 3 => depth == 1 || depth == 2 || depth == 4 || depth == 8
    case 4 => depth == 8 || depth == 16
    case 6 => depth == 8 || depth == 16
    case _ => false
  }

  predicate ValidHeader(header: seq<Byte>) {
    && |header| == 13
    && SafeDimensions(U32(header, 0), U32(header, 4))
    && DepthFits(header[9], header[8])
    && header[10] == 0 && header[11] == 0
    && (header[12] == 0 || header[12] == 1)
  }

  predicate IsIdat(cs: seq<Chunk>, i: int) {
    0 <= i < |cs| && Name(cs[i]) == IDAT
  }

  ghost predicate IdatsAreTogether(cs: seq<Chunk>) {
    forall i, j, k :: i < j < k && IsIdat(cs, i) && IsIdat(cs, k) ==> IsIdat(cs, j)
  }

  ghost predicate WellFormed(cs: seq<Chunk>) {
    && |cs| > 0
    && (forall i :: 0 <= i < |cs| ==> IsPlausible(cs[i]))
    && (forall i :: 0 <= i < |cs| ==> (Name(cs[i]) == IHDR <==> i == 0))
    && ValidHeader(cs[0].data)
    && (forall i :: 0 <= i < |cs| ==> (Name(cs[i]) == IEND <==> i == |cs| - 1))
    && cs[|cs| - 1].data == []
    && (exists i :: IsIdat(cs, i))
    && IdatsAreTogether(cs)
  }

  /** The signature, then well-formed chunks that use every byte. */
  ghost predicate IsPng(bytes: seq<Byte>) {
    && SIGNATURE <= bytes
    && exists cs :: Fill(cs, bytes, |SIGNATURE|, |bytes|) && WellFormed(cs)
  }

  // ---- Chunks are forced by the bytes ----

  lemma LaidAtIsUnique(c: Chunk, d: Chunk, bytes: seq<Byte>, at: nat)
    requires LaidAt(c, bytes, at) && LaidAt(d, bytes, at)
    ensures c == d
  {
    hide U32, Crc32;
    assert |c.data| == |d.data|;
  }

  lemma {:induction false} FillMovesForward(cs: seq<Chunk>, bytes: seq<Byte>, at: nat, end: nat)
    requires Fill(cs, bytes, at, end)
    ensures at <= end && (cs != [] ==> at < end)
    decreases |cs|
  {
    hide LaidAt;
    if cs != [] { FillMovesForward(cs[1..], bytes, at + Size(cs[0]), end); }
  }

  /** What has been read so far is a proper start of anything that fills the rest. */
  lemma {:induction false} ReadingIsForced(seen: seq<Chunk>, cs: seq<Chunk>, bytes: seq<Byte>, at: nat, mid: nat,
      end: nat)
    requires Fill(seen, bytes, at, mid) && Fill(cs, bytes, at, end) && mid < end
    ensures |seen| < |cs| && cs[..|seen|] == seen && LaidAt(cs[|seen|], bytes, mid)
    decreases |seen|
  {
    hide LaidAt;
    if seen == [] {
      assert cs[..0] == [];
    } else {
      FillMovesForward(seen, bytes, at, mid);
      LaidAtIsUnique(seen[0], cs[0], bytes, at);
      ReadingIsForced(seen[1..], cs[1..], bytes, at + Size(seen[0]), mid, end);
      assert cs[..|seen|] == [cs[0]] + cs[1..][..|seen| - 1];
    }
  }

  lemma {:induction false} FillExtends(seen: seq<Chunk>, c: Chunk, bytes: seq<Byte>, at: nat, mid: nat)
    requires Fill(seen, bytes, at, mid) && LaidAt(c, bytes, mid)
    ensures Fill(seen + [c], bytes, at, mid + Size(c))
    decreases |seen|
  {
    hide LaidAt;
    if seen == [] {
      assert (seen + [c])[1..] == [];
    } else {
      FillExtends(seen[1..], c, bytes, at + Size(seen[0]), mid);
      assert (seen + [c])[1..] == seen[1..] + [c];
    }
  }

  // ---- Well-formedness, one chunk at a time ----

  ghost predicate HasIdat(seen: seq<Chunk>) {
    exists i :: IsIdat(seen, i)
  }

  ghost predicate IdatsAreOver(seen: seq<Chunk>) {
    exists i :: IsIdat(seen, i) && i + 1 < |seen| && !IsIdat(seen, |seen| - 1)
  }

  /** `c` may follow `seen`, none of which closed the image. */
  ghost predicate MayFollow(c: Chunk, seen: seq<Chunk>) {
    && IsPlausible(c)
    && (Name(c) == IHDR <==> seen == [])
    && (Name(c) == IHDR ==> ValidHeader(c.data))
    && (Name(c) == IDAT ==> !IdatsAreOver(seen))
    && (Name(c) == IEND ==> c.data == [] && HasIdat(seen))
  }

  ghost predicate Open(seen: seq<Chunk>) {
    && (forall i :: 0 <= i < |seen| ==> IsPlausible(seen[i]))
    && (forall i :: 0 <= i < |seen| ==> (Name(seen[i]) == IHDR <==> i == 0))
    && (seen != [] ==> ValidHeader(seen[0].data))
    && (forall i :: 0 <= i < |seen| ==> Name(seen[i]) != IEND)
    && IdatsAreTogether(seen)
  }

  lemma {:induction false} NextChunkMayFollow(cs: seq<Chunk>, n: nat)
    requires WellFormed(cs) && n < |cs|
    ensures MayFollow(cs[n], cs[..n])
  {
    hide Name, IsPlausible, ValidHeader;
    var seen := cs[..n];
    assert forall i :: 0 <= i < n ==> IsIdat(seen, i) == IsIdat(cs, i);
    if Name(cs[n]) == IDAT && HasIdat(seen) {
      var i :| IsIdat(seen, i);
      assert IsIdat(cs, i) && IsIdat(cs, n);
      assert IsIdat(seen, |seen| - 1);
    }
    if Name(cs[n]) == IEND {
      var i :| IsIdat(cs, i);
      assert i != n;
      assert IsIdat(seen, i);
    }
  }

  lemma OpenExtends(seen: seq<Chunk>, c: Chunk)
    requires Open(seen) && MayFollow(c, seen) && Name(c) != IEND
    ensures Open(seen + [c])
  {
    hide Name, IsPlausible, ValidHeader;
    var more := seen + [c];
    assert forall i :: 0 <= i < |seen| ==> more[i] == seen[i];
    TogetherExtends(seen, c);
  }

  lemma TogetherExtends(seen: seq<Chunk>, c: Chunk)
    requires IdatsAreTogether(seen) && (Name(c) == IDAT ==> !IdatsAreOver(seen))
    ensures IdatsAreTogether(seen + [c])
  {
    hide Name;
    var more := seen + [c];
    assert forall i :: i < |seen| ==> IsIdat(more, i) == IsIdat(seen, i);
    forall i, j, k | i < j < k && IsIdat(more, i) && IsIdat(more, k) ensures IsIdat(more, j) {
      if k < |seen| {
        assert IsIdat(seen, i) && IsIdat(seen, k);
        assert IsIdat(seen, j);
      } else {
        assert IsIdat(seen, i) && Name(c) == IDAT;
        assert IsIdat(seen, |seen| - 1);
        if j < |seen| - 1 { assert IsIdat(seen, j); }
      }
    }
  }

  lemma ClosingIsWellFormed(seen: seq<Chunk>, c: Chunk)
    requires Open(seen) && MayFollow(c, seen) && Name(c) == IEND
    ensures WellFormed(seen + [c])
  {
    hide Name, IsPlausible, ValidHeader;
    var more := seen + [c];
    assert forall i :: 0 <= i < |seen| ==> more[i] == seen[i];
    var i :| IsIdat(seen, i);
    assert IsIdat(more, i);
    assert IEND != IDAT && IEND != IHDR by { assert IEND[1] != IDAT[1] && IEND[1] != IHDR[1]; }
    TogetherExtends(seen, c);
  }

  lemma IdatFlagsExtend(seen: seq<Chunk>, c: Chunk)
    requires IdatsAreTogether(seen) && (Name(c) == IDAT ==> !IdatsAreOver(seen))
    ensures HasIdat(seen + [c]) <==> HasIdat(seen) || Name(c) == IDAT
    ensures IdatsAreOver(seen + [c]) <==> HasIdat(seen) && Name(c) != IDAT
  {
    hide Name;
    var more := seen + [c];
    assert forall i :: i < |seen| ==> IsIdat(more, i) == IsIdat(seen, i);
    assert IsIdat(more, |seen|) == (Name(c) == IDAT);
    if HasIdat(seen) {
      var i :| IsIdat(seen, i);
      assert IsIdat(more, i);
    }
  }

  // ---- The validator ----

  function ChunkFrom(bytes: seq<Byte>, at: nat): (c: Chunk)
    requires at + 12 <= |bytes| && at + 12 + U32(bytes, at) <= |bytes|
  {
    Chunk(bytes[at + 4..at + 8], bytes[at + 8..at + 8 + U32(bytes, at)])
  }

  /** The bytes at `at` hold a chunk that may follow `seen`. */
  ghost predicate NextIsGood(bytes: seq<Byte>, at: nat, seen: seq<Chunk>) {
    && at + 12 <= |bytes|
    && at + 12 + U32(bytes, at) <= |bytes|
    && var c := ChunkFrom(bytes, at); LaidAt(c, bytes, at) && MayFollow(c, seen)
  }

  lemma GoodChunkIsNeeded(bytes: seq<Byte>, at: nat, seen: seq<Chunk>)
    requires Fill(seen, bytes, |SIGNATURE|, at) && at < |bytes| && IsPng(bytes)
    ensures NextIsGood(bytes, at, seen)
  {
    hide Fill, MayFollow, WellFormed;
    var cs :| Fill(cs, bytes, |SIGNATURE|, |bytes|) && WellFormed(cs);
    ReadingIsForced(seen, cs, bytes, |SIGNATURE|, at, |bytes|);
    NextChunkMayFollow(cs, |seen|);
    assert ChunkFrom(bytes, at) == cs[|seen|];
  }

  lemma OnlyTheLastCloses(cs: seq<Chunk>, i: nat)
    requires WellFormed(cs) && i < |cs|
    ensures Name(cs[i]) == IEND <==> i == |cs| - 1
  {
  }

  /** Chunks that close the image reach its last byte. */
  lemma ClosingReachesTheEnd(bytes: seq<Byte>, at: nat, cs: seq<Chunk>)
    requires Fill(cs, bytes, |SIGNATURE|, at) && at <= |bytes| && WellFormed(cs) && IsPng(bytes)
    ensures at == |bytes|
  {
    hide Fill, WellFormed, Name;
    var all :| Fill(all, bytes, |SIGNATURE|, |bytes|) && WellFormed(all);
    WellFormedIsNotEmpty(cs);
    OnlyTheLastCloses(cs, |cs| - 1);
    if at < |bytes| {
      ReadingIsForced(cs, all, bytes, |SIGNATURE|, at, |bytes|);
      assert all[|cs| - 1] == cs[|cs| - 1];
      OnlyTheLastCloses(all, |cs| - 1);
    }
  }

  lemma WellFormedIsNotEmpty(cs: seq<Chunk>)
    requires WellFormed(cs)
    ensures |cs| > 0
  {
  }

  lemma OpenIsNotPng(bytes: seq<Byte>, seen: seq<Chunk>)
    requires Fill(seen, bytes, |SIGNATURE|, |bytes|) && Open(seen)
    ensures !IsPng(bytes)
  {
    hide Fill, WellFormed, Name;
    forall cs | Fill(cs, bytes, |SIGNATURE|, |bytes|) ensures !WellFormed(cs) {
      SameFill(seen, cs, bytes, |SIGNATURE|, |bytes|);
      if WellFormed(seen) {
        WellFormedIsNotEmpty(seen);
        OnlyTheLastCloses(seen, |seen| - 1);
      }
    }
  }

  lemma {:induction false} SameFill(cs: seq<Chunk>, ds: seq<Chunk>, bytes: seq<Byte>, at: nat, end: nat)
    requires Fill(cs, bytes, at, end) && Fill(ds, bytes, at, end)
    ensures cs == ds
    decreases |cs|
  {
    hide LaidAt;
    FillMovesForward(cs, bytes, at, end);
    FillMovesForward(ds, bytes, at, end);
    if cs != [] {
      LaidAtIsUnique(cs[0], ds[0], bytes, at);
      SameFill(cs[1..], ds[1..], bytes, at + Size(cs[0]), end);
      assert cs == [cs[0]] + cs[1..] && ds == [ds[0]] + ds[1..];
    }
  }

  lemma PngIsLongEnough(bytes: seq<Byte>)
    requires IsPng(bytes)
    ensures |bytes| >= |SIGNATURE| + 12 && bytes[..|SIGNATURE|] == SIGNATURE
  {
    hide LaidAt, IsPlausible, ValidHeader, IdatsAreTogether, Name;
    var cs :| Fill(cs, bytes, |SIGNATURE|, |bytes|) && WellFormed(cs);
    FillMovesForward(cs[1..], bytes, |SIGNATURE| + Size(cs[0]), |bytes|);
  }

  /** The tests made on one chunk, in the validator's terms. */
  lemma GoodMeans(bytes: seq<Byte>, at: nat, seen: seq<Chunk>)
    requires at + 12 <= |bytes| && at + 12 + U32(bytes, at) <= |bytes|
    ensures var length := U32(bytes, at);
            var dataEnd := at + 8 + length;
            var kind := Ascii(bytes[at + 4..at + 8]);
            NextIsGood(bytes, at, seen) <==>
              && length <= MAX_CHUNK
              && IsFourLetters(kind)
              && !IsUnknownCritical(kind)
              && U32(bytes, dataEnd) == Crc32(bytes[at + 4..dataEnd])
              && (kind == IHDR <==> seen == [])
              && (kind == IHDR ==> ValidHeader(bytes[at + 8..dataEnd]))
              && (kind == IDAT ==> !IdatsAreOver(seen))
              && (kind == IEND ==> length == 0 && HasIdat(seen))
  {
    hide Ascii, IsFourLetters, IsUnknownCritical, ValidHeader, IdatsAreOver, HasIdat, U32, Crc32;
    var c := ChunkFrom(bytes, at);
    assert bytes[at + 4..at + 8 + U32(bytes, at)] == c.kind + c.data;
  }

  lemma NamesDiffer()
    ensures IHDR != IDAT && IHDR != IEND && IDAT != IEND
  {
    assert IHDR[1] == 0x48 && IDAT[1] == 0x44 && IEND[1] == 0x45;
  }


  lemma NothingSeen(bytes: seq<Byte>)
    ensures Fill([], bytes, |SIGNATURE|, |SIGNATURE|)
    ensures Open([]) && !HasIdat([]) && !IdatsAreOver([])
  {
  }

  /** One good chunk, not yet the last. */
  lemma ChunkIsAdded(bytes: seq<Byte>, at: nat, seen: seq<Chunk>)
    requires Fill(seen, bytes, |SIGNATURE|, at) && Open(seen)
    requires NextIsGood(bytes, at, seen)
    ensures var more := seen + [ChunkFrom(bytes, at)];
            var name := Ascii(bytes[at + 4..at + 8]);
            && Fill(more, bytes, |SIGNATURE|, at + 12 + U32(bytes, at))
            && (name != IEND ==> Open(more))
            && (name == IEND ==> WellFormed(more))
            && (HasIdat(more) <==> HasIdat(seen) || name == IDAT)
            && (IdatsAreOver(more) <==> HasIdat(seen) && name != IDAT)
  {
    hide Fill, LaidAt, HasIdat, IdatsAreOver, WellFormed, Ascii, ValidHeader, IsPlausible, U32;
    var c := ChunkFrom(bytes, at);
    FillExtends(seen, c, bytes, |SIGNATURE|, at);
    if Name(c) == IEND { ClosingIsWellFormed(seen, c); } else { OpenExtends(seen, c); }
    IdatFlagsExtend(seen, c);
  }

  method ValidatePngContainer(bytes: seq<Byte>) returns (ok: bool)
    ensures ok <==> IsPng(bytes)
  {
    hide Fill, LaidAt, Open, HasIdat, IdatsAreOver, WellFormed, MayFollow, NextIsGood, IsFourLetters, IsUnknownCritical,
         ValidHeader, U32, Ascii, Crc32, IsPng;
    if IsPng(bytes) { PngIsLongEnough(bytes); }
    if |bytes| < |SIGNATURE| + 12 || bytes[..|SIGNATURE|] != SIGNATURE { return false; }
    var offset := |SIGNATURE|;
    var sawIhdr, sawIdat, endedIdat, sawIend := false, false, false, false;
    ghost var seen: seq<Chunk> := [];
    NothingSeen(bytes);
    while offset < |bytes|
      invariant |SIGNATURE| <= offset <= |bytes|
      invariant Fill(seen, bytes, |SIGNATURE|, offset)
      invariant !sawIend && Open(seen)
      invariant sawIhdr <==> seen != []
      invariant sawIdat <==> HasIdat(seen)
      invariant endedIdat <==> IdatsAreOver(seen)
      invariant endedIdat ==> sawIdat
    {
      NamesDiffer();
      if IsPng(bytes) { GoodChunkIsNeeded(bytes, offset, seen); }
      GoodHasRoom(bytes, offset, seen);
      if offset + 12 > |bytes| { return false; }
      var length := U32(bytes, offset);
      if length > MAX_CHUNK { return false; }
      var end := offset + 12 + length;
      if end > |bytes| { return false; }
      GoodMeans(bytes, offset, seen);
      var kind := Ascii(bytes[offset + 4..offset + 8]);
      if !IsFourLetters(kind) { return false; }
      var dataStart := offset + 8;
      var dataEnd := dataStart + length;
      var crc := ComputeCrc32(bytes[offset + 4..dataEnd]);
      if U32(bytes, dataEnd) != crc { return false; }
      if !sawIhdr && kind != IHDR { return false; }
      ghost var before := seen;
      if kind == IHDR {
        if sawIhdr || length != 13 { HeaderIsThirteen(bytes[dataStart..dataEnd]); return false; }
        if !ValidHeader(bytes[dataStart..dataEnd]) { return false; }
        sawIhdr := true;
      }
      if kind == IDAT {
        if endedIdat { return false; }
        sawIdat := true;
      } else if sawIdat && kind != IEND {
        endedIdat := true;
      }
      if kind == IEND {
        if length != 0 || !sawIdat { return false; }
        sawIend := true;
      }
      if IsUnknownCritical(kind) { return false; }
      ChunkIsAdded(bytes, offset, seen);
      seen := seen + [ChunkFrom(bytes, offset)];
      offset := end;
      if sawIend { break; }
    }
    if !sawIhdr || !sawIdat || !sawIend || offset != |bytes| {
      if sawIend {
        if IsPng(bytes) { ClosingReachesTheEnd(bytes, offset, seen); }
      } else {
        OpenIsNotPng(bytes, seen);
      }
      return false;
    }
    ClosedIsPng(bytes, seen);
    return true;
  }

  lemma GoodHasRoom(bytes: seq<Byte>, at: nat, seen: seq<Chunk>)
    ensures NextIsGood(bytes, at, seen) ==>
            at + 12 <= |bytes| && at + 12 + U32(bytes, at) <= |bytes| && U32(bytes, at) <= MAX_CHUNK
  {
    hide U32, LaidAt, Name, IsFourLetters, IsUnknownCritical;
  }

  lemma HeaderIsThirteen(header: seq<Byte>)
    ensures ValidHeader(header) ==> |header| == 13
  {
  }

  lemma ClosedIsPng(bytes: seq<Byte>, cs: seq<Chunk>)
    requires SIGNATURE <= bytes && Fill(cs, bytes, |SIGNATURE|, |bytes|) && WellFormed(cs)
    ensures IsPng(bytes)
  {
  }

  // ---- What the checksum buys ----

  lemma {:induction false} FillIsLocal(cs: seq<Chunk>, bytes: seq<Byte>, other: seq<Byte>, at: nat, end: nat)
    requires Fill(cs, bytes, at, end) && end <= |other| && end <= |bytes| && bytes[..end] == other[..end]
    ensures Fill(cs, other, at, end)
    decreases |cs|
  {
    hide LaidAt;
    if cs != [] {
      FillMovesForward(cs[1..], bytes, at + Size(cs[0]), end);
      LaidIsLocal(cs[0], bytes, other, at, end);
      FillIsLocal(cs[1..], bytes, other, at + Size(cs[0]), end);
    }
  }

  lemma LaidIsLocal(c: Chunk, bytes: seq<Byte>, other: seq<Byte>, at: nat, end: nat)
    requires LaidAt(c, bytes, at) && at + Size(c) <= end <= |other| && end <= |bytes| && bytes[..end] == other[..end]
    ensures LaidAt(c, other, at)
  {
    hide Crc32, U32;
    SliceIsLocal(bytes, other, at + 4, at + 8, end);
    SliceIsLocal(bytes, other, at + 8, at + 8 + |c.data|, end);
    U32IsLocal(bytes, other, at, end);
    U32IsLocal(bytes, other, at + 8 + |c.data|, end);
  }

  lemma SliceIsLocal(bytes: seq<Byte>, other: seq<Byte>, from: nat, to: nat, end: nat)
    requires from <= to <= end <= |bytes| && end <= |other| && bytes[..end] == other[..end]
    ensures bytes[from..to] == other[from..to]
  {
    assert bytes[from..to] == bytes[..end][from..to] == other[from..to];
  }

  lemma U32IsLocal(bytes: seq<Byte>, other: seq<Byte>, i: nat, end: nat)
    requires i + 4 <= end <= |bytes| && end <= |other| && bytes[..end] == other[..end]
    ensures U32(bytes, i) == U32(other, i)
  {
    hide Value;
    assert forall k :: 0 <= k < end ==> bytes[k] == bytes[..end][k] == other[k];
  }

  /** `damaged` differs from `bytes`, and only from `lo` to `hi`. */
  ghost predicate DamagedBetween(bytes: seq<Byte>, damaged: seq<Byte>, lo: nat, hi: nat) {
    && lo <= hi <= |bytes| == |damaged|
    && bytes[..lo] == damaged[..lo]
    && bytes[hi..] == damaged[hi..]
    && bytes != damaged
  }

  lemma ChecksumSeesDamage(bytes: seq<Byte>, damaged: seq<Byte>, lo: nat, hi: nat, from: nat, to: nat)
    requires DamagedBetween(bytes, damaged, lo, hi) && hi <= lo + 4 && from <= lo && hi <= to <= |bytes|
    ensures Crc32(bytes[from..to]) != Crc32(damaged[from..to])
  {
    hide Crc32;
    SliceSplits(bytes, from, lo, hi, to);
    SliceSplits(damaged, from, lo, hi, to);
    assert bytes[from..lo] == bytes[..lo][from..] == damaged[from..lo];
    assert bytes[hi..to] == bytes[hi..][..to - hi] == damaged[hi..to];
    assert bytes == bytes[..lo] + bytes[lo..hi] + bytes[hi..];
    assert damaged == damaged[..lo] + damaged[lo..hi] + damaged[hi..];
    BurstsAreDetected(bytes[from..lo], bytes[lo..hi], damaged[lo..hi], bytes[hi..to]);
  }

  lemma SliceSplits(bytes: seq<Byte>, from: nat, lo: nat, hi: nat, to: nat)
    requires from <= lo <= hi <= to <= |bytes|
    ensures bytes[from..to] == bytes[from..lo] + bytes[lo..hi] + bytes[hi..to]
  {
  }

  lemma FieldsOutsideDamage(bytes: seq<Byte>, damaged: seq<Byte>, lo: nat, hi: nat, i: nat)
    requires DamagedBetween(bytes, damaged, lo, hi) && i + 4 <= |bytes| && (i + 4 <= lo || hi <= i)
    ensures U32(bytes, i) == U32(damaged, i)
  {
    assert forall k :: 0 <= k < lo ==> bytes[k] == bytes[..lo][k] == damaged[k];
    assert forall k :: hi <= k < |bytes| ==> bytes[k] == bytes[hi..][k - hi] == damaged[k];
  }

  /** Damage to at most four neighbouring bytes of one chunk's type and data is always noticed. */
  lemma DamageIsRejected(bytes: seq<Byte>, damaged: seq<Byte>, before: seq<Chunk>, c: Chunk, at: nat, lo: nat, hi: nat)
    requires Fill(before, bytes, |SIGNATURE|, at) && LaidAt(c, bytes, at)
    requires DamagedBetween(bytes, damaged, lo, hi) && hi <= lo + 4
    requires at + 4 <= lo && hi <= at + 8 + |c.data|
    ensures !IsPng(damaged)
  {
    hide Fill, LaidAt, NextIsGood, IsPng, U32, Crc32, Ascii, DamagedBetween;
    var dataEnd := at + 8 + |c.data|;
    LaidHasChecksum(c, bytes, at);
    PrefixSurvives(bytes, damaged, lo, hi, at);
    FillIsLocal(before, bytes, damaged, |SIGNATURE|, at);
    FieldsOutsideDamage(bytes, damaged, lo, hi, at);
    FieldsOutsideDamage(bytes, damaged, lo, hi, dataEnd);
    ChecksumSeesDamage(bytes, damaged, lo, hi, at + 4, dataEnd);
    GoodMeans(damaged, at, before);
    if IsPng(damaged) { GoodChunkIsNeeded(damaged, at, before); }
  }

  lemma LaidHasChecksum(c: Chunk, bytes: seq<Byte>, at: nat)
    requires LaidAt(c, bytes, at)
    ensures at + Size(c) <= |bytes| && U32(bytes, at) == |c.data|
    ensures U32(bytes, at + 8 + |c.data|) == Crc32(bytes[at + 4..at + 8 + |c.data|])
  {
    hide U32, Crc32;
    assert bytes[at + 4..at + 8 + |c.data|] == c.kind + c.data;
  }

  lemma PrefixSurvives(bytes: seq<Byte>, damaged: seq<Byte>, lo: nat, hi: nat, at: nat)
    requires DamagedBetween(bytes, damaged, lo, hi) && at <= lo
    ensures at <= |damaged| == |bytes| && bytes[..at] == damaged[..at]
  {
    assert bytes[..at] == bytes[..lo][..at] == damaged[..at];
  }
}
