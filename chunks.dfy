/** The PNG container as both versions of the decoder read it: the 8-byte
    signature, then records of length (big-endian u32), type (4 bytes), data
    and CRC (big-endian u32), walked from offset 8 by `length + 12`
    (section 3.2 of RFC 2083). A record near the end of the buffer is read the
    way Python slices it: clipped, never an error. */
module Chunks {
  import opened Bytes

  /** Section 3.1 of RFC 2083: 89 50 4E 47 0D 0A 1A 0A. */
  const Signature: seq<byte> := [0x89, 0x50, 0x4E, 0x47, 0x0D, 0x0A, 0x1A, 0x0A]

  /** Offset of the first chunk, right after the signature: `offset = 8`. */
  const FirstChunk: nat := 8

  const IHDR: seq<byte> := [73, 72, 68, 82]
  const IDAT: seq<byte> := [73, 68, 65, 84]
  const IEND: seq<byte> := [73, 69, 78, 68]

  /** The three chunk types the decoder names are distinct. */
  lemma TypesDistinct()
    ensures IHDR != IDAT && IHDR != IEND && IDAT != IEND
  {
    assert IHDR[1] != IDAT[1] && IHDR[1] != IEND[1] && IDAT[1] != IEND[1];
  }

  /** The literal `valid_png` compares against. */
  const SignatureText: string := "89504e470d0a1a0a"

  lemma SignatureTextIsHex()
    ensures HexOf(Signature, false) == SignatureText
  {
    hide HexOf;
    var s := Signature;
    HexOfNil(false);
    assert s[8..] == [];
    HexOfFront(s[7..], false);
    assert s[7..][1..] == s[8..];
    HexOfFront(s[6..], false);
    assert s[6..][1..] == s[7..];
    HexOfFront(s[5..], false);
    assert s[5..][1..] == s[6..];
    HexOfFront(s[4..], false);
    assert s[4..][1..] == s[5..];
    HexOfFront(s[3..], false);
    assert s[3..][1..] == s[4..];
    HexOfFront(s[2..], false);
    assert s[2..][1..] == s[3..];
    HexOfFront(s[1..], false);
    assert s[1..][1..] == s[2..];
    HexOfFront(s, false);
    assert HexOf(s, false) == "89" + "50" + "4e" + "47" + "0d" + "0a" + "1a" + "0a";
  }

  /** The hex-text comparison of `valid_png` holds exactly when the buffer
      starts with the eight signature bytes. */
  lemma SignatureCheck(data: seq<byte>)
    ensures HexOf(PySlice(data, 0, 8), false) == SignatureText
        <==> |data| >= 8 && data[..8] == Signature
  {
    SignatureTextIsHex();
    var head := PySlice(data, 0, 8);
    if HexOf(head, false) == SignatureText {
      HexOfInjective(head, Signature, false);
    }
  }

  /** `valid_png`: the lower-case hex text of `data[0:8]` equals the signature's. */
  predicate HasSignature(data: seq<byte>)
    ensures HasSignature(data) <==> |data| >= 8 && data[..8] == Signature
  {
    SignatureCheck(data);
    HexOf(PySlice(data, 0, 8), false) == SignatureText
  }

  // ---------------------------------------------------------------------
  // Records as read from the buffer

  /** One record as the walk slices it; near the end of the buffer any of
      the four parts may be shorter than the record's length field says. */
  datatype RawChunk = RawChunk(lengthBytes: seq<byte>, ctype: seq<byte>, body: seq<byte>, crcBytes: seq<byte>)
  {
    /** `chunk_length`. */
    function Length(): nat { BigEndian(lengthBytes) }

    /** The stored CRC as `int.from_bytes(..., 'big')` reads it. */
    function StoredCrc(): nat { BigEndian(crcBytes) }

    /** `chunk_length_bin + chunk_type + chunk_data + crc_bin`. */
    function Record(): seq<byte> { lengthBytes + ctype + body + crcBytes }

    /** The record was not clipped by the end of the buffer. */
    predicate Complete() {
      |lengthBytes| == 4 && |ctype| == 4 && |body| == Length() && |crcBytes| == 4
    }
  }

  /** The four slices both walks take at `offset`. */
  function ChunkAt(data: seq<byte>, offset: nat): RawChunk
  {
    var lb := PySlice(data, offset, offset + 4);
    var n := BigEndian(lb);
    RawChunk(lb, PySlice(data, offset + 4, offset + 8),
             PySlice(data, offset + 8, offset + 8 + n),
             PySlice(data, offset + 8 + n, offset + 12 + n))
  }

  /** The record at `offset` is the Python slice of `length + 12` bytes
      there, and it is complete exactly when it fits in the buffer. */
  lemma ChunkAtSpan(data: seq<byte>, offset: nat)
    ensures var c := ChunkAt(data, offset);
      c.Record() == PySlice(data, offset, offset + c.Length() + 12)
      && (offset + c.Length() + 12 <= |data| <==> c.Complete())
  {
    hide ChunkAt, PySlice;
    var lb := PySlice(data, offset, offset + 4);
    var n := BigEndian(lb);
    var t := PySlice(data, offset + 4, offset + 8);
    var d := PySlice(data, offset + 8, offset + 8 + n);
    var cb := PySlice(data, offset + 8 + n, offset + 12 + n);
    ChunkAtParts(data, offset, lb, t, d, cb);
    SliceParts(data, offset, n);
  }

  /** Four adjacent Python slices of widths 4, 4, `n` and 4 make up the
      slice of `n + 12` bytes. */
  lemma SliceParts(data: seq<byte>, offset: nat, n: nat)
    ensures PySlice(data, offset, offset + 4) + PySlice(data, offset + 4, offset + 8)
            + PySlice(data, offset + 8, offset + 8 + n) + PySlice(data, offset + 8 + n, offset + 12 + n)
         == PySlice(data, offset, offset + n + 12)
  {
    hide PySlice;
    PySliceJoin(data, offset, offset + 4, offset + 8);
    PySliceJoin(data, offset, offset + 8, offset + 8 + n);
    PySliceJoin(data, offset, offset + 8 + n, offset + 12 + n);
  }

  function Concat(cs: seq<RawChunk>): (s: seq<byte>)
  {
    if cs == [] then [] else cs[0].Record() + Concat(cs[1..])
  }

  lemma ConcatCons(c: RawChunk, rest: seq<RawChunk>)
    ensures Concat([c] + rest) == c.Record() + Concat(rest)
  {
    HeadTail(c, rest);
  }

  /** The records visited by `while offset < len(data)`, starting at
      `offset` and advancing by `chunk_length + 12`. */
  function Walk(data: seq<byte>, offset: nat): (cs: seq<RawChunk>)
    ensures offset >= |data| <==> cs == []
    decreases |data| - offset
  {
    if offset >= |data| then []
    else
      var c := ChunkAt(data, offset);
      [c] + Walk(data, offset + c.Length() + 12)
  }

  /** One iteration of the walk: the record at `offset`, then the walk from
      just after it. */
  lemma WalkStep(data: seq<byte>, offset: nat)
    requires offset < |data|
    ensures var c := ChunkAt(data, offset);
      Walk(data, offset) == [c] + Walk(data, offset + c.Length() + 12)
      && Walk(data, offset)[0] == c
      && Walk(data, offset)[1..] == Walk(data, offset + c.Length() + 12)
  {
    hide Walk, ChunkAt;
    WalkUnfold(data, offset);
    var c := ChunkAt(data, offset);
    HeadTail(c, Walk(data, offset + c.Length() + 12));
  }

  lemma WalkUnfold(data: seq<byte>, offset: nat)
    requires offset < |data|
    ensures var c := ChunkAt(data, offset);
      Walk(data, offset) == [c] + Walk(data, offset + c.Length() + 12)
  {
  }

  lemma HeadTail(c: RawChunk, rest: seq<RawChunk>)
    ensures ([c] + rest)[0] == c && ([c] + rest)[1..] == rest
  {
  }

  /** Past the end of the buffer the walk visits nothing. */
  lemma WalkPastEnd(data: seq<byte>, offset: nat)
    requires offset >= |data|
    ensures Walk(data, offset) == []
  {
  }

  /** The walked records are exactly the rest of the buffer, in order: no
      byte is skipped or read twice. */
  lemma {:induction false} WalkCovers(data: seq<byte>, offset: nat)
    requires offset <= |data|
    ensures Concat(Walk(data, offset)) == data[offset..]
    decreases |data| - offset
  {
    hide Walk, ChunkAt;
    if offset < |data| {
      var c := ChunkAt(data, offset);
      var next := offset + c.Length() + 12;
      WalkStep(data, offset);
      if next <= |data| {
        WalkCovers(data, next);
      } else {
        WalkPastEnd(data, next);
      }
      RecordThenRest(data, offset);
    } else {
      WalkPastEnd(data, offset);
    }
  }

  /** The record at `offset` followed by what lies after it is the rest of
      the buffer; a clipped record is the whole rest. */
  lemma RecordThenRest(data: seq<byte>, offset: nat)
    requires offset < |data|
    ensures var c := ChunkAt(data, offset);
      var next := offset + c.Length() + 12;
      c.Record() + (if next <= |data| then data[next..] else []) == data[offset..]
  {
    var c := ChunkAt(data, offset);
    var next := offset + c.Length() + 12;
    ChunkAtSpan(data, offset);
    if next <= |data| {
      assert c.Record() == data[offset..next];
      assert data[offset..] == data[offset..next] + data[next..];
    } else {
      assert c.Record() == data[offset..];
    }
  }

  /** `zlib.crc32(chunk_type + chunk_data) == crc`. */
  predicate CrcOk(c: RawChunk, crc32: seq<byte> -> u32) {
    crc32(c.ctype + c.body) == c.StoredCrc()
  }

  // ---------------------------------------------------------------------
  // The IDAT payload each version assembles

  /** png2: the data of every CRC-valid IDAT record, in stream order, over the
      whole buffer; a record with a bad CRC is skipped and the walk goes on. */
  function AllIdat(cs: seq<RawChunk>, crc32: seq<byte> -> u32): seq<byte>
  {
    if cs == [] then []
    else (if CrcOk(cs[0], crc32) && cs[0].ctype == IDAT then cs[0].body else [])
         + AllIdat(cs[1..], crc32)
  }

  predicate IsValidIend(c: RawChunk, crc32: seq<byte> -> u32) {
    CrcOk(c, crc32) && c.ctype == IEND
  }

  predicate HasValidIend(cs: seq<RawChunk>, crc32: seq<byte> -> u32) {
    exists i :: 0 <= i < |cs| && IsValidIend(cs[i], crc32)
  }

  /** png3: as png2, but the walk breaks at the first CRC-valid IEND. */
  function IdatUntilIend(cs: seq<RawChunk>, crc32: seq<byte> -> u32): seq<byte>
  {
    if cs == [] then []
    else if IsValidIend(cs[0], crc32) then []
    else (if CrcOk(cs[0], crc32) && cs[0].ctype == IDAT then cs[0].body else [])
         + IdatUntilIend(cs[1..], crc32)
  }

  /** png2's payload over a record in front of a walk. */
  lemma AllIdatCons(c: RawChunk, rest: seq<RawChunk>, crc32: seq<byte> -> u32)
    ensures AllIdat([c] + rest, crc32)
         == (if CrcOk(c, crc32) && c.ctype == IDAT then c.body else []) + AllIdat(rest, crc32)
  {
    HeadTail(c, rest);
  }

  /** png3's payload over a record in front of a walk: a CRC-valid IEND ends
      it, any other record contributes as in png2. */
  lemma IdatUntilIendCons(c: RawChunk, rest: seq<RawChunk>, crc32: seq<byte> -> u32)
    ensures IdatUntilIend([c] + rest, crc32)
         == if IsValidIend(c, crc32) then []
            else (if CrcOk(c, crc32) && c.ctype == IDAT then c.body else []) + IdatUntilIend(rest, crc32)
  {
    HeadTail(c, rest);
  }

  /** One iteration of png2's walk: the record at `offset` contributes its
      data when it is a CRC-valid IDAT, and the walk goes on after it. */
  lemma AllIdatStep(data: seq<byte>, offset: nat, crc32: seq<byte> -> u32)
    requires offset < |data|
    ensures var c := ChunkAt(data, offset);
      AllIdat(Walk(data, offset), crc32)
      == (if CrcOk(c, crc32) && c.ctype == IDAT then c.body else [])
         + AllIdat(Walk(data, offset + c.Length() + 12), crc32)
  {
    hide Walk, ChunkAt, AllIdat;
    WalkStep(data, offset);
    var c := ChunkAt(data, offset);
    AllIdatCons(c, Walk(data, offset + c.Length() + 12), crc32);
  }

  /** One iteration of png3's walk: a CRC-valid IEND ends it, any other
      record contributes as in png2 and the walk goes on after it. */
  lemma IdatUntilIendStep(data: seq<byte>, offset: nat, crc32: seq<byte> -> u32)
    requires offset < |data|
    ensures var c := ChunkAt(data, offset);
      IdatUntilIend(Walk(data, offset), crc32)
      == if IsValidIend(c, crc32) then []
         else (if CrcOk(c, crc32) && c.ctype == IDAT then c.body else [])
              + IdatUntilIend(Walk(data, offset + c.Length() + 12), crc32)
  {
    hide Walk, ChunkAt, IdatUntilIend;
    WalkStep(data, offset);
    var c := ChunkAt(data, offset);
    IdatUntilIendCons(c, Walk(data, offset + c.Length() + 12), crc32);
  }

  /** The four slices both loops take at `offset`, under the names the
      loops give them. */
  predicate SlicesAt(data: seq<byte>, offset: nat, n: nat, t: seq<byte>, d: seq<byte>, crc: nat) {
    && n == BigEndian(PySlice(data, offset, offset + 4))
    && t == PySlice(data, offset + 4, offset + 8)
    && d == PySlice(data, offset + 8, offset + 8 + n)
    && crc == BigEndian(PySlice(data, offset + 8 + n, offset + 12 + n))
  }

  lemma ChunkAtSlices(data: seq<byte>, offset: nat, n: nat, t: seq<byte>, d: seq<byte>, crc: nat,
                      crc32: seq<byte> -> u32)
    requires SlicesAt(data, offset, n, t, d, crc)
    ensures ChunkAt(data, offset).Length() == n
    ensures ChunkAt(data, offset).ctype == t && ChunkAt(data, offset).body == d
    ensures CrcOk(ChunkAt(data, offset), crc32) <==> crc32(t + d) == crc
  {
  }

  /** The record at `offset`, part by part, as `save_rgb` slices it. */
  lemma ChunkAtParts(data: seq<byte>, offset: nat, lb: seq<byte>, t: seq<byte>, d: seq<byte>, cb: seq<byte>)
    requires lb == PySlice(data, offset, offset + 4) && t == PySlice(data, offset + 4, offset + 8)
    requires d == PySlice(data, offset + 8, offset + 8 + BigEndian(lb))
    requires cb == PySlice(data, offset + 8 + BigEndian(lb), offset + 12 + BigEndian(lb))
    ensures ChunkAt(data, offset) == RawChunk(lb, t, d, cb)
  {
  }

  /** `save_rgb`'s walk over a record in front of a walk. */
  lemma KeptFromCons(c: RawChunk, rest: seq<RawChunk>, t: seq<byte>, kept: seq<byte>)
    ensures KeptFrom([c] + rest, t, kept) == KeptFrom(rest, t, if c.ctype == t then c.Record() else kept)
  {
    HeadTail(c, rest);
  }

  /** One iteration of `save_rgb`'s walk over the slices `lb`, `ct`, `d`,
      `cb` it takes at `offset`: a record of type `t` replaces what is kept. */
  lemma KeptStep(data: seq<byte>, offset: nat, t: seq<byte>, kept: seq<byte>,
                 lb: seq<byte>, ct: seq<byte>, d: seq<byte>, cb: seq<byte>)
    requires offset < |data|
    requires lb == PySlice(data, offset, offset + 4) && ct == PySlice(data, offset + 4, offset + 8)
    requires d == PySlice(data, offset + 8, offset + 8 + BigEndian(lb))
    requires cb == PySlice(data, offset + 8 + BigEndian(lb), offset + 12 + BigEndian(lb))
    ensures KeptFrom(Walk(data, offset), t, kept)
         == KeptFrom(Walk(data, offset + BigEndian(lb) + 12), t, if ct == t then lb + ct + d + cb else kept)
  {
    hide Walk, ChunkAt, KeptFrom;
    ChunkAtParts(data, offset, lb, ct, d, cb);
    WalkStep(data, offset);
    KeptFromCons(ChunkAt(data, offset), Walk(data, offset + BigEndian(lb) + 12), t, kept);
  }

  /** Past the end of the buffer nothing replaces what is kept. */
  lemma KeptFromPastEnd(data: seq<byte>, offset: nat, t: seq<byte>, kept: seq<byte>)
    requires offset >= |data|
    ensures KeptFrom(Walk(data, offset), t, kept) == kept
  {
  }

  /** png3's walk step stated on the slices the loop takes at `offset`: a
      CRC-valid IDAT contributes its data and the walk goes on, ... */
  lemma IdatUntilIendAtIdat(data: seq<byte>, offset: nat, crc32: seq<byte> -> u32,
                            n: nat, t: seq<byte>, d: seq<byte>, crc: nat)
    requires offset < |data| && SlicesAt(data, offset, n, t, d, crc)
    requires crc32(t + d) == crc && t == IDAT
    ensures IdatUntilIend(Walk(data, offset), crc32) == d + IdatUntilIend(Walk(data, offset + n + 12), crc32)
  {
    hide Walk, ChunkAt, IdatUntilIend, SlicesAt;
    ChunkAtSlices(data, offset, n, t, d, crc, crc32);
    IdatUntilIendStep(data, offset, crc32);
    TypesDistinct();
  }

  /** ... a CRC-valid IEND ends the walk, ... */
  lemma IdatUntilIendAtIend(data: seq<byte>, offset: nat, crc32: seq<byte> -> u32,
                            n: nat, t: seq<byte>, d: seq<byte>, crc: nat)
    requires offset < |data| && SlicesAt(data, offset, n, t, d, crc)
    requires crc32(t + d) == crc && t == IEND
    ensures IdatUntilIend(Walk(data, offset), crc32) == []
  {
    hide Walk, ChunkAt, IdatUntilIend, SlicesAt;
    ChunkAtSlices(data, offset, n, t, d, crc, crc32);
    IdatUntilIendStep(data, offset, crc32);
  }

  /** ... and past the end of the buffer there is nothing. */
  lemma IdatUntilIendPastEnd(data: seq<byte>, offset: nat, crc32: seq<byte> -> u32)
    requires offset >= |data|
    ensures IdatUntilIend(Walk(data, offset), crc32) == []
  {
  }

  /** ... and any other record is passed over. */
  lemma IdatUntilIendAtOther(data: seq<byte>, offset: nat, crc32: seq<byte> -> u32,
                             n: nat, t: seq<byte>, d: seq<byte>, crc: nat)
    requires offset < |data| && SlicesAt(data, offset, n, t, d, crc)
    requires !(crc32(t + d) == crc && (t == IDAT || t == IEND))
    ensures IdatUntilIend(Walk(data, offset), crc32) == IdatUntilIend(Walk(data, offset + n + 12), crc32)
  {
    hide Walk, ChunkAt, IdatUntilIend, SlicesAt;
    ChunkAtSlices(data, offset, n, t, d, crc, crc32);
    IdatUntilIendStep(data, offset, crc32);
  }

  /** png2's walk step on the same slices: a CRC-valid IDAT contributes its
      data, ... */
  lemma AllIdatAtIdat(data: seq<byte>, offset: nat, crc32: seq<byte> -> u32,
                      n: nat, t: seq<byte>, d: seq<byte>, crc: nat)
    requires offset < |data| && SlicesAt(data, offset, n, t, d, crc)
    requires crc32(t + d) == crc && t == IDAT
    ensures AllIdat(Walk(data, offset), crc32) == d + AllIdat(Walk(data, offset + n + 12), crc32)
  {
    hide Walk, ChunkAt, AllIdat, SlicesAt;
    ChunkAtSlices(data, offset, n, t, d, crc, crc32);
    AllIdatStep(data, offset, crc32);
  }

  /** ... and any other record, IEND included, is passed over. */
  lemma AllIdatAtOther(data: seq<byte>, offset: nat, crc32: seq<byte> -> u32,
                       n: nat, t: seq<byte>, d: seq<byte>, crc: nat)
    requires offset < |data| && SlicesAt(data, offset, n, t, d, crc)
    requires !(crc32(t + d) == crc && t == IDAT)
    ensures AllIdat(Walk(data, offset), crc32) == AllIdat(Walk(data, offset + n + 12), crc32)
  {
    hide Walk, ChunkAt, AllIdat, SlicesAt;
    ChunkAtSlices(data, offset, n, t, d, crc, crc32);
    AllIdatStep(data, offset, crc32);
  }

  /** Past the end of the buffer png2's walk collects nothing. */
  lemma AllIdatPastEnd(data: seq<byte>, offset: nat, crc32: seq<byte> -> u32)
    requires offset >= |data|
    ensures AllIdat(Walk(data, offset), crc32) == []
  {
  }

  lemma {:induction false} AllIdatAppend(a: seq<RawChunk>, b: seq<RawChunk>, crc32: seq<byte> -> u32)
    ensures AllIdat(a + b, crc32) == AllIdat(a, crc32) + AllIdat(b, crc32)
  {
    if a == [] {
      assert a + b == b;
    } else {
      assert (a + b)[1..] == a[1..] + b;
      AllIdatAppend(a[1..], b, crc32);
    }
  }

  /** A record whose CRC does not match contributes nothing and does not
      stop the walk: what comes after it still counts. */
  lemma CorruptChunkSkipped(a: seq<RawChunk>, c: RawChunk, b: seq<RawChunk>, crc32: seq<byte> -> u32)
    requires !CrcOk(c, crc32)
    ensures AllIdat(a + [c] + b, crc32) == AllIdat(a, crc32) + AllIdat(b, crc32)
  {
    hide AllIdat;
    AllIdatAppend(a + [c], b, crc32);
    AllIdatAppend(a, [c], crc32);
    AllIdatCons(c, [], crc32);
    assert [c] + [] == [c];
    AllIdatNil(crc32);
  }

  lemma AllIdatNil(crc32: seq<byte> -> u32)
    ensures AllIdat([], crc32) == []
  {
  }

  /** png3's walk over `a + b`: it finishes inside `a` when `a` holds a
      CRC-valid IEND and otherwise continues into `b` exactly as png2 would
      have walked `a` (so a corrupted IEND does not stop it). */
  lemma {:induction false} IdatUntilIendAppend(a: seq<RawChunk>, b: seq<RawChunk>, crc32: seq<byte> -> u32)
    ensures IdatUntilIend(a + b, crc32)
         == if HasValidIend(a, crc32) then IdatUntilIend(a, crc32)
            else AllIdat(a, crc32) + IdatUntilIend(b, crc32)
  {
    hide IdatUntilIend, AllIdat;
    if a == [] {
      assert a + b == b;
      AllIdatNil(crc32);
    } else {
      var h, t := a[0], a[1..];
      assert a == [h] + t;
      assert a + b == [h] + (t + b);
      IdatUntilIendAppend(t, b, crc32);
      IdatUntilIendCons(h, t + b, crc32);
      IdatUntilIendCons(h, t, crc32);
      AllIdatCons(h, t, crc32);
      HasValidIendCons(h, t, crc32);
    }
  }

  lemma HasValidIendCons(c: RawChunk, cs: seq<RawChunk>, crc32: seq<byte> -> u32)
    ensures HasValidIend([c] + cs, crc32) <==> IsValidIend(c, crc32) || HasValidIend(cs, crc32)
  {
    var ds := [c] + cs;
    if HasValidIend(cs, crc32) {
      var i :| 0 <= i < |cs| && IsValidIend(cs[i], crc32);
      assert ds[i + 1] == cs[i];
    }
    if HasValidIend(ds, crc32) && !IsValidIend(c, crc32) {
      var i :| 0 <= i < |ds| && IsValidIend(ds[i], crc32);
      assert cs[i - 1] == ds[i];
    }
    if IsValidIend(c, crc32) {
      assert ds[0] == c;
    }
  }

  /** png3's payload is always a prefix of png2's over the same records, and
      the two agree when no CRC-valid IEND is present. */
  lemma {:induction false} IdatUntilIendIsPrefix(cs: seq<RawChunk>, crc32: seq<byte> -> u32)
    ensures IdatUntilIend(cs, crc32) <= AllIdat(cs, crc32)
    ensures !HasValidIend(cs, crc32) ==> IdatUntilIend(cs, crc32) == AllIdat(cs, crc32)
  {
    if cs != [] {
      IdatUntilIendIsPrefix(cs[1..], crc32);
      if !IsValidIend(cs[0], crc32) && !HasValidIend(cs, crc32) {
        assert !HasValidIend(cs[1..], crc32);
      }
    }
  }

  /** `chunk_type.decode('ascii')`, run on every record whose CRC does not
      match, succeeds only on bytes below 128. */
  predicate AsciiType(c: RawChunk) {
    forall k :: 0 <= k < |c.ctype| ==> c.ctype[k] < 128
  }

  /** png2 decodes the type of every corrupted record it walks. */
  predicate CorruptTypesAscii(cs: seq<RawChunk>, crc32: seq<byte> -> u32) {
    forall i :: 0 <= i < |cs| ==> (CrcOk(cs[i], crc32) || AsciiType(cs[i]))
  }

  /** png3 does the same for the records before the first CRC-valid IEND. */
  predicate CorruptTypesAsciiUntilIend(cs: seq<RawChunk>, crc32: seq<byte> -> u32) {
    cs == [] || IsValidIend(cs[0], crc32)
    || ((CrcOk(cs[0], crc32) || AsciiType(cs[0])) && CorruptTypesAsciiUntilIend(cs[1..], crc32))
  }

  // ---------------------------------------------------------------------
  // Records by type, as `save_rgb` looks them up

  predicate HasType(cs: seq<RawChunk>, t: seq<byte>) {
    exists i :: 0 <= i < |cs| && cs[i].ctype == t
  }

  /** The record of type `t` that a walk keeping only the latest one holds at
      the end: the last record of that type. */
  function LastOfType(cs: seq<RawChunk>, t: seq<byte>): (c: RawChunk)
    requires HasType(cs, t)
    ensures c.ctype == t
    ensures exists i :: 0 <= i < |cs| && cs[i] == c && forall j :: i < j < |cs| ==> cs[j].ctype != t
  {
    if HasType(cs[1..], t) then
      var c := LastOfType(cs[1..], t);
      ghost var i :| 0 <= i < |cs[1..]| && cs[1..][i] == c && forall j :: i < j < |cs[1..]| ==> cs[1..][j].ctype != t;
      assert cs[i + 1] == c && forall j :: i + 1 < j < |cs| ==> cs[j] == cs[1..][j - 1];
      c
    else
      assert forall j :: 0 < j < |cs| ==> cs[j] == cs[1..][j - 1];
      assert cs[0].ctype == t;
      cs[0]
  }

  /** The walk of `save_rgb` for one type `t`: starting from `kept`, every
      record of type `t` replaces what is kept. */
  function KeptFrom(cs: seq<RawChunk>, t: seq<byte>, kept: seq<byte>): seq<byte>
  {
    if cs == [] then kept
    else KeptFrom(cs[1..], t, if cs[0].ctype == t then cs[0].Record() else kept)
  }

  /** Keeping the latest record of type `t` over a walk ends with the last
      record of that type, or with the starting value when there is none. */
  lemma {:induction false} KeptFromLast(cs: seq<RawChunk>, t: seq<byte>, kept: seq<byte>)
    ensures HasType(cs, t) ==> KeptFrom(cs, t, kept) == LastOfType(cs, t).Record()
    ensures !HasType(cs, t) ==> KeptFrom(cs, t, kept) == kept
    decreases |cs|
  {
    if cs != [] {
      var c, rest := cs[0], cs[1..];
      var k := if c.ctype == t then c.Record() else kept;
      KeptFromLast(rest, t, k);
      assert cs == [c] + rest;
      HasTypePrepend(c, rest, t);
      if HasType(rest, t) {
        LastOfTypePrepend(c, rest, t);
      } else if c.ctype == t {
        LastOfTypePrepend(c, rest, t);
      }
    }
  }

  lemma HasTypeAt(cs: seq<RawChunk>, i: nat, t: seq<byte>)
    requires i < |cs| && cs[i].ctype == t
    ensures HasType(cs, t)
  {
  }

  lemma HasTypePrepend(c: RawChunk, cs: seq<RawChunk>, t: seq<byte>)
    ensures HasType([c] + cs, t) <==> c.ctype == t || HasType(cs, t)
  {
    var ds := [c] + cs;
    if HasType(cs, t) {
      var i :| 0 <= i < |cs| && cs[i].ctype == t;
      assert ds[i + 1] == cs[i];
    }
    if HasType(ds, t) && c.ctype != t {
      var i :| 0 <= i < |ds| && ds[i].ctype == t;
      assert cs[i - 1] == ds[i];
    }
    if c.ctype == t {
      assert ds[0] == c;
    }
  }

  /** The last record of type `t` lies in `cs` when `cs` has one, else it is
      the record in front. */
  lemma LastOfTypePrepend(c: RawChunk, cs: seq<RawChunk>, t: seq<byte>)
    requires HasType(cs, t) || c.ctype == t
    ensures HasType([c] + cs, t)
    ensures LastOfType([c] + cs, t) == if HasType(cs, t) then LastOfType(cs, t) else c
  {
    HasTypePrepend(c, cs, t);
    HeadTail(c, cs);
  }

  // ---------------------------------------------------------------------
  // Well-formed streams

  /** A chunk as a value (section 3.2 of RFC 2083). */
  datatype Chunk = Chunk(ctype: seq<byte>, body: seq<byte>, crc: u32)

  predicate WellFormed(c: Chunk) {
    |c.ctype| == 4 && |c.body| < 0x1_0000_0000
  }

  /** The record of a chunk: length, type, data, CRC. */
  function Serialize(c: Chunk): (s: seq<byte>)
    requires WellFormed(c)
    ensures |s| == |c.body| + 12
  {
    U32BE(|c.body|) + c.ctype + c.body + U32BE(c.crc)
  }

  function SerializeAll(cs: seq<Chunk>): seq<byte>
    requires forall i :: 0 <= i < |cs| ==> WellFormed(cs[i])
  {
    if cs == [] then [] else Serialize(cs[0]) + SerializeAll(cs[1..])
  }

  /** The record the walk reads back for a serialized chunk. */
  function Parsed(c: Chunk): RawChunk
    requires WellFormed(c)
  {
    RawChunk(U32BE(|c.body|), c.ctype, c.body, U32BE(c.crc))
  }

  function ParsedAll(cs: seq<Chunk>): (rs: seq<RawChunk>)
    requires forall i :: 0 <= i < |cs| ==> WellFormed(cs[i])
    ensures |rs| == |cs|
  {
    if cs == [] then [] else [Parsed(cs[0])] + ParsedAll(cs[1..])
  }

  /** A complete record is read back exactly, and the walk continues right
      after it. */
  lemma ChunkAtRecord(prefix: seq<byte>, r: RawChunk, rest: seq<byte>)
    requires r.Complete()
    ensures ChunkAt(prefix + r.Record() + rest, |prefix|) == r
    ensures r.Length() + 12 == |r.Record()|
  {
    var data := prefix + r.Record() + rest;
    var p := |prefix|;
    var n := r.Length();
    assert data[p..p + 4] == r.lengthBytes;
    assert data[p + 4..p + 8] == r.ctype;
    assert data[p + 8..p + 8 + n] == r.body;
    assert data[p + 8 + n..p + 12 + n] == r.crcBytes;
  }

  /** A complete record in front of a walk: the walk reads it, then goes on
      right after it. */
  lemma WalkPastRecord(prefix: seq<byte>, r: RawChunk, rest: seq<byte>, tail: seq<RawChunk>)
    requires r.Complete()
    requires Walk((prefix + r.Record()) + rest, |prefix + r.Record()|) == tail
    ensures Walk(prefix + (r.Record() + rest), |prefix|) == [r] + tail
  {
    hide Walk, ChunkAt;
    var data := prefix + (r.Record() + rest);
    assert data == prefix + r.Record() + rest;
    ChunkAtRecord(prefix, r, rest);
    WalkStep(data, |prefix|);
  }

  /** Walking a buffer made of complete records recovers those records. */
  lemma {:induction false} WalkRecords(prefix: seq<byte>, rs: seq<RawChunk>)
    requires forall i :: 0 <= i < |rs| ==> rs[i].Complete()
    ensures Walk(prefix + Concat(rs), |prefix|) == rs
    decreases |rs|
  {
    hide Walk, ChunkAt;
    if rs == [] {
      WalkPastEnd(prefix + Concat(rs), |prefix|);
      assert prefix + Concat(rs) == prefix;
    } else {
      var r, rest := rs[0], Concat(rs[1..]);
      assert Concat(rs) == r.Record() + rest;
      WalkRecords(prefix + r.Record(), rs[1..]);
      WalkPastRecord(prefix, r, rest, rs[1..]);
      assert rs == [r] + rs[1..];
    }
  }

  lemma ParsedRecord(c: Chunk)
    requires WellFormed(c)
    ensures Parsed(c).Complete() && Parsed(c).Record() == Serialize(c)
  {
    BigEndianOfU32(|c.body|);
  }

  lemma {:induction false} ConcatParsed(cs: seq<Chunk>)
    requires forall i :: 0 <= i < |cs| ==> WellFormed(cs[i])
    ensures Concat(ParsedAll(cs)) == SerializeAll(cs)
    ensures forall i :: 0 <= i < |cs| ==> ParsedAll(cs)[i] == Parsed(cs[i])
  {
    if cs != [] {
      ParsedRecord(cs[0]);
      ConcatParsed(cs[1..]);
      var ps := ParsedAll(cs);
      assert ps[1..] == ParsedAll(cs[1..]);
      forall i | 1 <= i < |cs| ensures ps[i] == Parsed(cs[i]) {
        assert ps[i] == ps[1..][i - 1];
      }
    }
  }

  /** Round trip: the walk reads a serialized chunk sequence back chunk by
      chunk, whatever the 8 bytes in front of it. */
  lemma WalkSerialized(head: seq<byte>, cs: seq<Chunk>)
    requires |head| == 8
    requires forall i :: 0 <= i < |cs| ==> WellFormed(cs[i])
    ensures Walk(head + SerializeAll(cs), 8) == ParsedAll(cs)
  {
    ConcatParsed(cs);
    var ps := ParsedAll(cs);
    forall i | 0 <= i < |ps| ensures ps[i].Complete() {
      ParsedRecord(cs[i]);
    }
    WalkRecords(head, ps);
  }

  /** The IDAT payload of a chunk sequence, stated on chunk values: the data
      of each IDAT chunk whose stored CRC is the CRC-32 of its type and data. */
  function IdatOf(cs: seq<Chunk>, crc32: seq<byte> -> u32): seq<byte>
  {
    if cs == [] then []
    else (if cs[0].ctype == IDAT && crc32(cs[0].ctype + cs[0].body) == cs[0].crc then cs[0].body else [])
         + IdatOf(cs[1..], crc32)
  }

  /** png2's walk over a serialized stream yields exactly `IdatOf`. */
  lemma {:induction false} AllIdatSerialized(cs: seq<Chunk>, crc32: seq<byte> -> u32)
    requires forall i :: 0 <= i < |cs| ==> WellFormed(cs[i])
    ensures AllIdat(ParsedAll(cs), crc32) == IdatOf(cs, crc32)
  {
    if cs != [] {
      BigEndianOfU32(cs[0].crc);
      assert ParsedAll(cs)[1..] == ParsedAll(cs[1..]);
      AllIdatSerialized(cs[1..], crc32);
    }
  }
}
