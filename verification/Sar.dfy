/** Segmentation and reassembly of blobs larger than one frame (lib/mesh/sar.cpp):
    fragments with a self-describing header, a reassembler for one transfer at a time,
    the CRC-32 over the whole blob and the request for missing fragments. */
module Sar {
  import opened Basics
  import opened BitOps
  import opened Bytes

  const HDR: nat := 18
  const CHUNK: nat := 160
  const MAX_FILE: nat := 8192
  const MAX_FRAGS: nat := 53
  const NACK_HDR: nat := 8
  const MAGIC: seq<u8> := [0x53, 0x41, 0x52, 0x31]
  const NMAGIC: seq<u8> := [0x53, 0x41, 0x52, 0x4E]

  // ------------------------------------------------------------------ CRC-32

  const POLY: u32 := 0xEDB8_8320
  const ONES: u32 := 0xFFFF_FFFF

  function Xor32(a: u32, b: u32): u32
  {
    assert Pow2(32) == 0x1_0000_0000 by { PowersOfTwo(); }
    XorBound(a, b, 32);
    Xor(a, b)
  }

  lemma PowersOfTwo()
    ensures Pow2(31) == 0x8000_0000 && Pow2(32) == 0x1_0000_0000
  {
    assert Pow2(8) == 0x100;
    assert Pow2(16) == 0x1_0000;
    assert Pow2(24) == 0x100_0000;
  }

  /** One bit of the division by the reflected polynomial. */
  function CrcBit(crc: u32): u32
  {
    if crc % 2 == 1 then Xor32(crc / 2, POLY) else crc / 2
  }

  function CrcBits(crc: u32, n: nat): u32
  {
    if n == 0 then crc else CrcBit(CrcBits(crc, n - 1))
  }

  function CrcByte(crc: u32, b: u8): u32
  {
    CrcBits(Xor32(crc, b), 8)
  }

  function CrcFrom(crc: u32, data: seq<u8>): u32
  {
    if |data| == 0 then crc else CrcByte(CrcFrom(crc, data[..|data| - 1]), data[|data| - 1])
  }

  function Crc32(data: seq<u8>): u32
  {
    ONES - CrcFrom(ONES, data)
  }

  /** The running checksum of a prefix of an array. */
  method CrcOf(data: array<u8>, len: nat) returns (crc: u32)
    requires len <= data.Length
    ensures crc == Crc32(data[..len])
  {
    crc := ONES;
    for i := 0 to len
      invariant crc == CrcFrom(ONES, data[..i])
    {
      assert data[..i + 1][..i] == data[..i];
      ghost var before := crc;
      crc := Xor32(crc, data[i]);
      for k := 0 to 8
        invariant crc == CrcBits(Xor32(before, data[i]), k)
      {
        crc := CrcBit(crc);
      }
    }
    crc := ONES - crc;
  }

  /** The top bit of the polynomial marks the odd case, so each step can be undone. */
  lemma CrcBitInjective(a: u32, b: u32)
    requires CrcBit(a) == CrcBit(b)
    ensures a == b
  {
    PowersOfTwo();
    XorTop(a / 2, POLY, 31);
    XorTop(b / 2, POLY, 31);
    if a % 2 == 1 && b % 2 == 1 {
      XorCommutes(a / 2, POLY);
      XorCommutes(b / 2, POLY);
      XorInjective(POLY, a / 2, b / 2);
    }
  }

  lemma {:induction false} CrcBitsInjective(a: u32, b: u32, n: nat)
    requires CrcBits(a, n) == CrcBits(b, n)
    ensures a == b
  {
    if n > 0 {
      CrcBitInjective(CrcBits(a, n - 1), CrcBits(b, n - 1));
      CrcBitsInjective(a, b, n - 1);
    }
  }

  lemma {:induction false} CrcSuffix(x: u32, y: u32, data: seq<u8>)
    requires CrcFrom(x, data) == CrcFrom(y, data)
    ensures x == y
  {
    if |data| > 0 {
      var d := data[|data| - 1];
      var u, v := CrcFrom(x, data[..|data| - 1]), CrcFrom(y, data[..|data| - 1]);
      CrcBitsInjective(Xor32(u, d), Xor32(v, d), 8);
      XorCommutes(u, d);
      XorCommutes(v, d);
      XorInjective(d, u, v);
      CrcSuffix(x, y, data[..|data| - 1]);
    }
  }

  lemma {:induction false} CrcAppend(x: u32, a: seq<u8>, b: seq<u8>)
    ensures CrcFrom(x, a + b) == CrcFrom(CrcFrom(x, a), b)
  {
    if |b| == 0 {
      assert a + b == a;
    } else {
      assert (a + b)[..|a + b| - 1] == a + b[..|b| - 1];
      CrcAppend(x, a, b[..|b| - 1]);
    }
  }

  /** Damage confined to one byte always changes the checksum. */
  lemma CrcDetectsByte(a: seq<u8>, x: u8, y: u8, b: seq<u8>)
    requires Crc32(a + [x] + b) == Crc32(a + [y] + b)
    ensures x == y
  {
    CrcAppend(ONES, a + [x], b);
    CrcAppend(ONES, a + [y], b);
    CrcSuffix(CrcFrom(ONES, a + [x]), CrcFrom(ONES, a + [y]), b);
    var c := CrcFrom(ONES, a);
    assert (a + [x])[..|a|] == a && (a + [y])[..|a|] == a;
    CrcBitsInjective(Xor32(c, x), Xor32(c, y), 8);
    XorInjective(c, x, y);
  }

  /** The terms of the polynomial of IEEE 802.3 below x^32. */
  ghost predicate Term(e: int)
  {
    e in {26, 23, 22, 16, 12, 11, 10, 8, 7, 5, 4, 2, 1, 0}
  }

  /** The low n digits of x are the coefficients of x^e and down from there. */
  ghost predicate Spells(x: nat, n: nat, e: int)
  {
    n == 0 || (x % 2 == (if Term(e) then 1 else 0) && Spells(x / 2, n - 1, e - 1))
  }

  lemma {:induction false} SpelledAt(x: nat, n: nat, e: int, k: nat)
    requires Spells(x, n, e) && k < n
    ensures Bit(x, k) == if Term(e - k) then 1 else 0
    decreases k
  {
    assert Pow2(0) == 1;
    if k > 0 {
      SpelledAt(x / 2, n - 1, e - 1, k - 1);
      BitHalf(x, k - 1);
    }
  }

  lemma PolyDigits(k: nat)
    requires k < 32
    ensures Bit(POLY, k) == if Term(31 - k) then 1 else 0
  {
    assert Spells(0xED, 8, 7);
    assert Spells(0xEDB8, 16, 15);
    assert Spells(0xED_B883, 24, 23);
    assert Spells(0xEDB8_8320, 32, 31);
    SpelledAt(POLY, 32, 31, k);
  }

  /** One step divides by x in the field of the polynomial: with digit 31 - e as the
      coefficient of x^e, every coefficient moves down by one, and where the constant one
      falls off, x^32 and the polynomial's lower terms come in. */
  lemma CrcBitExact(crc: u32, k: nat)
    requires k < 32
    ensures Bit(CrcBit(crc), k) == (Bit(crc, k + 1) + Bit(crc, 0) * if Term(31 - k) then 1 else 0) % 2
  {
    BitHalf(crc, k);
    PolyDigits(k);
    LowBit(crc);
    XorBits(crc / 2, POLY, k);
    EitherBit(Bit(crc / 2, k), Bit(POLY, k));
  }

  lemma LowBit(x: nat)
    ensures Bit(x, 0) == x % 2
  {
    assert Pow2(0) == 1;
  }

  lemma EitherBit(a: int, b: int)
    requires 0 <= a < 2 && 0 <= b < 2
    ensures (a + b) % 2 == (if a == b then 0 else 1) && a % 2 == a
  {
  }

  /** The register starts with all digits set and is complemented at the end; each byte is
      added to its low digits and then divided eight times. */
  lemma CrcFramed(data: seq<u8>, b: u8)
    ensures Crc32([]) == 0 && Crc32(data) == 0xFFFF_FFFF - CrcFrom(0xFFFF_FFFF, data)
    ensures Xor(CrcFrom(0xFFFF_FFFF, data), b) < 0x1_0000_0000
    ensures CrcFrom(0xFFFF_FFFF, data + [b]) == CrcBits(Xor(CrcFrom(0xFFFF_FFFF, data), b), 8)
  {
    assert Xor(CrcFrom(0xFFFF_FFFF, data), b) == Xor32(CrcFrom(0xFFFF_FFFF, data), b);
    assert (data + [b])[..|data|] == data;
  }

  // ------------------------------------------------------------- fragments

  /** Enough fragments of 160 bytes and no more, for every length 16 bits can count them. */
  lemma FragCountExact(len: u32)
    requires len <= 160 * 0xFFFF
    ensures 160 * (FragCount(len) - 1) < len <= 160 * FragCount(len) || (len == 0 && FragCount(len) == 0)
  {
  }

  function FragCount(len: u32): u16
  {
    (((len + 159) % 0x1_0000_0000) / CHUNK) % 0x1_0000
  }

  function Piece(blob: seq<u8>, idx: nat): seq<u8>
    requires idx * CHUNK <= |blob|
  {
    blob[idx * CHUNK..Min(idx * CHUNK + CHUNK, |blob|)]
  }

  lemma PieceStarts(len: u32, idx: nat)
    requires idx < FragCount(len)
    ensures idx * CHUNK < len
  {
  }

  datatype Frag = Frag(xfer: u16, idx: u16, count: u16, tlen: u32, tcrc: u32, chunk: seq<u8>)

  function Encode(f: Frag): seq<u8>
  {
    MAGIC + LeBytes(f.xfer, 2) + LeBytes(f.idx, 2) + LeBytes(f.count, 2) + LeBytes(f.tlen, 4) + LeBytes(f.tcrc, 4)
        + f.chunk
  }

  predicate IsFragment(p: seq<u8>)
  {
    |p| >= HDR && p[..4] == MAGIC
  }

  function Parse(p: seq<u8>): Frag
    requires |p| >= HDR
  {
    Frag(LeU16(p[4..6]), LeU16(p[6..8]), LeU16(p[8..10]), LeU32(p[10..14]), LeU32(p[14..18]), p[18..])
  }

  lemma ParseEncode(f: Frag)
    ensures IsFragment(Encode(f)) && Parse(Encode(f)) == f
  {
    var p := Encode(f);
    Pow256Small();
    LeBytesVal(f.xfer, 2);
    LeBytesVal(f.idx, 2);
    LeBytesVal(f.count, 2);
    LeBytesVal(f.tlen, 4);
    LeBytesVal(f.tcrc, 4);
    assert p[4..6] == LeBytes(f.xfer, 2) && p[6..8] == LeBytes(f.idx, 2) && p[8..10] == LeBytes(f.count, 2);
    assert p[10..14] == LeBytes(f.tlen, 4) && p[14..18] == LeBytes(f.tcrc, 4) && p[18..] == f.chunk;
  }

  /** The 16- and 32-bit fields of a payload, least significant byte first. */
  ghost function Field16(p: seq<u8>, i: nat): int
    requires i + 2 <= |p|
  {
    p[i] as int + 0x100 * p[i + 1] as int
  }

  ghost function Field32(p: seq<u8>, i: nat): int
    requires i + 4 <= |p|
  {
    p[i] as int + 0x100 * p[i + 1] as int + 0x1_0000 * p[i + 2] as int + 0x100_0000 * p[i + 3] as int
  }

  /** Where the fields of a fragment stand: "SAR1", the transfer at 4, the index at 6, the
      count at 8, the length at 10, the checksum at 14 and the chunk from 18 on. */
  lemma ParseExact(p: seq<u8>)
    requires |p| >= 18
    ensures IsFragment(p) <==> p[0] == 0x53 && p[1] == 0x41 && p[2] == 0x52 && p[3] == 0x31
    ensures Parse(p) == Frag(Field16(p, 4), Field16(p, 6), Field16(p, 8), Field32(p, 10), Field32(p, 14), p[18..])
  {
    TwoBytes(p[4..6]);
    TwoBytes(p[6..8]);
    TwoBytes(p[8..10]);
    FourBytes(p[10..14]);
    FourBytes(p[14..18]);
    assert p[..4] == [p[0], p[1], p[2], p[3]];
  }

  /** Fragment idx of a blob, as the sender describes it. */
  function FragmentOf(blob: seq<u8>, xfer: u16, crc: u32, idx: u16): Frag
    requires |blob| < 0x1_0000_0000 && idx < FragCount(|blob|)
  {
    PieceStarts(|blob|, idx);
    Frag(xfer, idx, FragCount(|blob|), |blob|, crc, Piece(blob, idx))
  }

  /** What is sent: the fields in their places and the idx-th 160 bytes of the blob. */
  lemma FragmentExact(blob: seq<u8>, xfer: u16, crc: u32, idx: u16)
    requires |blob| < 0x1_0000_0000 && idx < FragCount(|blob|)
    ensures var p := Encode(FragmentOf(blob, xfer, crc, idx));
            && 160 * idx < |blob| && |p| == 18 + Min(160, |blob| - 160 * idx)
            && p[0] == 0x53 && p[1] == 0x41 && p[2] == 0x52 && p[3] == 0x31
            && Field16(p, 4) == xfer && Field16(p, 6) == idx && Field16(p, 8) == FragCount(|blob|)
            && Field32(p, 10) == |blob| && Field32(p, 14) == crc
            && forall j :: 18 <= j < |p| ==> p[j] == blob[160 * idx + j - 18]
  {
    var f := FragmentOf(blob, xfer, crc, idx);
    ParseEncode(f);
    ParseExact(Encode(f));
    PieceStarts(|blob|, idx);
    assert Encode(f)[18..] == f.chunk;
    forall j | 18 <= j < |Encode(f)|
      ensures Encode(f)[j] == blob[160 * idx + j - 18]
    {
      assert Encode(f)[j] == Encode(f)[18..][j - 18];
    }
  }

  /** Writes the fragment when the index exists and it fits, and nothing otherwise. */
  method BuildFragment(blob: seq<u8>, xfer: u16, crc: u32, idx: u16, out: array<u8>) returns (n: u16)
    requires |blob| < 0x1_0000_0000 && out.Length < 0x1_0000
    modifies out
    ensures n != 0 <==> idx < FragCount(|blob|) && HDR + Min(CHUNK, |blob| - idx * CHUNK) <= out.Length
    ensures n != 0 ==> n <= out.Length && out[..n] == Encode(FragmentOf(blob, xfer, crc, idx))
    ensures n != 0 ==> out[n..] == old(out[n..])
    ensures n == 0 ==> out[..] == old(out[..])
  {
    var count := FragCount(|blob|);
    if idx >= count { return 0; }
    PieceStarts(|blob|, idx);
    var off := idx * CHUNK;
    var chunk := if |blob| - off < CHUNK then |blob| - off else CHUNK;
    if out.Length < HDR + chunk { return 0; }
    WriteAt(out, 0, MAGIC);
    WriteAt(out, 4, LeBytes(xfer, 2));
    WriteAt(out, 6, LeBytes(idx, 2));
    WriteAt(out, 8, LeBytes(count, 2));
    WriteAt(out, 10, LeBytes(|blob|, 4));
    WriteAt(out, 14, LeBytes(crc, 4));
    assert out[..18] == Encode(FragmentOf(blob, xfer, crc, idx).(chunk := []));
    WriteAt(out, HDR, blob[off..off + chunk]);
    n := HDR + chunk;
    assert Piece(blob, idx) == blob[off..off + chunk];
    assert out[..n] == Encode(FragmentOf(blob, xfer, crc, idx).(chunk := [])) + blob[off..off + chunk];
    RestUnchanged(out[..], old(out[..]), n);
  }

  lemma RestUnchanged(a: seq<u8>, b: seq<u8>, n: nat)
    requires n <= |a| == |b| && forall i :: n <= i < |a| ==> a[i] == b[i]
    ensures a[n..] == b[n..]
  {
  }

  // ------------------------------------------------------------ reassembly

  /** The header checks: the count is what the length implies, the chunk what both do. */
  predicate Consistent(f: Frag)
  {
    && f.count != 0 && f.count <= MAX_FRAGS && f.tlen <= MAX_FILE && f.idx < f.count
    && f.count == FragCount(f.tlen)
    && |f.chunk| == if f.idx == f.count - 1 then f.tlen - f.idx * CHUNK else CHUNK
  }

  datatype State = State(active: bool, xfer: u16, count: u16, tlen: u32, tcrc: u32, gotCount: nat, got: seq<bool>,
                         buf: seq<u8>)

  predicate Contradicts(s: State, f: Frag)
  {
    s.active && f.xfer == s.xfer && (f.count != s.count || f.tlen != s.tlen || f.tcrc != s.tcrc)
  }

  function Begun(s: State, f: Frag): State
  {
    if !s.active || f.xfer != s.xfer
    then State(true, f.xfer, f.count, f.tlen, f.tcrc, 0, seq(MAX_FRAGS, i => false), s.buf)
    else s
  }

  function Write(buf: seq<u8>, off: nat, chunk: seq<u8>): (r: seq<u8>)
    requires off + |chunk| <= |buf|
    ensures |r| == |buf|
  {
    buf[..off] + chunk + buf[off + |chunk|..]
  }

  function Stored(s: State, f: Frag): State
    requires f.idx < |s.got| && f.idx * CHUNK + |f.chunk| <= |s.buf|
  {
    s.(buf := Write(s.buf, f.idx * CHUNK, f.chunk), got := s.got[f.idx := true],
       gotCount := s.gotCount + if s.got[f.idx] then 0 else 1)
  }

  /** A consistent chunk ends inside the declared length, hence inside the buffer: the
      later bounds check of the code never fires. */
  lemma ChunkFits(f: Frag)
    requires Consistent(f)
    ensures f.idx * CHUNK + |f.chunk| <= f.tlen <= MAX_FILE && f.idx < MAX_FRAGS
  {
  }

  /** The state after a payload, and whether it was taken. */
  function Added(s: State, p: seq<u8>): (State, bool)
    requires Valid(s)
  {
    if !IsFragment(p) then (s, false)
    else
      var f := Parse(p);
      if !Consistent(f) || Contradicts(s, f) then (s, false)
      else
        ChunkFits(f);
        (Stored(Begun(s, f), f), true)
  }

  function Flags(got: seq<bool>, n: nat): nat
    requires n <= |got|
  {
    if n == 0 then 0 else Flags(got, n - 1) + if got[n - 1] then 1 else 0
  }

  ghost predicate Valid(s: State)
  {
    |s.got| == MAX_FRAGS && |s.buf| == MAX_FILE && s.tlen <= MAX_FILE && (s.active ==> Counted(s))
  }

  ghost predicate Counted(s: State)
    requires |s.got| == MAX_FRAGS
  {
    && 1 <= s.count <= MAX_FRAGS && s.count == FragCount(s.tlen)
    && s.gotCount == Flags(s.got, s.count) && forall i :: s.count <= i < MAX_FRAGS ==> !s.got[i]
  }

  lemma {:induction false} FlagsSet(got: seq<bool>, i: nat, n: nat)
    requires i < |got| && n <= |got|
    ensures Flags(got[i := true], n) == Flags(got, n) + if i < n && !got[i] then 1 else 0
  {
    if n > 0 { FlagsSet(got, i, n - 1); }
  }

  lemma {:induction false} FlagsClear(got: seq<bool>, n: nat)
    requires n <= |got| && forall i :: 0 <= i < n ==> !got[i]
    ensures Flags(got, n) == 0
  {
    if n > 0 { FlagsClear(got, n - 1); }
  }

  lemma {:induction false} FlagsFull(got: seq<bool>, n: nat)
    requires n <= |got|
    ensures Flags(got, n) <= n
    ensures Flags(got, n) == n <==> forall i :: 0 <= i < n ==> got[i]
  {
    if n > 0 { FlagsFull(got, n - 1); }
  }

  /** Whatever arrives, the count stays the number of flags set and no flag past the
      fragment count is. */
  lemma AddedKeeps(s: State, p: seq<u8>)
    requires Valid(s)
    ensures Valid(Added(s, p).0)
    ensures !Added(s, p).1 ==> Added(s, p).0 == s
  {
    if Added(s, p).1 {
      var f := Parse(p);
      var b := Begun(s, f);
      ChunkFits(f);
      if b != s { FlagsClear(b.got, b.count); }
      FlagsSet(b.got, f.idx, b.count);
    }
  }

  /** What a receiver asks of a fragment: the magic, a count of 1 to 53 that the length,
      of at most 8192 bytes, implies, an index below it, and a chunk of just the size both
      imply; and within one transfer that nothing of this changes. */
  ghost predicate Acceptable(s: State, p: seq<u8>)
  {
    && |p| >= 18 && p[0] == 0x53 && p[1] == 0x41 && p[2] == 0x52 && p[3] == 0x31
    && 1 <= Field16(p, 8) <= 53 && Field32(p, 10) <= 8192 && Field16(p, 6) < Field16(p, 8)
    && 160 * (Field16(p, 8) - 1) < Field32(p, 10) <= 160 * Field16(p, 8)
    && |p| - 18 == (if Field16(p, 6) == Field16(p, 8) - 1 then Field32(p, 10) - 160 * Field16(p, 6) else 160)
    && (s.active && s.xfer == Field16(p, 4) ==>
          s.count == Field16(p, 8) && s.tlen == Field32(p, 10) && s.tcrc == Field32(p, 14))
  }

  lemma AcceptedExactly(s: State, p: seq<u8>)
    requires Valid(s)
    ensures Added(s, p).1 <==> Acceptable(s, p)
  {
    if |p| >= 18 {
      ParseExact(p);
      var f := Parse(p);
      if f.tlen <= 8192 { FragCountExact(f.tlen); }
    }
  }

  /** An accepted fragment starts its transfer over unless it is the one under way, marks
      its own index, and writes its chunk to its own place and nothing else. */
  lemma StoredExactly(s: State, p: seq<u8>)
    requires Valid(s) && Added(s, p).1
    ensures |p| >= 18
    ensures var (t, xfer, idx) := (Added(s, p).0, Field16(p, 4), Field16(p, 6));
            && t.active && t.xfer == xfer && t.count == Field16(p, 8)
            && t.tlen == Field32(p, 10) && t.tcrc == Field32(p, 14)
            && |t.got| == |s.got| && |t.buf| == |s.buf|
            && (forall i :: 0 <= i < |t.got| ==>
                  (t.got[i] <==> i == idx || (s.active && s.xfer == xfer && s.got[i])))
            && (forall j :: 0 <= j < |t.buf| ==>
                  t.buf[j] == if 160 * idx <= j < 160 * idx + |p| - 18 then p[18 + j - 160 * idx] else s.buf[j])
  {
    ParseExact(p);
    var f := Parse(p);
    ChunkFits(f);
  }

  predicate Complete(s: State)
  {
    s.active && s.gotCount == s.count
  }

  lemma CompleteExactly(s: State)
    requires Valid(s)
    ensures Complete(s) <==> s.active && forall i :: 0 <= i < s.count ==> s.got[i]
  {
    if s.active { FlagsFull(s.got, s.count); }
  }

  function MissingFrom(got: seq<bool>, i: nat, n: nat): seq<u16>
    requires i <= n <= |got| < 0x1_0000
    decreases n - i
  {
    if i == n then [] else (if got[i] then [] else [i]) + MissingFrom(got, i + 1, n)
  }

  function Missing(s: State): seq<u16>
    requires Valid(s)
  {
    if s.active then MissingFrom(s.got, 0, s.count) else []
  }

  ghost predicate Lists(m: seq<u16>, got: seq<bool>, i: nat, n: nat)
    requires i <= n <= |got|
  {
    && (forall k: u16 :: k in m <==> i <= k < n && !got[k])
    && forall j, k :: 0 <= j < k < |m| ==> m[j] < m[k]
  }

  lemma {:induction false} MissingLists(got: seq<bool>, i: nat, n: nat)
    requires i <= n <= |got| < 0x1_0000
    ensures Lists(MissingFrom(got, i, n), got, i, n)
    decreases n - i
  {
    if i < n {
      var rest := MissingFrom(got, i + 1, n);
      MissingLists(got, i + 1, n);
      if !got[i] {
        ListsCons(rest, got, i, n);
      } else {
        assert [] + rest == rest;
        ListsSkip(rest, got, i, n);
      }
    }
  }

  lemma ListsSkip(rest: seq<u16>, got: seq<bool>, i: nat, n: nat)
    requires i < n <= |got| && got[i] && Lists(rest, got, i + 1, n)
    ensures Lists(rest, got, i, n)
  {
  }

  lemma ListsCons(rest: seq<u16>, got: seq<bool>, i: u16, n: nat)
    requires i < n <= |got| && !got[i] && Lists(rest, got, i + 1, n)
    ensures Lists([i] + rest, got, i, n)
  {
    var m: seq<u16> := [i] + rest;
    forall k: u16
      ensures k in m <==> i <= k < n && !got[k]
    {
      assert k in m <==> k == i || k in rest;
    }
    forall j, k | 0 <= j < k < |m|
      ensures m[j] < m[k]
    {
      assert m[k] == rest[k - 1] && rest[k - 1] in rest;
    }
  }

  /** The missing list is exactly the unset indices in ascending order, and it is empty
      exactly when the transfer is complete. */
  lemma MissingExact(s: State)
    requires Valid(s) && s.active
    ensures forall k: u16 :: k in Missing(s) <==> 0 <= k < s.count && !s.got[k]
    ensures forall j, k :: 0 <= j < k < |Missing(s)| ==> Missing(s)[j] < Missing(s)[k]
    ensures Complete(s) <==> Missing(s) == []
  {
    MissingLists(s.got, 0, s.count);
    FlagsFull(s.got, s.count);
    if Missing(s) == [] {
      forall k: u16 | 0 <= k < s.count
        ensures s.got[k]
      {
        assert k !in Missing(s);
      }
    } else {
      assert Missing(s)[0] in Missing(s);
    }
  }

  // ------------------------------------------------------ one blob, any delivery

  /** Indices held of the transfer under this identifier. */
  function Held(s: State, xfer: u16): set<nat>
    requires |s.got| == MAX_FRAGS
  {
    if s.active && s.xfer == xfer then set i | 0 <= i < MAX_FRAGS && s.got[i] else {}
  }

  /** Every fragment held under this identifier is the blob's. */
  ghost predicate From(s: State, blob: seq<u8>, xfer: u16)
    requires Valid(s)
  {
    s.active && s.xfer == xfer ==>
      && s.tlen == |blob| && s.tcrc == Crc32(blob)
      && forall i :: 0 <= i < s.count && s.got[i] ==> HoldsPiece(s.buf, blob, i)
  }

  ghost predicate HoldsPiece(buf: seq<u8>, blob: seq<u8>, i: nat)
  {
    i * CHUNK < |blob| <= |buf| && buf[i * CHUNK..Min(i * CHUNK + CHUNK, |blob|)] == Piece(blob, i)
  }

  lemma WriteElsewhere(buf: seq<u8>, blob: seq<u8>, i: nat, k: nat)
    requires |buf| == MAX_FILE && i != k && HoldsPiece(buf, blob, i) && k * CHUNK < |blob|
    ensures HoldsPiece(Write(buf, k * CHUNK, Piece(blob, k)), blob, i)
  {
    var r := Write(buf, k * CHUNK, Piece(blob, k));
    var lo, hi := i * CHUNK, Min(i * CHUNK + CHUNK, |blob|);
    assert forall j :: lo <= j < hi ==> r[j] == buf[j];
    assert r[lo..hi] == buf[lo..hi];
  }

  lemma SizesAgree(len: u32)
    requires len <= MAX_FILE
    ensures FragCount(len) <= MAX_FRAGS
    ensures forall i: nat :: i < FragCount(len) <==> i * CHUNK < len
  {
  }

  /** A genuine fragment is taken from every state that holds only that blob under its
      identifier, and adds exactly its own index. */
  lemma GenuineAdded(s: State, blob: seq<u8>, xfer: u16, idx: u16)
    requires Valid(s) && From(s, blob, xfer) && |blob| <= MAX_FILE && idx < FragCount(|blob|)
    ensures var p := Encode(FragmentOf(blob, xfer, Crc32(blob), idx));
            var (t, ok) := Added(s, p);
            ok && Valid(t) && t.active && t.xfer == xfer && From(t, blob, xfer)
                && Held(t, xfer) == Held(s, xfer) + {idx}
  {
    var f := FragmentOf(blob, xfer, Crc32(blob), idx);
    FragmentConsistent(blob, xfer, Crc32(blob), idx);
    AddedConsistent(s, f);
    AddedKeeps(s, Encode(f));
    StoredFrom(s, Begun(s, f), blob, f);
  }

  lemma FragmentConsistent(blob: seq<u8>, xfer: u16, crc: u32, idx: u16)
    requires |blob| <= MAX_FILE && idx < FragCount(|blob|)
    ensures Consistent(FragmentOf(blob, xfer, crc, idx)) && idx * CHUNK < |blob|
  {
    SizesAgree(|blob|);
    PieceStarts(|blob|, idx);
  }

  lemma AddedConsistent(s: State, f: Frag)
    requires Valid(s) && Consistent(f) && !Contradicts(s, f)
    ensures f.idx < MAX_FRAGS && f.idx * CHUNK + |f.chunk| <= MAX_FILE
    ensures Added(s, Encode(f)) == (Stored(Begun(s, f), f), true)
  {
    ParseEncode(f);
    ChunkFits(f);
  }

  lemma StoredFrom(s: State, b: State, blob: seq<u8>, f: Frag)
    requires Valid(s) && From(s, blob, f.xfer) && Consistent(f) && |blob| <= MAX_FILE && b == Begun(s, f)
    requires f.tlen == |blob| && f.tcrc == Crc32(blob) && f.idx * CHUNK < |blob| && f.chunk == Piece(blob, f.idx)
    requires f.idx * CHUNK + |f.chunk| <= MAX_FILE && Valid(Stored(b, f)) && !Contradicts(s, f)
    ensures From(Stored(b, f), blob, f.xfer) && Held(Stored(b, f), f.xfer) == Held(s, f.xfer) + {f.idx as nat}
  {
    var t := Stored(b, f);
    forall i | 0 <= i < t.count && t.got[i]
      ensures HoldsPiece(t.buf, blob, i)
    {
      if i != f.idx {
        assert b.got[i] && HoldsPiece(b.buf, blob, i);
        WriteElsewhere(b.buf, blob, i, f.idx);
      } else {
        WrittenHere(b.buf, blob, i);
      }
    }
    assert Held(t, f.xfer) == (set i | 0 <= i < MAX_FRAGS && b.got[i]) + {f.idx as nat};
  }

  lemma WrittenHere(buf: seq<u8>, blob: seq<u8>, k: nat)
    requires |buf| == MAX_FILE && |blob| <= MAX_FILE && k * CHUNK < |blob|
    ensures HoldsPiece(Write(buf, k * CHUNK, Piece(blob, k)), blob, k)
  {
  }

  function Run(s: State, ps: seq<seq<u8>>): (t: State)
    requires Valid(s)
    ensures Valid(t)
  {
    if |ps| == 0 then s
    else
      AddedKeeps(Run(s, ps[..|ps| - 1]), ps[|ps| - 1]);
      Added(Run(s, ps[..|ps| - 1]), ps[|ps| - 1]).0
  }

  ghost predicate Genuine(p: seq<u8>, blob: seq<u8>, xfer: u16, idx: u16)
    requires |blob| <= MAX_FILE
  {
    idx < FragCount(|blob|) && p == Encode(FragmentOf(blob, xfer, Crc32(blob), idx))
  }

  /** Each payload of a run is a fragment of the blob, index given, or is turned away. */
  ghost predicate OneBlob(s: State, blob: seq<u8>, xfer: u16, ps: seq<seq<u8>>, idxs: seq<int>)
    requires Valid(s) && |blob| <= MAX_FILE && |ps| == |idxs|
  {
    |ps| > 0 ==>
      var n := |ps| - 1;
      && OneBlob(s, blob, xfer, ps[..n], idxs[..n])
      && if 0 <= idxs[n] < 0x1_0000 then Genuine(ps[n], blob, xfer, idxs[n]) else !Added(Run(s, ps[..n]), ps[n]).1
  }

  function Indices(idxs: seq<int>): set<nat>
  {
    set i | i in idxs && 0 <= i < 0x1_0000
  }

  lemma {:induction false} RunHeld(s: State, blob: seq<u8>, xfer: u16, ps: seq<seq<u8>>, idxs: seq<int>)
    requires Valid(s) && From(s, blob, xfer) && |blob| <= MAX_FILE && |ps| == |idxs| && OneBlob(s, blob, xfer, ps, idxs)
    ensures From(Run(s, ps), blob, xfer) && Held(Run(s, ps), xfer) == Held(s, xfer) + Indices(idxs)
    ensures Indices(idxs) != {} ==> Run(s, ps).active && Run(s, ps).xfer == xfer
  {
    if |ps| > 0 {
      var n := |ps| - 1;
      var before := Run(s, ps[..n]);
      RunHeld(s, blob, xfer, ps[..n], idxs[..n]);
      AddedKeeps(before, ps[n]);
      IndicesSnoc(idxs, n);
      if 0 <= idxs[n] < 0x1_0000 {
        GenuineAdded(before, blob, xfer, idxs[n]);
      }
    }
  }

  lemma IndicesSnoc(idxs: seq<int>, n: nat)
    requires |idxs| == n + 1
    ensures Indices(idxs) == Indices(idxs[..n]) + if 0 <= idxs[n] < 0x1_0000 then {idxs[n]} else {}
  {
    assert idxs == idxs[..n] + [idxs[n]];
  }

  lemma {:induction false} PiecesMakeBlob(buf: seq<u8>, blob: seq<u8>, n: nat)
    requires |blob| <= |buf| && forall i :: 0 <= i < n ==> HoldsPiece(buf, blob, i)
    ensures buf[..Min(n * CHUNK, |blob|)] == blob[..Min(n * CHUNK, |blob|)]
  {
    if n > 0 {
      PiecesMakeBlob(buf, blob, n - 1);
      var lo, hi := (n - 1) * CHUNK, Min(n * CHUNK, |blob|);
      assert HoldsPiece(buf, blob, n - 1);
      assert buf[..hi] == buf[..lo] + buf[lo..hi] && blob[..hi] == blob[..lo] + blob[lo..hi];
    }
  }

  predicate Verified(s: State)
    requires |s.buf| == MAX_FILE && s.tlen <= MAX_FILE
  {
    Complete(s) && Crc32(s.buf[..s.tlen]) == s.tcrc
  }

  /** A complete transfer of one blob is that blob, and its checksum verifies. */
  lemma CompleteIsBlob(s: State, blob: seq<u8>, xfer: u16)
    requires Valid(s) && s.active && s.xfer == xfer && From(s, blob, xfer) && Complete(s)
    ensures s.buf[..s.tlen] == blob && Verified(s)
  {
    FlagsFull(s.got, s.count);
    SizesAgree(s.tlen);
    assert forall i :: 0 <= i < s.count ==> s.got[i];
    PiecesMakeBlob(s.buf, blob, s.count);
    assert !(s.count * CHUNK < s.tlen);
    assert s.buf[..s.tlen] == blob[..|blob|] == blob;
  }

  /** Delivery: from any state that holds nothing or only this blob under the identifier,
      whatever the order, repetition or interleaved rubbish, the transfer completes
      exactly when every index is held or arrives, and then the buffer is the blob. */
  lemma Delivered(s: State, blob: seq<u8>, xfer: u16, ps: seq<seq<u8>>, idxs: seq<int>)
    requires Valid(s) && From(s, blob, xfer) && 0 < |blob| <= MAX_FILE && |ps| == |idxs|
               && OneBlob(s, blob, xfer, ps, idxs)
    requires Indices(idxs) != {}
    ensures var t := Run(s, ps);
            && (Complete(t) <==> forall i: nat :: i < FragCount(|blob|) ==> i in Held(s, xfer) + Indices(idxs))
            && (Complete(t) ==> t.buf[..t.tlen] == blob && Verified(t))
  {
    var t := Run(s, ps);
    RunHeld(s, blob, xfer, ps, idxs);
    FlagsFull(t.got, t.count);
    assert forall i: nat :: i in Held(t, xfer) <==> i < MAX_FRAGS && t.got[i];
    if Complete(t) { CompleteIsBlob(t, blob, xfer); }
  }

  // ------------------------------------------------------------ the reassembler

  class Reassembler {
    var active: bool
    var xferId: u16
    var fragCount: u16
    var totalLen: u32
    var totalCrc: u32
    var gotCount: nat
    const got: array<bool>
    const buf: array<u8>

    ghost function View(): State
      reads this, got, buf
    {
      State(active, xferId, fragCount, totalLen, totalCrc, gotCount, got[..], buf[..])
    }

    constructor ()
      ensures Valid(View()) && !active && fresh(got) && fresh(buf)
    {
      active, xferId, fragCount, totalLen, totalCrc, gotCount := false, 0, 0, 0, 0, 0;
      got := new bool[MAX_FRAGS](i => false);
      buf := new u8[MAX_FILE](i => 0);
    }

    method Add(payload: seq<u8>) returns (ok: bool)
      requires Valid(View()) && |payload| < 0x1_0000
      modifies this, got, buf
      ensures (View(), ok) == Added(old(View()), payload) && Valid(View())
    {
      AddedKeeps(View(), payload);
      if !IsFragment(payload) { return false; }
      var f := Parse(payload);
      if f.count == 0 || f.count > MAX_FRAGS || f.tlen > MAX_FILE || f.idx >= f.count { return false; }
      if f.count != FragCount(f.tlen) { return false; }
      PieceStarts(f.tlen, f.idx);
      var off := f.idx * CHUNK;
      var size := if f.idx == f.count - 1 then f.tlen - off else CHUNK;
      if |f.chunk| != size { return false; }
      if !active || f.xfer != xferId {
        Begin(f);
      } else if f.count != fragCount || f.tlen != totalLen || f.tcrc != totalCrc {
        return false;
      }
      ChunkFits(f);
      Store(f);
      ok := true;
    }

    /** Start over for the transfer a fragment belongs to. */
    method Begin(f: Frag)
      requires got.Length == MAX_FRAGS && (!active || f.xfer != xferId)
      modifies this, got
      ensures View() == Begun(old(View()), f)
    {
      active, xferId, fragCount, totalLen, totalCrc, gotCount := true, f.xfer, f.count, f.tlen, f.tcrc, 0;
      ClearFlags();
    }

    method Store(f: Frag)
      requires f.idx < got.Length && f.idx * CHUNK + |f.chunk| <= buf.Length
      modifies this`gotCount, got, buf
      ensures View() == Stored(old(View()), f)
    {
      ghost var before := buf[..];
      WriteAt(buf, f.idx * CHUNK, f.chunk);
      assert buf[..] == Write(before, f.idx * CHUNK, f.chunk) by {
        assert buf[..] == buf[..f.idx * CHUNK + |f.chunk|] + buf[f.idx * CHUNK + |f.chunk|..];
      }
      if !got[f.idx] {
        got[f.idx] := true;
        gotCount := gotCount + 1;
      }
    }

    method ClearFlags()
      requires got.Length == MAX_FRAGS
      modifies got
      ensures got[..] == seq(MAX_FRAGS, i => false)
    {
      for i := 0 to MAX_FRAGS
        invariant forall k :: 0 <= k < i ==> !got[k]
      {
        got[i] := false;
      }
    }

    method Reset()
      requires Valid(View())
      modifies this`active, this`gotCount
      ensures Valid(View()) && !active && View() == old(View()).(active := false, gotCount := 0)
    {
      active, gotCount := false, 0;
    }

    /** Fill out with as many missing indices as fit, lowest first. */
    method ListMissing(out: array<u16>) returns (n: nat)
      requires Valid(View())
      modifies out
      ensures n == Min(|Missing(View())|, out.Length)
      ensures out[..n] == Missing(View())[..n] && out[n..] == old(out[n..])
    {
      n := 0;
      if !active { return; }
      var i := 0;
      ghost var flags, before := got[..], out[..];
      ghost var list := MissingFrom(flags, 0, fragCount);
      while i < fragCount && n < out.Length
        invariant 0 <= i <= fragCount && n <= out.Length && n <= |list| && got[..] == flags
        invariant out[..n] == list[..n] && list[n..] == MissingFrom(flags, i, fragCount)
        invariant out[n..] == before[n..]
      {
        MissingStep(flags, i, fragCount, list, n);
        if !got[i] {
          out[n] := i;
          n := n + 1;
        }
        i := i + 1;
      }
    }

    static lemma MissingStep(flags: seq<bool>, i: u16, count: nat, list: seq<u16>, n: nat)
      requires i < count <= |flags| < 0x1_0000 && n <= |list| && list[n..] == MissingFrom(flags, i, count)
      ensures flags[i] ==> list[n..] == MissingFrom(flags, i + 1, count)
      ensures !flags[i] ==> n < |list| && list[n] == i && list[n + 1..] == MissingFrom(flags, i + 1, count)
    {
      var rest := MissingFrom(flags, i + 1, count);
      if flags[i] {
        assert [] + rest == rest;
      } else {
        assert list[n..] == [i] + rest && list[n] == list[n..][0];
        assert list[n + 1..] == list[n..][1..];
      }
    }

    method Verify() returns (ok: bool)
      requires Valid(View())
      ensures ok == Verified(View())
    {
      if !(active && gotCount == fragCount) { return false; }
      var crc := CrcOf(buf, totalLen);
      ok := crc == totalCrc;
    }
  }

  // ------------------------------------------------------------------ NACK

  function EncodeList(m: seq<u16>): (b: seq<u8>)
    ensures |b| == 2 * |m|
  {
    if |m| == 0 then [] else EncodeList(m[..|m| - 1]) + LeBytes(m[|m| - 1], 2)
  }

  function Nack(xfer: u16, m: seq<u16>): (b: seq<u8>)
    requires |m| < 0x1_0000
    ensures |b| == NACK_HDR + 2 * |m|
  {
    NMAGIC + LeBytes(xfer, 2) + LeBytes(|m|, 2) + EncodeList(m)
  }

  /** As many of the missing indices as the buffer takes. */
  method BuildNack(xfer: u16, missing: seq<u16>, out: array<u8>) returns (len: nat)
    requires |missing| < 0x1_0000 && out.Length < 0x1_0000
    modifies out
    ensures out.Length < NACK_HDR ==> len == 0 && out[..] == old(out[..])
    ensures out.Length >= NACK_HDR ==> len == NACK_HDR + 2 * Min(|missing|, (out.Length - NACK_HDR) / 2)
    ensures out.Length >= NACK_HDR ==> out[..len] == Nack(xfer, missing[..Min(|missing|, (out.Length - NACK_HDR) / 2)])
  {
    if out.Length < NACK_HDR { return 0; }
    var n := Min(|missing|, (out.Length - NACK_HDR) / 2);
    WriteAt(out, 0, NMAGIC);
    WriteAt(out, 4, LeBytes(xfer, 2));
    WriteAt(out, 6, LeBytes(n, 2));
    ghost var head := out[..NACK_HDR];
    for i := 0 to n
      invariant out[..NACK_HDR + 2 * i] == head + EncodeList(missing[..i])
    {
      WriteAt(out, NACK_HDR + 2 * i, LeBytes(missing[i], 2));
      assert missing[..i + 1][..i] == missing[..i];
    }
    len := NACK_HDR + 2 * n;
  }

  function ListOf(p: seq<u8>, n: nat): (m: seq<u16>)
    requires NACK_HDR + 2 * n <= |p|
    ensures |m| == n
  {
    seq(n, i requires 0 <= i < n => LeU16(p[NACK_HDR + 2 * i..NACK_HDR + 2 * i + 2]))
  }

  /** What a payload asks for: nothing unless it is a NACK, never more than it carries. */
  function Wanted(p: seq<u8>, cap: nat): (u16, seq<u16>)
  {
    if |p| < NACK_HDR || p[..4] != NMAGIC then (0, [])
    else
      var claimed := LeU16(p[6..8]);
      var n := if NACK_HDR + 2 * claimed > |p| then (|p| - NACK_HDR) / 2 else claimed;
      (LeU16(p[4..6]), ListOf(p, Min(n, cap)))
  }

  method ParseNack(p: seq<u8>, out: array<u16>) returns (xfer: u16, n: nat)
    modifies out
    ensures n <= out.Length && (xfer, out[..n]) == Wanted(p, out.Length) && out[n..] == old(out[n..])
  {
    if |p| < NACK_HDR || p[..4] != NMAGIC { return 0, 0; }
    xfer := LeU16(p[4..6]);
    var m: int := LeU16(p[6..8]);
    if NACK_HDR + m * 2 > |p| { m := (|p| - NACK_HDR) / 2; }
    if m > out.Length { m := out.Length; }
    for i := 0 to m
      invariant forall k :: 0 <= k < i ==> out[k] == LeU16(p[NACK_HDR + 2 * k..NACK_HDR + 2 * k + 2])
      invariant out[m..] == old(out[m..])
    {
      out[i] := LeU16(p[NACK_HDR + i * 2..NACK_HDR + i * 2 + 2]);
    }
    n := m;
    assert out[..n] == ListOf(p, n);
  }

  lemma {:induction false} ListAt(m: seq<u16>, i: nat)
    requires i < |m|
    ensures EncodeList(m)[2 * i..2 * i + 2] == LeBytes(m[i], 2)
  {
    if i < |m| - 1 {
      ListAt(m[..|m| - 1], i);
      assert EncodeList(m)[2 * i..2 * i + 2] == EncodeList(m[..|m| - 1])[2 * i..2 * i + 2];
    }
  }

  /** What a payload asks for, on its bytes: "SARN", the transfer at 4, the number at 6 and
      the indices from 8 on, as many as are claimed, carried and wanted. */
  lemma WantedExact(p: seq<u8>, cap: nat)
    ensures |p| < 8 || p[0] != 0x53 || p[1] != 0x41 || p[2] != 0x52 || p[3] != 0x4E ==> Wanted(p, cap) == (0, [])
    ensures |p| >= 8 && p[0] == 0x53 && p[1] == 0x41 && p[2] == 0x52 && p[3] == 0x4E ==>
              var (xfer, m) := Wanted(p, cap);
              && xfer == Field16(p, 4) && |m| == Min(Min(Field16(p, 6), (|p| - 8) / 2), cap)
              && forall i :: 0 <= i < |m| ==> m[i] == Field16(p, 8 + 2 * i)
  {
    if |p| >= 8 {
      assert p[..4] == [p[0], p[1], p[2], p[3]];
      TwoBytes(p[4..6]);
      TwoBytes(p[6..8]);
      forall i: nat | 8 + 2 * i + 2 <= |p|
        ensures LeU16(p[8 + 2 * i..8 + 2 * i + 2]) == Field16(p, 8 + 2 * i)
      {
        TwoBytes(p[8 + 2 * i..8 + 2 * i + 2]);
      }
    }
  }

  /** A request is read back as it was made, cut only by the reader's own capacity. */
  lemma NackRoundTrip(xfer: u16, m: seq<u16>, cap: nat)
    requires |m| < 0x1_0000
    ensures Wanted(Nack(xfer, m), cap) == (xfer, m[..Min(|m|, cap)])
  {
    var p := Nack(xfer, m);
    Pow256Small();
    LeBytesVal(xfer, 2);
    LeBytesVal(|m|, 2);
    assert p[..4] == NMAGIC && p[4..6] == LeBytes(xfer, 2) && p[6..8] == LeBytes(|m|, 2);
    forall i | 0 <= i < Min(|m|, cap)
      ensures ListOf(p, Min(|m|, cap))[i] == m[i]
    {
      ListAt(m, i);
      LeBytesVal(m[i], 2);
      assert p[NACK_HDR + 2 * i..NACK_HDR + 2 * i + 2] == EncodeList(m)[2 * i..2 * i + 2];
    }
    assert ListOf(p, Min(|m|, cap)) == m[..Min(|m|, cap)];
  }
}
