/** The binary form of a log record: a 40-byte header in network order, followed by the data. */
module RecordFormat {

  /** Bytes count modulo 256. */
  type Bytes = seq<int>

  /** Room in a segment's arrays of offsets. */
  const CAPACITY := 1000000

  const HEADER_SIZE := 40
  const WIDTH64 := 8
  const WIDTH32 := 4
  const TWO16 := 0x1_0000
  const TWO24 := 0x100_0000
  const TWO32 := 0x1_0000_0000
  const TWO64 := 0x1_0000_0000_0000_0000

  const CHECKSUM_MURMURHASH32 := 0
  const CHECKSUM_CRC32 := 1

  datatype Record = Record(term: int, index: int, dependency: int, kind: int, data: Bytes)

  /** The checksum functions, by type. */
  type Checksum = (int, Bytes) -> int

  ghost predicate IsChecksum(f: Checksum) {
    forall t, b :: 0 <= f(t, b) < TWO32
  }

  predicate KnownType(t: int) {
    t == CHECKSUM_MURMURHASH32 || t == CHECKSUM_CRC32
  }

  /** What can be written: terms start from 1 and a length has 32 bits. */
  ghost predicate IsRecord(r: Record) {
    && 1 <= r.term < TWO64 && 0 <= r.index < TWO64 && 0 <= r.dependency < TWO64
    && 0 <= r.kind < 256 && |r.data| < TWO32
  }

  /** `n` bytes, most significant first. */
  function Pack(v: int, n: nat): (r: Bytes)
    ensures |r| == n
    decreases n, v
  {
    if n == 0 then [] else Pack(v / 256, n - 1) + [v % 256]
  }

  function Unpack(b: Bytes): (v: nat) {
    if b == [] then 0 else Unpack(b[..|b| - 1]) * 256 + b[|b| - 1] % 256
  }

  ghost function Pow256(n: nat): (r: nat) {
    if n == 0 then 1 else 256 * Pow256(n - 1)
  }

  lemma {:induction false} UnpackPack(v: int, n: nat)
    requires 0 <= v < Pow256(n)
    ensures Unpack(Pack(v, n)) == v
  {
    if n == 0 {
    } else {
      assert v / 256 < Pow256(n - 1);
      UnpackPack(v / 256, n - 1);
      assert Pack(v, n)[..n - 1] == Pack(v / 256, n - 1);
    }
  }

  lemma Widths()
    ensures Pow256(WIDTH32) == TWO32 && Pow256(WIDTH64) == TWO64
  {
    assert Pow256(2) == TWO16;
    assert Pow256(4) == 256 * 256 * Pow256(2);
    assert Pow256(8) == 256 * 256 * 256 * 256 * Pow256(4);
  }

  /** A header without its own checksum, in order: term, index, dependency, types, length, data checksum. */
  function Fields(r: Record, kind: int, f: Checksum): (b: Bytes)
    ensures |b| == HEADER_SIZE - 4
  {
    Pack(r.term, WIDTH64) + Pack(r.index, WIDTH64) + Pack(r.dependency, WIDTH64) +
    Pack(r.kind * TWO24 + kind * TWO16, WIDTH32) + Pack(|r.data|, WIDTH32) + Pack(f(kind, r.data), WIDTH32)
  }

  function Header(r: Record, kind: int, f: Checksum): (b: Bytes)
    ensures |b| == HEADER_SIZE
  {
    Fields(r, kind, f) + Pack(f(kind, Fields(r, kind, f)), WIDTH32)
  }

  function Encode(r: Record, kind: int, f: Checksum): (b: Bytes)
    ensures |b| == HEADER_SIZE + |r.data|
  {
    Header(r, kind, f) + r.data
  }

  datatype EntryHeader = EntryHeader(term: int, index: int, dependency: int, kind: int, checksumKind: int,
                                     dataLen: nat, dataChecksum: int)

  datatype Parsed = Corrupt | Invalidated | Parsed(header: EntryHeader)

  /** A zero term is looked at before the checksum. */
  function Interpret(term: nat, index: nat, dependency: nat, meta: nat, len: nat, dataSum: nat, headerSum: nat,
                     fields: Bytes, f: Checksum): (p: Parsed)
  {
    var checksumKind := meta * 256 % TWO32 / TWO24;
    if term == 0 then Invalidated
    else if !KnownType(checksumKind) || headerSum != f(checksumKind, fields) then Corrupt
    else Parsed(EntryHeader(term, index, dependency, meta / TWO24, checksumKind, len, dataSum))
  }

  function Parse(b: Bytes, f: Checksum): (p: Parsed) {
    if |b| != HEADER_SIZE then Corrupt
    else Interpret(Unpack(b[..8]), Unpack(b[8..16]), Unpack(b[16..24]), Unpack(b[24..28]), Unpack(b[28..32]),
                   Unpack(b[32..36]), Unpack(b[36..]), b[..36], f)
  }

  /** Four bytes, told one by one. */
  lemma FourBytes(b: Bytes)
    requires |b| == 4
    ensures Unpack(b) == b[0] % 256 * TWO24 + b[1] % 256 * TWO16 + b[2] % 256 * 256 + b[3] % 256
  {
    assert b[..3][..2] == b[..2] && b[..2][..1] == b[..1] && b[..1][..0] == [];
    assert Unpack(b[..1]) == b[0] % 256;
    assert Unpack(b[..2]) == Unpack(b[..1]) * 256 + b[1] % 256;
    assert Unpack(b[..3]) == Unpack(b[..2]) * 256 + b[2] % 256;
  }

  lemma MetaBytes(x: nat, y: nat, z: nat, w: nat)
    requires x < 256 && y < 256 && z < 256 && w < 256
    ensures var meta := x * TWO24 + y * TWO16 + z * 256 + w;
            meta / TWO24 == x && meta * 256 % TWO32 / TWO24 == y
  {
    TopByte(x, y * TWO16 + z * 256 + w);
    LowerBytes(x, y * TWO24 + (z * TWO16 + w * 256));
    TopByte(y, z * TWO16 + w * 256);
  }

  lemma TopByte(x: nat, rest: nat)
    requires rest < TWO24
    ensures (x * TWO24 + rest) / TWO24 == x
  {
  }

  lemma LowerBytes(x: nat, rest: nat)
    requires rest < TWO32
    ensures (x * TWO32 + rest) % TWO32 == rest
  {
  }

  /** The checksum over the first 36 bytes, of the type told by byte 25, is what the last four bytes say. */
  ghost predicate HeaderSumOk(b: Bytes, f: Checksum)
    requires |b| == 40
  {
    (b[25] % 256 == 0 || b[25] % 256 == 1) && Unpack(b[36..40]) == f(b[25] % 256, b[..36])
  }

  /**
   * What reading any 40 bytes as a header gives: a zero term is told apart first, then everything whose checksum does
   * not fit is refused, and the rest is read field by field.
   */
  lemma ParseIff(b: Bytes, f: Checksum)
    requires |b| == 40
    ensures Parse(b, f).Invalidated? <==> Unpack(b[0..8]) == 0
    ensures Parse(b, f).Parsed? <==> Unpack(b[0..8]) != 0 && HeaderSumOk(b, f)
    ensures Parse(b, f).Parsed? ==>
              Parse(b, f).header == EntryHeader(Unpack(b[0..8]), Unpack(b[8..16]), Unpack(b[16..24]), b[24] % 256,
                                                b[25] % 256, Unpack(b[28..32]), Unpack(b[32..36]))
  {
    assert b[..8] == b[0..8] && b[36..] == b[36..40];
    var m := b[24..28];
    FourBytes(m);
    MetaBytes(m[0] % 256, m[1] % 256, m[2] % 256, m[3] % 256);
  }

  lemma Slices(a: Bytes, b: Bytes, c: Bytes, d: Bytes, e: Bytes, g: Bytes, h: Bytes)
    requires |a| == |b| == |c| == 8 && |d| == |e| == |g| == |h| == 4
    ensures var s := a + b + c + d + e + g + h;
            && s[..8] == a && s[8..16] == b && s[16..24] == c && s[24..28] == d && s[28..32] == e && s[32..36] == g
            && s[..36] == a + b + c + d + e + g && s[36..] == h
  {
  }

  lemma ParseJoined(a: Bytes, b: Bytes, c: Bytes, d: Bytes, e: Bytes, g: Bytes, h: Bytes, f: Checksum)
    requires |a| == |b| == |c| == 8 && |d| == |e| == |g| == |h| == 4
    ensures Parse(a + b + c + d + e + g + h, f) ==
            Interpret(Unpack(a), Unpack(b), Unpack(c), Unpack(d), Unpack(e), Unpack(g), Unpack(h),
                      a + b + c + d + e + g, f)
  {
    Slices(a, b, c, d, e, g, h);
  }

  lemma TypeBits(a: int, b: int)
    requires 0 <= a < 256 && 0 <= b < 256
    ensures 0 <= a * TWO24 + b * TWO16 < TWO32
    ensures (a * TWO24 + b * TWO16) / TWO24 == a
    ensures (a * TWO24 + b * TWO16) * 256 % TWO32 / TWO24 == b
  {
    assert (a * TWO24 + b * TWO16) * 256 == a * TWO32 + b * TWO24;
  }

  lemma HeaderJoined(r: Record, kind: int, f: Checksum)
    ensures Parse(Header(r, kind, f), f) ==
            Interpret(Unpack(Pack(r.term, WIDTH64)), Unpack(Pack(r.index, WIDTH64)),
                      Unpack(Pack(r.dependency, WIDTH64)),
                      Unpack(Pack(r.kind * TWO24 + kind * TWO16, WIDTH32)), Unpack(Pack(|r.data|, WIDTH32)),
                      Unpack(Pack(f(kind, r.data), WIDTH32)), Unpack(Pack(f(kind, Fields(r, kind, f)), WIDTH32)),
                      Fields(r, kind, f), f)
  {
    ParseJoined(Pack(r.term, WIDTH64), Pack(r.index, WIDTH64), Pack(r.dependency, WIDTH64),
                Pack(r.kind * TWO24 + kind * TWO16, WIDTH32), Pack(|r.data|, WIDTH32), Pack(f(kind, r.data), WIDTH32),
                Pack(f(kind, Fields(r, kind, f)), WIDTH32), f);
  }

  /** Reading a header back gives what was written. */
  lemma ParseHeader(r: Record, kind: int, f: Checksum)
    requires IsRecord(r) && KnownType(kind) && IsChecksum(f)
    ensures Parse(Header(r, kind, f), f) ==
            Parsed(EntryHeader(r.term, r.index, r.dependency, r.kind, kind, |r.data|, f(kind, r.data)))
  {
    HeaderJoined(r, kind, f);
    Widths();
    TypeBits(r.kind, kind);
    UnpackPack(r.term, WIDTH64);
    UnpackPack(r.index, WIDTH64);
    UnpackPack(r.dependency, WIDTH64);
    UnpackPack(r.kind * TWO24 + kind * TWO16, WIDTH32);
    UnpackPack(|r.data|, WIDTH32);
    UnpackPack(f(kind, r.data), WIDTH32);
    UnpackPack(f(kind, Fields(r, kind, f)), WIDTH32);
  }

  /** A record with the checksum type it was written under: how to write it, read its header and check its data. */
  datatype Codec = Codec(encode: Record -> Bytes, parse: Bytes -> Parsed, dataOk: (EntryHeader, Bytes) -> bool)

  ghost predicate Describes(h: EntryHeader, r: Record) {
    h.term == r.term && h.index == r.index && h.dependency == r.dependency && h.kind == r.kind && h.dataLen == |r.data|
  }

  ghost predicate ReadsBack(c: Codec, r: Record)
    requires |c.encode(r)| == HEADER_SIZE + |r.data|
  {
    var p := c.parse(c.encode(r)[..HEADER_SIZE]);
    p.Parsed? && Describes(p.header, r) && c.encode(r)[HEADER_SIZE..] == r.data && c.dataOk(p.header, r.data)
  }

  /** Whatever is written can be read: its header first, then exactly its data. */
  ghost predicate IsCodec(c: Codec) {
    && (forall r :: |c.encode(r)| == HEADER_SIZE + |r.data|)
    && (forall r :: IsRecord(r) ==> ReadsBack(c, r))
  }

  /** Data against the checksum in their header. */
  predicate DataSumOk(h: EntryHeader, data: Bytes, f: Checksum) {
    KnownType(h.checksumKind) && f(h.checksumKind, data) == h.dataChecksum
  }

  function TheCodec(kind: int, f: Checksum): (c: Codec) {
    Codec(r => Encode(r, kind, f), b => Parse(b, f), (h: EntryHeader, data: Bytes) => DataSumOk(h, data, f))
  }

  /** Reading checks the header as ParseIff says, and data against the checksum in their header. */
  lemma CodecChecks(kind: int, f: Checksum, b: Bytes, h: EntryHeader, data: Bytes)
    requires |b| == 40
    ensures var p := TheCodec(kind, f).parse(b);
            && (p.Invalidated? <==> Unpack(b[0..8]) == 0)
            && (p.Corrupt? <==> Unpack(b[0..8]) != 0 && !HeaderSumOk(b, f))
    ensures TheCodec(kind, f).dataOk(h, data) <==>
            (h.checksumKind == 0 || h.checksumKind == 1) && f(h.checksumKind, data) == h.dataChecksum
  {
    var c := TheCodec(kind, f);
    assert c.parse(b) == Parse(b, f) && c.dataOk(h, data) == DataSumOk(h, data, f);
    ParseIff(b, f);
  }

  /** The binary format is a codec, whatever the checksum functions are. */
  lemma FormatIsCodec(kind: int, f: Checksum)
    requires KnownType(kind) && IsChecksum(f)
    ensures IsCodec(TheCodec(kind, f))
  {
    var c := TheCodec(kind, f);
    forall r | IsRecord(r) ensures ReadsBack(c, r) {
      ParseHeader(r, kind, f);
      assert c.encode(r)[..HEADER_SIZE] == Header(r, kind, f);
    }
  }
}
