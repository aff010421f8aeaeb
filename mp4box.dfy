/** Framing shared by every box codec of the ISO base media file format:
    the error kinds, the box-type tags, big-endian integers over a byte
    sequence read at an integer cursor, and the 8-byte box header
    (4-byte big-endian size that counts the header itself, then a 4-byte tag).

    Fixed-width unsigned integers are integers within their range; the
    bit operations of the codecs are written out as the equivalent
    division, remainder and multiplication by powers of two. */
module Mp4Box {

  type u8 = x: int | 0 <= x < 0x100
  type u16 = x: int | 0 <= x < 0x1_0000
  type u32 = x: int | 0 <= x < 0x1_0000_0000
  type u64 = x: int | 0 <= x < 0x1_0000_0000_0000_0000

  /** Bytes of the header every box starts with. */
  const HEADER_SIZE: nat := 8
  /** Largest size the 32-bit size field of a header can carry. */
  const MAX_U32: nat := 0xFFFF_FFFF

  /** The errors a box reader can report. `UnexpectedEof` stands for every
      I/O failure of the underlying stream: a read past the end of the data. */
  datatype Error =
    | UnexpectedEof
    | InvalidData(reason: string)
    | BoxNotFound(name: BoxType)

  datatype Result<+T> = Success(value: T) | Failure(error: Error) {
    predicate IsFailure() { Failure? }
    function PropagateFailure<U>(): Result<U> requires Failure? { Failure(error) }
    function Extract(): T requires Success? { value }
  }

  datatype Option<+T> = None | Some(value: T)

  /** The box kinds this model knows by tag; every other tag is `UnknownType`. */
  datatype BoxType = SidxType | MvexType | MehdType | TrexType | UnknownType(code: u32)

  const SIDX_CODE: u32 := 0x7369_6478  // "sidx"
  const MVEX_CODE: u32 := 0x6d76_6578  // "mvex"
  const MEHD_CODE: u32 := 0x6d65_6864  // "mehd"
  const TREX_CODE: u32 := 0x7472_6578  // "trex"

  function CodeOf(name: BoxType): (code: u32) {
    match name
    case SidxType => SIDX_CODE
    case MvexType => MVEX_CODE
    case MehdType => MEHD_CODE
    case TrexType => TREX_CODE
    case UnknownType(code) => code
  }

  predicate KnownCode(code: u32) {
    code == SIDX_CODE || code == MVEX_CODE || code == MEHD_CODE || code == TREX_CODE
  }

  /** The tag registry: a 4-character code to the box kind it names. */
  function BoxTypeOf(code: u32): (name: BoxType)
    ensures CodeOf(name) == code
    ensures name.UnknownType? <==> !KnownCode(code)
  {
    if code == SIDX_CODE then SidxType
    else if code == MVEX_CODE then MvexType
    else if code == MEHD_CODE then MehdType
    else if code == TREX_CODE then TrexType
    else UnknownType(code)
  }

  /** A box type that reads back as itself: an `UnknownType` must not carry a known code. */
  predicate Registered(name: BoxType) {
    name.UnknownType? ==> !KnownCode(name.code)
  }

  lemma BoxTypeRoundTrip(name: BoxType)
    ensures BoxTypeOf(CodeOf(name)) == name <==> Registered(name)
  {
  }

  // ---------------------------------------------------------------------
  // Big-endian integers (`write_uNN::<BigEndian>` / `read_uNN::<BigEndian>`)

  function Power256(n: nat): (p: nat)
    ensures p >= 1
  {
    if n == 0 then 1 else Power256(n - 1) * 0x100
  }

  /** The unsigned value of a byte string, most significant byte first. */
  function BigEndian(s: seq<u8>): (v: nat)
    ensures v < Power256(|s|)
    decreases |s|
  {
    if s == [] then 0 else BigEndian(s[..|s| - 1]) * 0x100 + s[|s| - 1]
  }

  /** The value of a concatenation: the first part shifted past the second. */
  lemma {:induction false} BigEndianAppend(a: seq<u8>, b: seq<u8>)
    ensures BigEndian(a + b) == BigEndian(a) * Power256(|b|) + BigEndian(b)
    decreases |b|
  {
    if b != [] {
      var last := b[|b| - 1];
      assert (a + b)[..|a + b| - 1] == a + b[..|b| - 1];
      BigEndianAppend(a, b[..|b| - 1]);
      ShiftIn(BigEndian(a), Power256(|b| - 1), BigEndian(b[..|b| - 1]), last);
    } else {
      assert a + b == a;
    }
  }

  lemma ShiftIn(high: int, p: int, low: int, last: int)
    ensures (high * p + low) * 0x100 + last == high * (p * 0x100) + (low * 0x100 + last)
  {
  }

  /** Splitting a value at bit 16 and at bit 32. */
  lemma DivModSplit16(high: nat, low: nat)
    requires low < 0x1_0000
    ensures (high * 0x1_0000 + low) / 0x1_0000 == high && (high * 0x1_0000 + low) % 0x1_0000 == low
  {
  }

  lemma DivModSplit32(high: nat, low: nat)
    requires low < 0x1_0000_0000
    ensures (high * 0x1_0000_0000 + low) / 0x1_0000_0000 == high
    ensures (high * 0x1_0000_0000 + low) % 0x1_0000_0000 == low
  {
  }

  lemma BigEndianPair(x: u8, y: u8)
    ensures BigEndian([x, y]) == x * 0x100 + y
  {
    assert [x, y][..1] == [x];
    assert [x][..0] == [];
  }

  function EncodeU16(x: u16): (s: seq<u8>)
    ensures |s| == 2
  {
    [x / 0x100, x % 0x100]
  }

  function DecodeU16(s: seq<u8>): (x: u16)
    requires |s| == 2
  {
    BigEndian(s)
  }

  /** `write_u24`: the three low bytes of a value below 2^24. */
  function EncodeU24(x: u32): (s: seq<u8>)
    requires x < 0x100_0000
    ensures |s| == 3
  {
    [x / 0x1_0000] + EncodeU16(x % 0x1_0000)
  }

  /** `read_u24` into a u32: always below 2^24. */
  function DecodeU24(s: seq<u8>): (x: u32)
    requires |s| == 3
    ensures x < 0x100_0000
  {
    BigEndian(s)
  }

  function EncodeU32(x: u32): (s: seq<u8>)
    ensures |s| == 4
  {
    EncodeU16(x / 0x1_0000) + EncodeU16(x % 0x1_0000)
  }

  function DecodeU32(s: seq<u8>): (x: u32)
    requires |s| == 4
  {
    BigEndian(s)
  }

  function EncodeU64(x: u64): (s: seq<u8>)
    ensures |s| == 8
  {
    EncodeU32(x / 0x1_0000_0000) + EncodeU32(x % 0x1_0000_0000)
  }

  function DecodeU64(s: seq<u8>): (x: u64)
    requires |s| == 8
  {
    BigEndian(s)
  }

  // Each encoder and its decoder are mutually inverse: decoding an encoding
  // gives the value back, and every group of bytes is the encoding of what it
  // decodes to.

  lemma DecodeEncodeU16(x: u16)
    ensures DecodeU16(EncodeU16(x)) == x
  {
    BigEndianPair(x / 0x100, x % 0x100);
  }

  lemma EncodeDecodeU16(s: seq<u8>)
    requires |s| == 2
    ensures EncodeU16(DecodeU16(s)) == s
  {
    assert s == [s[0], s[1]];
    BigEndianPair(s[0], s[1]);
  }

  lemma DecodeEncodeU24(x: u32)
    requires x < 0x100_0000
    ensures DecodeU24(EncodeU24(x)) == x
  {
    BigEndianAppend([x / 0x1_0000], EncodeU16(x % 0x1_0000));
    assert [x / 0x1_0000][..0] == [];
    DecodeEncodeU16(x % 0x1_0000);
  }

  lemma EncodeDecodeU24(s: seq<u8>)
    requires |s| == 3
    ensures EncodeU24(DecodeU24(s)) == s
  {
    assert s == [s[0]] + s[1..];
    BigEndianAppend([s[0]], s[1..]);
    assert [s[0]][..0] == [];
    DivModSplit16(s[0], BigEndian(s[1..]));
    EncodeDecodeU16(s[1..]);
  }

  lemma DecodeEncodeU32(x: u32)
    ensures DecodeU32(EncodeU32(x)) == x
  {
    BigEndianAppend(EncodeU16(x / 0x1_0000), EncodeU16(x % 0x1_0000));
    DecodeEncodeU16(x / 0x1_0000);
    DecodeEncodeU16(x % 0x1_0000);
  }

  lemma EncodeDecodeU32(s: seq<u8>)
    requires |s| == 4
    ensures EncodeU32(DecodeU32(s)) == s
  {
    assert s == s[..2] + s[2..];
    BigEndianAppend(s[..2], s[2..]);
    DivModSplit16(BigEndian(s[..2]), BigEndian(s[2..]));
    EncodeDecodeU16(s[..2]);
    EncodeDecodeU16(s[2..]);
  }

  lemma DecodeEncodeU64(x: u64)
    ensures DecodeU64(EncodeU64(x)) == x
  {
    BigEndianAppend(EncodeU32(x / 0x1_0000_0000), EncodeU32(x % 0x1_0000_0000));
    DecodeEncodeU32(x / 0x1_0000_0000);
    DecodeEncodeU32(x % 0x1_0000_0000);
  }

  lemma EncodeDecodeU64(s: seq<u8>)
    requires |s| == 8
    ensures EncodeU64(DecodeU64(s)) == s
  {
    assert s == s[..4] + s[4..];
    BigEndianAppend(s[..4], s[4..]);
    DivModSplit32(BigEndian(s[..4]), BigEndian(s[4..]));
    EncodeDecodeU32(s[..4]);
    EncodeDecodeU32(s[4..]);
  }

  // ---------------------------------------------------------------------
  // Sequence facts, stated once generically for the callers that need them.

  lemma AppendAssoc<T>(a: seq<T>, b: seq<T>, c: seq<T>)
    ensures (a + b) + c == a + (b + c)
  {
  }

  lemma AppendAssoc3<T>(a: seq<T>, b: seq<T>, c: seq<T>, d: seq<T>)
    ensures a + b + c + d == a + (b + c + d)
  {
  }

  lemma ConsTail<T>(s: seq<T>)
    requires |s| > 0
    ensures [s[0]] + s[1..] == s
  {
  }

  lemma TakeNext<T>(s: seq<T>, i: nat)
    requires i < |s|
    ensures s[..i + 1] == s[..i] + [s[i]]
  {
  }

  lemma TakeAll<T>(s: seq<T>)
    ensures s[..|s|] == s
  {
  }

  // ---------------------------------------------------------------------
  // Reading at a cursor. Each reader fails with `UnexpectedEof` exactly when
  // the bytes it needs are not all there; what it returns is the value whose
  // encoding lies at the cursor (the `...Bytes` lemmas below).

  /** `bytes` lies in `data` starting at `pos`. */
  predicate IsAt(data: seq<u8>, pos: nat, bytes: seq<u8>) {
    pos + |bytes| <= |data| && data[pos..pos + |bytes|] == bytes
  }

  lemma {:induction false} SplitAt(data: seq<u8>, pos: nat, a: seq<u8>, b: seq<u8>)
    requires IsAt(data, pos, a + b)
    ensures IsAt(data, pos, a) && IsAt(data, pos + |a|, b)
  {
    assert data[pos..pos + |a|] == (a + b)[..|a|];
    assert data[pos + |a|..pos + |a| + |b|] == (a + b)[|a|..];
  }

  lemma ConcatAt(a: seq<u8>, b: seq<u8>)
    ensures IsAt(a + b, 0, a) && IsAt(a + b, |a|, b)
  {
    assert (a + b)[0..|a|] == a;
    assert (a + b)[|a|..|a| + |b|] == b;
  }

  function ReadU8(data: seq<u8>, pos: nat): (r: Result<u8>)
    ensures r.Success? <==> pos + 1 <= |data|
    ensures r.Success? ==> IsAt(data, pos, [r.value])
  {
    if pos + 1 <= |data| then Success(data[pos]) else Failure(UnexpectedEof)
  }

  function ReadU16(data: seq<u8>, pos: nat): (r: Result<u16>)
    ensures r.Success? <==> pos + 2 <= |data|
  {
    if pos + 2 <= |data| then Success(DecodeU16(data[pos..pos + 2])) else Failure(UnexpectedEof)
  }

  function ReadU24(data: seq<u8>, pos: nat): (r: Result<u32>)
    ensures r.Success? <==> pos + 3 <= |data|
    ensures r.Success? ==> r.value < 0x100_0000
  {
    if pos + 3 <= |data| then Success(DecodeU24(data[pos..pos + 3])) else Failure(UnexpectedEof)
  }

  function ReadU32(data: seq<u8>, pos: nat): (r: Result<u32>)
    ensures r.Success? <==> pos + 4 <= |data|
  {
    if pos + 4 <= |data| then Success(DecodeU32(data[pos..pos + 4])) else Failure(UnexpectedEof)
  }

  function ReadU64(data: seq<u8>, pos: nat): (r: Result<u64>)
    ensures r.Success? <==> pos + 8 <= |data|
  {
    if pos + 8 <= |data| then Success(DecodeU64(data[pos..pos + 8])) else Failure(UnexpectedEof)
  }

  function ReadBytes(data: seq<u8>, pos: nat, n: nat): (r: Result<seq<u8>>)
    ensures r.Success? <==> pos + n <= |data|
    ensures r.Success? ==> |r.value| == n && IsAt(data, pos, r.value)
  {
    if pos + n <= |data| then Success(data[pos..pos + n]) else Failure(UnexpectedEof)
  }

  /** A value read is one whose encoding lies at the cursor. */
  lemma ReadU16Bytes(data: seq<u8>, pos: nat)
    requires ReadU16(data, pos).Success?
    ensures IsAt(data, pos, EncodeU16(ReadU16(data, pos).value))
  {
    EncodeDecodeU16(data[pos..pos + 2]);
  }

  lemma ReadU24Bytes(data: seq<u8>, pos: nat)
    requires ReadU24(data, pos).Success?
    ensures IsAt(data, pos, EncodeU24(ReadU24(data, pos).value))
  {
    EncodeDecodeU24(data[pos..pos + 3]);
  }

  lemma ReadU32Bytes(data: seq<u8>, pos: nat)
    requires ReadU32(data, pos).Success?
    ensures IsAt(data, pos, EncodeU32(ReadU32(data, pos).value))
  {
    EncodeDecodeU32(data[pos..pos + 4]);
  }

  lemma ReadU64Bytes(data: seq<u8>, pos: nat)
    requires ReadU64(data, pos).Success?
    ensures IsAt(data, pos, EncodeU64(ReadU64(data, pos).value))
  {
    EncodeDecodeU64(data[pos..pos + 8]);
  }

  /** Each reader returns exactly the value whose encoding lies at the cursor. */
  lemma ReadEncodedU16(data: seq<u8>, pos: nat, x: u16)
    requires IsAt(data, pos, EncodeU16(x))
    ensures ReadU16(data, pos) == Success(x)
  {
    DecodeEncodeU16(x);
  }

  lemma ReadEncodedU24(data: seq<u8>, pos: nat, x: u32)
    requires x < 0x100_0000 && IsAt(data, pos, EncodeU24(x))
    ensures ReadU24(data, pos) == Success(x)
  {
    DecodeEncodeU24(x);
  }

  lemma ReadEncodedU32(data: seq<u8>, pos: nat, x: u32)
    requires IsAt(data, pos, EncodeU32(x))
    ensures ReadU32(data, pos) == Success(x)
  {
    DecodeEncodeU32(x);
  }

  lemma ReadEncodedU64(data: seq<u8>, pos: nat, x: u64)
    requires IsAt(data, pos, EncodeU64(x))
    ensures ReadU64(data, pos) == Success(x)
  {
    DecodeEncodeU64(x);
  }

  // ---------------------------------------------------------------------
  // The box header

  datatype BoxHeader = BoxHeader(name: BoxType, size: nat)

  /** `BoxHeader::write` for the 32-bit size form. */
  function EncodeHeader(h: BoxHeader): (s: seq<u8>)
    requires h.size <= MAX_U32
    ensures |s| == HEADER_SIZE
  {
    EncodeU32(h.size) + EncodeU32(CodeOf(h.name))
  }

  /** `BoxHeader::read` for the 32-bit size form. A declared size smaller than
      the header itself is rejected as malformed, so that every box a reader
      steps over moves the cursor forward by at least HEADER_SIZE bytes. */
  function ReadHeader(data: seq<u8>, pos: nat): (r: Result<BoxHeader>)
    ensures r.Success? ==> pos + HEADER_SIZE <= |data|
    ensures r.Success? ==> HEADER_SIZE <= r.value.size <= MAX_U32 && Registered(r.value.name)
    ensures pos + HEADER_SIZE > |data| ==> r == Failure(UnexpectedEof)
  {
    if pos + HEADER_SIZE > |data| then Failure(UnexpectedEof)
    else
      var size := DecodeU32(data[pos..pos + 4]);
      var code := DecodeU32(data[pos + 4..pos + 8]);
      if size < HEADER_SIZE then Failure(InvalidData("box size is smaller than its header"))
      else Success(BoxHeader(BoxTypeOf(code), size))
  }

  /** A header read is one whose encoding lies at the cursor. */
  lemma ReadHeaderBytes(data: seq<u8>, pos: nat)
    requires ReadHeader(data, pos).Success?
    ensures IsAt(data, pos, EncodeHeader(ReadHeader(data, pos).value))
  {
    var bytes := data[pos..pos + HEADER_SIZE];
    assert bytes[..4] == data[pos..pos + 4] && bytes[4..] == data[pos + 4..pos + 8];
    EncodeDecodeU32(bytes[..4]);
    EncodeDecodeU32(bytes[4..]);
    assert bytes == bytes[..4] + bytes[4..];
  }

  /** Reading an encoded header gives back the header. */
  lemma {:induction false} ReadEncodedHeader(data: seq<u8>, pos: nat, h: BoxHeader)
    requires HEADER_SIZE <= h.size <= MAX_U32 && Registered(h.name)
    requires IsAt(data, pos, EncodeHeader(h))
    ensures ReadHeader(data, pos) == Success(h)
  {
    SplitAt(data, pos, EncodeU32(h.size), EncodeU32(CodeOf(h.name)));
    assert data[pos..pos + 4] == EncodeU32(h.size);
    assert data[pos + 4..pos + 8] == EncodeU32(CodeOf(h.name));
    DecodeEncodeU32(h.size);
    DecodeEncodeU32(CodeOf(h.name));
    BoxTypeRoundTrip(h.name);
  }
}
