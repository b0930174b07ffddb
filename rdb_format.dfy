/** The RDB snapshot format as redisimp/rdbparser.py reads it, written as
    functions of the file's bytes and a read position. Each function says
    what one read of the parser yields and where the file cursor stands
    afterwards; the imperative parser in module RdbParser is proved to
    compute exactly these. */
module RdbFormat {
  import opened Wrappers
  import PyStr

  type byte = bv8

  /** The two top bits of a length header select one of four schemes. */
  const RDB_6BITLEN: byte := 0
  const RDB_14BITLEN: byte := 1
  const RDB_32BITLEN: byte := 2
  const RDB_ENCVAL: byte := 3

  const OPCODE_EXPIRETIME_MS: byte := 252
  const OPCODE_EXPIRETIME: byte := 253
  const OPCODE_SELECTDB: byte := 254
  const OPCODE_EOF: byte := 255

  const TYPE_STRING: byte := 0
  const TYPE_LIST: byte := 1
  const TYPE_SET: byte := 2
  const TYPE_ZSET: byte := 3
  const TYPE_HASH: byte := 4
  const TYPE_HASH_ZIPMAP: byte := 9
  const TYPE_LIST_ZIPLIST: byte := 10
  const TYPE_SET_INTSET: byte := 11
  const TYPE_ZSET_ZIPLIST: byte := 12
  const TYPE_HASH_ZIPLIST: byte := 13

  /** Encodings of a string whose length header has the "encoded" flag. */
  const ENC_INT8: nat := 0
  const ENC_INT16: nat := 1
  const ENC_INT32: nat := 2
  const ENC_LZF: nat := 3

  /** "REDIS" */
  const MAGIC: seq<byte> := [0x52, 0x45, 0x44, 0x49, 0x53]
  const MIN_VERSION: int := 1
  const MAX_VERSION: int := 7
  /** RDB version 6 as two little-endian bytes, the footer of every payload. */
  const VERSION_FOOTER: seq<byte> := [0x06, 0x00]

  /** The exceptions the parser raises. */
  datatype RdbError =
    | InvalidFileFormat                                 // magic string is not "REDIS"
    | VersionNotANumber(text: seq<byte>)                // int() of the version text fails
    | InvalidVersion(version: int)                      // version outside 1..7
    | Truncated                                         // struct.unpack on a short read
    | InvalidObjectType(objType: byte, key: seq<byte>)  // type byte outside the table

  /** A value read from the file and the position of the cursor after it. */
  datatype Cursor<T> = Cursor(value: T, next: nat)

  function Min(a: nat, b: nat): nat { if a <= b then a else b }

  /** f.read(n): up to n bytes; fewer only when the file ends first, and
      then every byte that is left. */
  function ReadAt(data: seq<byte>, pos: nat, n: nat): (r: Cursor<seq<byte>>)
    requires pos <= |data|
    ensures pos <= r.next <= |data| && r.value == data[pos..r.next]
    ensures |r.value| == n <==> pos + n <= |data|
    ensures pos + n > |data| ==> r.next == |data|
  {
    var end := Min(pos + n, |data|);
    Cursor(data[pos..end], end)
  }

  /** struct.unpack('I', ...) on a little-endian host. */
  function Le32(b: seq<byte>): bv32
    requires |b| == 4
  {
    (b[0] as bv32) | (b[1] as bv32 << 8) | (b[2] as bv32 << 16) | (b[3] as bv32 << 24)
  }

  /** The same four bytes read most significant first. */
  function Be32(b: seq<byte>): bv32
    requires |b| == 4
  {
    (b[3] as bv32) | (b[2] as bv32 << 8) | (b[1] as bv32 << 16) | (b[0] as bv32 << 24)
  }

  /** struct.unpack('Q', ...) on a little-endian host. */
  function Le64(b: seq<byte>): bv64
    requires |b| == 8
  {
    (b[0] as bv64) | (b[1] as bv64 << 8) | (b[2] as bv64 << 16) | (b[3] as bv64 << 24) |
    (b[4] as bv64 << 32) | (b[5] as bv64 << 40) | (b[6] as bv64 << 48) | (b[7] as bv64 << 56)
  }

  /** struct.pack('<Q', v). */
  function Le64Bytes(v: bv64): (b: seq<byte>)
    ensures |b| == 8
  {
    [(v & 0xFF) as byte, ((v >> 8) & 0xFF) as byte, ((v >> 16) & 0xFF) as byte,
     ((v >> 24) & 0xFF) as byte, ((v >> 32) & 0xFF) as byte, ((v >> 40) & 0xFF) as byte,
     ((v >> 48) & 0xFF) as byte, ((v >> 56) & 0xFF) as byte]
  }

  /** The eight bytes packed for a checksum unpack to that checksum. */
  lemma Le64RoundTrip(v: bv64)
    ensures Le64(Le64Bytes(v)) == v
  {
  }

  /** The mask-and-shift byte swap of ntohl. */
  function ByteSwap32(v: bv32): bv32 {
    var swapped: bv32 := 0;
    var swapped := swapped | ((v & 0x0000_00FF) << 24);
    var swapped := swapped | ((v & 0xFF00_0000) >> 24);
    var swapped := swapped | ((v & 0x0000_FF00) << 8);
    swapped | ((v & 0x00FF_0000) >> 8)
  }

  /** Swapping twice gives back the original value. */
  lemma ByteSwapInvolution(v: bv32)
    ensures ByteSwap32(ByteSwap32(v)) == v
  {
  }

  /** ntohl of a little-endian read is the big-endian reading of the bytes. */
  lemma ByteSwapReadsBigEndian(b: seq<byte>)
    requires |b| == 4
    ensures ByteSwap32(Le32(b)) == Be32(b)
  {
  }

  /** read_unsigned_char */
  function UnsignedCharAt(data: seq<byte>, pos: nat): (r: Result<Cursor<byte>, RdbError>)
    requires pos <= |data|
    ensures r.Success? <==> pos < |data|
    ensures r.Success? ==> r == Success(Cursor(data[pos], pos + 1))
    ensures r.Failure? ==> r.error == Truncated
  {
    var raw := ReadAt(data, pos, 1);
    if |raw.value| < 1 then Failure(Truncated) else Success(Cursor(raw.value[0], raw.next))
  }

  /** read_unsigned_int */
  function UnsignedIntAt(data: seq<byte>, pos: nat): (r: Result<Cursor<bv32>, RdbError>)
    requires pos <= |data|
    ensures r.Success? <==> pos + 4 <= |data|
    ensures r.Success? ==> r == Success(Cursor(Le32(data[pos..pos + 4]), pos + 4))
    ensures r.Failure? ==> r.error == Truncated
  {
    var raw := ReadAt(data, pos, 4);
    if |raw.value| < 4 then Failure(Truncated) else Success(Cursor(Le32(raw.value), raw.next))
  }

  /** read_unsigned_long */
  function UnsignedLongAt(data: seq<byte>, pos: nat): (r: Result<Cursor<bv64>, RdbError>)
    requires pos <= |data|
    ensures r.Success? <==> pos + 8 <= |data|
    ensures r.Success? ==> r == Success(Cursor(Le64(data[pos..pos + 8]), pos + 8))
    ensures r.Failure? ==> r.error == Truncated
  {
    var raw := ReadAt(data, pos, 8);
    if |raw.value| < 8 then Failure(Truncated) else Success(Cursor(Le64(raw.value), raw.next))
  }

  /** A decoded length header: the number and whether it is an encoding tag. */
  datatype Length = Length(len: nat, encoded: bool)

  /** Bytes a length header occupies, by the top two bits of its lead byte. */
  function LengthWidth(lead: byte): nat {
    var scheme := lead >> 6;
    if scheme == 1 then 2 else if scheme == 2 then 5 else 1
  }

  /** The low six bits of a length header's lead byte. */
  function Low6(b0: byte): nat {
    (b0 & 0x3F) as nat
  }

  /** A 14-bit length: the low six bits of the lead byte, then the next byte. */
  function Len14(b0: byte, b1: byte): nat {
    (((b0 & 0x3F) as bv16 << 8) | b1 as bv16) as nat
  }

  /** read_length_with_encoding: the header's scheme is the top two bits of
      its lead byte; 00 and 11 keep the low six bits (11 flags an encoded
      string), 01 adds a second byte, 10 reads a 32-bit value through ntohl. */
  function LengthAt(data: seq<byte>, pos: nat): (r: Result<Cursor<Length>, RdbError>)
    requires pos <= |data|
    ensures r.Success? <==> pos < |data| && pos + LengthWidth(data[pos]) <= |data|
    ensures r.Success? ==> r.value.next == pos + LengthWidth(data[pos])
    ensures r.Success? ==> (r.value.value.encoded <==> data[pos] >> 6 == RDB_ENCVAL)
    ensures r.Failure? ==> r.error == Truncated
  {
    var lead :- UnsignedCharAt(data, pos);
    var b0 := lead.value;
    var encType := (b0 & 0xC0) >> 6;
    if encType == RDB_ENCVAL then
      Success(Cursor(Length(Low6(b0), true), lead.next))
    else if encType == RDB_6BITLEN then
      Success(Cursor(Length(Low6(b0), false), lead.next))
    else if encType == RDB_14BITLEN then
      var low :- UnsignedCharAt(data, lead.next);
      Success(Cursor(Length(Len14(b0, low.value), false), low.next))
    else
      var raw :- UnsignedIntAt(data, lead.next);
      Success(Cursor(Length(ByteSwap32(raw.value) as nat, false), raw.next))
  }

  /** The value each scheme decodes; the 32-bit scheme reads big-endian. */
  lemma LengthSchemes(data: seq<byte>, pos: nat)
    requires pos < |data| && LengthAt(data, pos).Success?
    ensures var b0 := data[pos];
      var h := LengthAt(data, pos).value.value;
      && (b0 >> 6 == RDB_6BITLEN ==> h == Length(Low6(b0), false))
      && (b0 >> 6 == RDB_ENCVAL ==> h == Length(Low6(b0), true))
      && (b0 >> 6 == RDB_14BITLEN ==>
            h == Length(Len14(b0, data[pos + 1]), false))
      && (b0 >> 6 == RDB_32BITLEN ==> h == Length(Be32(data[pos + 1..pos + 5]) as nat, false))
  {
    if data[pos] >> 6 == RDB_32BITLEN {
      ByteSwapReadsBigEndian(data[pos + 1..pos + 5]);
    }
  }

  /** The number of raw bytes read_string reads after its length header(s),
      and the position they start at: 1, 2 or 4 for an encoded integer, the
      compressed length for an LZF block (after its two lengths), none for
      any other encoding tag, and the length itself for a plain string. */
  function StringBodyAt(data: seq<byte>, pos: nat): (r: Result<Cursor<nat>, RdbError>)
    requires pos <= |data|
    ensures r.Success? ==> pos < r.value.next <= |data|
    ensures r.Failure? ==> r.error == Truncated
  {
    var h :- LengthAt(data, pos);
    if h.value.encoded then
      if h.value.len == ENC_INT8 then Success(Cursor(1, h.next))
      else if h.value.len == ENC_INT16 then Success(Cursor(2, h.next))
      else if h.value.len == ENC_INT32 then Success(Cursor(4, h.next))
      else if h.value.len == ENC_LZF then
        var clen :- LengthAt(data, h.next);
        var ulen :- LengthAt(data, clen.next);
        Success(Cursor(clen.value.len, ulen.next))
      else Success(Cursor(0, h.next))
    else
      Success(Cursor(h.value.len, h.next))
  }

  /** How many bytes each form of string has read_string read, and from
      where: the length itself for a plain string, 1, 2 or 4 for an encoded
      8, 16 or 32-bit integer, no bytes for an unknown encoding tag, and for
      an LZF block the compressed length, read after both of its lengths. */
  lemma StringForms(data: seq<byte>, pos: nat)
    requires pos <= |data| && LengthAt(data, pos).Success?
    ensures var h := LengthAt(data, pos).value;
      && (!h.value.encoded ==> StringBodyAt(data, pos) == Success(Cursor(h.value.len, h.next)))
      && (h.value.encoded && h.value.len == ENC_INT8 ==> StringBodyAt(data, pos) == Success(Cursor(1, h.next)))
      && (h.value.encoded && h.value.len == ENC_INT16 ==> StringBodyAt(data, pos) == Success(Cursor(2, h.next)))
      && (h.value.encoded && h.value.len == ENC_INT32 ==> StringBodyAt(data, pos) == Success(Cursor(4, h.next)))
      && (h.value.encoded && h.value.len > ENC_LZF ==> StringBodyAt(data, pos) == Success(Cursor(0, h.next)))
    ensures var h := LengthAt(data, pos).value;
      h.value.encoded && h.value.len == ENC_LZF && StringBodyAt(data, pos).Success? ==>
        && LengthAt(data, h.next).Success?
        && LengthAt(data, LengthAt(data, h.next).value.next).Success?
        && StringBodyAt(data, pos) == Success(Cursor(LengthAt(data, h.next).value.value.len,
                                                     LengthAt(data, LengthAt(data, h.next).value.next).value.next))
  {
  }

  /** read_string: the raw bytes after the header(s), never decompressed;
      fewer only where the file ends. */
  function StringAt(data: seq<byte>, pos: nat): (r: Result<Cursor<seq<byte>>, RdbError>)
    requires pos <= |data|
    ensures r.Success? <==> StringBodyAt(data, pos).Success?
    ensures r.Success? ==> pos < r.value.next <= |data|
    ensures r.Success? ==> var body := StringBodyAt(data, pos).value;
      && body.next <= r.value.next <= |data|
      && r.value.value == data[body.next..r.value.next]
      && |r.value.value| == Min(body.value, |data| - body.next)
    ensures r.Failure? ==> r.error == Truncated
  {
    var body :- StringBodyAt(data, pos);
    Success(ReadAt(data, body.next, body.value))
  }

  /** Reads count strings in a row; the position after the last. */
  function SkipStringsAt(data: seq<byte>, pos: nat, count: nat): (r: Result<nat, RdbError>)
    requires pos <= |data|
    ensures r.Success? ==> pos <= r.value <= |data|
    ensures r.Success? && count > 0 ==> pos < r.value
    ensures r.Failure? ==> r.error == Truncated
    decreases count
  {
    if count == 0 then Success(pos)
    else
      var s :- StringAt(data, pos);
      SkipStringsAt(data, s.next, count - 1)
  }

  /** How a value's strings are counted: one string, or a length N read
      first and then N times stringsPerElement strings. */
  datatype ValueShape = Scalar | Counted(stringsPerElement: nat)

  /** read_object's closed dispatch table over the type byte. */
  function ShapeOf(t: byte): (r: Option<ValueShape>)
    ensures r == Some(Scalar) <==> t in {0, 9, 10, 11, 12, 13}
    ensures r == Some(Counted(1)) <==> t in {1, 2}
    ensures r == Some(Counted(2)) <==> t in {3, 4}
    ensures r.None? <==> t !in {0, 1, 2, 3, 4, 9, 10, 11, 12, 13}
  {
    if t == TYPE_STRING then Some(Scalar)
    else if t == TYPE_LIST then Some(Counted(1))
    else if t == TYPE_SET then Some(Counted(1))
    else if t == TYPE_ZSET then Some(Counted(2))
    else if t == TYPE_HASH then Some(Counted(2))
    else if t == TYPE_HASH_ZIPMAP then Some(Scalar)
    else if t == TYPE_LIST_ZIPLIST then Some(Scalar)
    else if t == TYPE_SET_INTSET then Some(Scalar)
    else if t == TYPE_ZSET_ZIPLIST then Some(Scalar)
    else if t == TYPE_HASH_ZIPLIST then Some(Scalar)
    else None
  }

  /** read_object's dispatch: how many strings make up a value of type t
      and where the first starts; one for a single-string encoding, a
      length N read first and then N times stringsPerElement for the other
      types. A type byte outside the table fails naming the type and the key. */
  function StringCountAt(data: seq<byte>, pos: nat, t: byte, key: seq<byte>): (r: Result<Cursor<nat>, RdbError>)
    requires pos <= |data|
    ensures r.Success? ==> pos <= r.value.next <= |data|
    ensures r.Success? ==> pos < r.value.next || r.value.value > 0
    ensures ShapeOf(t).None? ==> r == Failure(InvalidObjectType(t, key))
    ensures ShapeOf(t).Some? && r.Failure? ==> r.error == Truncated
  {
    match ShapeOf(t)
    case None => Failure(InvalidObjectType(t, key))
    case Some(Scalar) => Success(Cursor(1, pos))
    case Some(Counted(k)) =>
      var n :- LengthAt(data, pos);
      Success(Cursor(n.value.len * k, n.next))
  }

  /** The number of strings of each type: one for a string or a
      single-blob encoding, N for a list or a set, 2N for a sorted set or a
      hash, N being the length read first. */
  lemma CountForms(data: seq<byte>, pos: nat, t: byte, key: seq<byte>)
    requires pos <= |data|
    ensures t in {0, 9, 10, 11, 12, 13} ==> StringCountAt(data, pos, t, key) == Success(Cursor(1, pos))
    ensures t in {1, 2} && LengthAt(data, pos).Success? ==>
      StringCountAt(data, pos, t, key) == Success(Cursor(LengthAt(data, pos).value.value.len, LengthAt(data, pos).value.next))
    ensures t in {3, 4} && LengthAt(data, pos).Success? ==>
      && StringCountAt(data, pos, t, key).Success?
      && StringCountAt(data, pos, t, key).value.value == 2 * LengthAt(data, pos).value.value.len
      && StringCountAt(data, pos, t, key).value.next == LengthAt(data, pos).value.next
  {
  }

  /** Where the body of a value of type t that starts at pos ends. */
  function ValueEndAt(data: seq<byte>, pos: nat, t: byte, key: seq<byte>): (r: Result<nat, RdbError>)
    requires pos <= |data|
    ensures r.Success? ==> pos < r.value <= |data|
    ensures ShapeOf(t).None? ==> r == Failure(InvalidObjectType(t, key))
    ensures ShapeOf(t).Some? && r.Failure? ==> r.error == Truncated
  {
    var count :- StringCountAt(data, pos, t, key);
    SkipStringsAt(data, count.next, count.value)
  }

  /** The DUMP payload of read_object: the type byte, the value's bytes
      exactly as read, the version footer, then the little-endian CRC-64 of
      everything before it. */
  function Payload(t: byte, body: seq<byte>, crc64: seq<byte> -> bv64): seq<byte> {
    var prefix := [t] + body + VERSION_FOOTER;
    prefix + Le64Bytes(crc64(prefix))
  }

  /** A well-formed payload: at least the 11 framing bytes, a type byte from
      the table, the footer, and a trailer holding the CRC-64 of the rest. */
  predicate IsPayload(p: seq<byte>, crc64: seq<byte> -> bv64) {
    && |p| >= 11
    && ShapeOf(p[0]).Some?
    && p[|p| - 10..|p| - 8] == VERSION_FOOTER
    && Le64(p[|p| - 8..]) == crc64(p[..|p| - 8])
  }

  lemma PayloadLayout(t: byte, body: seq<byte>, crc64: seq<byte> -> bv64)
    ensures var p := Payload(t, body, crc64);
      && |p| == |body| + 11
      && p[0] == t
      && p[1..|body| + 1] == body
      && p[|body| + 1..|body| + 3] == VERSION_FOOTER
      && Le64(p[|body| + 3..]) == crc64(p[..|body| + 3])
  {
    var prefix := [t] + body + VERSION_FOOTER;
    var p := Payload(t, body, crc64);
    assert p[..|body| + 3] == prefix;
    assert p[|body| + 3..] == Le64Bytes(crc64(prefix));
    Le64RoundTrip(crc64(prefix));
  }

  datatype Entry = Entry(key: seq<byte>, payload: seq<byte>, ttl: nat)

  /** What one turn of the parse loop finds. */
  datatype Record = EndOfFile | SelectDb | KeyValue(entry: Entry)

  /** `self._pttl or 0` */
  function TtlOrZero(pttl: Option<nat>): nat {
    if pttl.None? then 0 else pttl.value
  }

  /** The opcode, and when it is an expiry the expiry and the type byte
      that follows it: 252 reads 8 bytes of milliseconds, 253 reads 4 bytes
      of seconds and multiplies by 1000. */
  function TypeByteAt(data: seq<byte>, pos: nat): (r: Result<Cursor<(Option<nat>, byte)>, RdbError>)
    requires pos <= |data|
    ensures r.Success? ==> pos < r.value.next <= |data|
    ensures r.Failure? ==> r.error == Truncated
  {
    var op :- UnsignedCharAt(data, pos);
    if op.value == OPCODE_EXPIRETIME_MS then
      var ms :- UnsignedLongAt(data, op.next);
      var t :- UnsignedCharAt(data, ms.next);
      Success(Cursor((Some(ms.value as nat), t.value), t.next))
    else if op.value == OPCODE_EXPIRETIME then
      var s :- UnsignedIntAt(data, op.next);
      var t :- UnsignedCharAt(data, s.next);
      Success(Cursor((Some(s.value as nat * 1000), t.value), t.next))
    else
      Success(Cursor((None, op.value), op.next))
  }

  /** One turn of the parse loop starting at pos: SELECTDB skips one length,
      EOF ends the file, any other type byte is a key and its value. The
      expiry read in this turn belongs to this turn's key only. */
  function RecordAt(data: seq<byte>, pos: nat, crc64: seq<byte> -> bv64): (r: Result<Cursor<Record>, RdbError>)
    requires pos <= |data|
    ensures r.Success? ==> pos < r.value.next <= |data|
  {
    var head :- TypeByteAt(data, pos);
    var (pttl, t) := head.value;
    if t == OPCODE_SELECTDB then
      var n :- LengthAt(data, head.next);
      Success(Cursor(SelectDb, n.next))
    else if t == OPCODE_EOF then
      Success(Cursor(EndOfFile, head.next))
    else
      var key :- StringAt(data, head.next);
      var end :- ValueEndAt(data, key.next, t, key.value);
      Success(Cursor(KeyValue(Entry(key.value, Payload(t, data[key.next..end], crc64), TtlOrZero(pttl))), end))
  }

  /** The outcome of a parse: the entries yielded, in file order, and the
      exception that ended it, if any. */
  datatype Parsed = Parsed(entries: seq<Entry>, failure: Option<RdbError>)

  /** The parse loop from pos on; an entry is kept when filter accepts its key. */
  function ParseEntries(data: seq<byte>, pos: nat, filter: seq<byte> -> bool,
                        crc64: seq<byte> -> bv64): Parsed
    requires pos <= |data|
    decreases |data| - pos
  {
    match RecordAt(data, pos, crc64)
    case Failure(e) => Parsed([], Some(e))
    case Success(c) =>
      match c.value
      case EndOfFile => Parsed([], None)
      case SelectDb => ParseEntries(data, c.next, filter, crc64)
      case KeyValue(e) =>
        var rest := ParseEntries(data, c.next, filter, crc64);
        if filter(e.key) then Parsed([e] + rest.entries, rest.failure) else rest
  }

  /** Bytes as the str Python compares and converts them as. */
  function AsText(b: seq<byte>): string {
    seq(|b|, i requires 0 <= i < |b| => (b[i] as int) as char)
  }

  /** verify_magic_string */
  function VerifyMagicString(magic: seq<byte>): (r: Option<RdbError>)
    ensures r.None? <==> magic == MAGIC
  {
    if magic != MAGIC then Some(InvalidFileFormat) else None
  }

  /** verify_version */
  function VerifyVersion(text: seq<byte>): (r: Option<RdbError>)
    ensures r.None? <==>
      var v := PyStr.ParseIntPy2(AsText(text)); v.Some? && MIN_VERSION <= v.value <= MAX_VERSION
  {
    match PyStr.ParseIntPy2(AsText(text))
    case None => Some(VersionNotANumber(text))
    case Some(version) =>
      if version < MIN_VERSION || version > MAX_VERSION then Some(InvalidVersion(version)) else None
  }

  /** RdbParser.parse on a file holding data. */
  function ParseRdb(data: seq<byte>, filter: seq<byte> -> bool, crc64: seq<byte> -> bv64): Parsed {
    var magic := ReadAt(data, 0, 5);
    match VerifyMagicString(magic.value)
    case Some(e) => Parsed([], Some(e))
    case None =>
      var version := ReadAt(data, magic.next, 4);
      match VerifyVersion(version.value)
      case Some(e) => Parsed([], Some(e))
      case None => ParseEntries(data, version.next, filter, crc64)
  }

  /** The file starts with "REDIS" and a version text int() reads as 1..7. */
  predicate HeaderValid(data: seq<byte>) {
    && |data| >= 5 && data[..5] == MAGIC
    && var v := PyStr.ParseIntPy2(AsText(data[5..Min(9, |data|)]));
       v.Some? && MIN_VERSION <= v.value <= MAX_VERSION
  }

  /** Parsing fails before any entry unless the header is valid, and with a
      valid header it is the opcode loop from the end of the header. */
  lemma HeaderCheck(data: seq<byte>, filter: seq<byte> -> bool, crc64: seq<byte> -> bv64)
    ensures !HeaderValid(data) ==>
      ParseRdb(data, filter, crc64).entries == [] && ParseRdb(data, filter, crc64).failure.Some?
    ensures HeaderValid(data) ==>
      ParseRdb(data, filter, crc64) == ParseEntries(data, Min(9, |data|), filter, crc64)
  {
    var magic := ReadAt(data, 0, 5);
    if |data| >= 5 {
      assert magic.next == 5 && magic.value == data[..5];
      var version := ReadAt(data, 5, 4);
      assert version.next == Min(9, |data|);
      assert version.value == data[5..Min(9, |data|)];
    } else {
      assert |magic.value| != |MAGIC|;
    }
  }

  /** The filter RdbParser uses when none is given. */
  function MatchAll(key: seq<byte>): bool { true }

  /** The entries whose key filter accepts, in their order. */
  function Keep(entries: seq<Entry>, filter: seq<byte> -> bool): seq<Entry> {
    if entries == [] then []
    else (if filter(entries[0].key) then [entries[0]] else []) + Keep(entries[1..], filter)
  }

  /** The filter decides only which entries are yielded: the entries are
      those of an unfiltered parse that it accepts, in the same order, and
      the parse ends the same way. */
  lemma {:induction false} FilterOnlyDrops(data: seq<byte>, pos: nat, filter: seq<byte> -> bool,
                                           crc64: seq<byte> -> bv64)
    requires pos <= |data|
    ensures var all := ParseEntries(data, pos, MatchAll, crc64);
      ParseEntries(data, pos, filter, crc64) == Parsed(Keep(all.entries, filter), all.failure)
    decreases |data| - pos
  {
    match RecordAt(data, pos, crc64)
    case Failure(_) =>
    case Success(c) =>
      if c.value != EndOfFile {
        FilterOnlyDrops(data, c.next, filter, crc64);
      }
  }

  /** A key and value record carries a well-formed payload whose body is
      exactly the bytes from the end of its key to the end of the record. */
  lemma RecordPayload(data: seq<byte>, pos: nat, crc64: seq<byte> -> bv64)
    requires pos <= |data|
    requires RecordAt(data, pos, crc64).Success? && RecordAt(data, pos, crc64).value.value.KeyValue?
    ensures IsPayload(RecordAt(data, pos, crc64).value.value.entry.payload, crc64)
    ensures TypeByteAt(data, pos).Success? && StringAt(data, TypeByteAt(data, pos).value.next).Success?
    ensures RecordPayloadIs(data, pos, crc64, TypeByteAt(data, pos).value,
                            StringAt(data, TypeByteAt(data, pos).value.next).value)
  {
    var head := TypeByteAt(data, pos).value;
    var t := head.value.1;
    var key := StringAt(data, head.next).value;
    var end := ValueEndAt(data, key.next, t, key.value).value;
    PayloadWellFormed(t, data[key.next..end], crc64);
  }

  /** A payload of a known type byte is well formed, whatever its body. */
  lemma PayloadWellFormed(t: byte, body: seq<byte>, crc64: seq<byte> -> bv64)
    requires ShapeOf(t).Some?
    ensures IsPayload(Payload(t, body, crc64), crc64)
  {
    PayloadLayout(t, body, crc64);
    var p := Payload(t, body, crc64);
    assert p[|p| - 10..|p| - 8] == p[|body| + 1..|body| + 3];
  }

  /** The record at pos has the key read after its type byte, and its
      payload wraps the bytes from the end of that key to the end of the
      record. */
  predicate RecordPayloadIs(data: seq<byte>, pos: nat, crc64: seq<byte> -> bv64,
                            head: Cursor<(Option<nat>, byte)>, key: Cursor<seq<byte>>)
    requires pos <= |data| && RecordAt(data, pos, crc64).Success?
  {
    var c := RecordAt(data, pos, crc64).value;
    && c.value.KeyValue?
    && key.next <= c.next <= |data|
    && c.value.entry.key == key.value
    && c.value.entry.payload == Payload(head.value.1, data[key.next..c.next], crc64)
  }

  /** Every yielded entry passed the filter and carries a well-formed payload. */
  lemma {:induction false} EntriesWellFormed(data: seq<byte>, pos: nat, filter: seq<byte> -> bool,
                                             crc64: seq<byte> -> bv64)
    requires pos <= |data|
    ensures forall e :: e in ParseEntries(data, pos, filter, crc64).entries ==>
      filter(e.key) && IsPayload(e.payload, crc64)
    decreases |data| - pos
  {
    match RecordAt(data, pos, crc64)
    case Failure(_) =>
    case Success(c) =>
      if c.value != EndOfFile {
        EntriesWellFormed(data, c.next, filter, crc64);
        if c.value.KeyValue? {
          RecordPayload(data, pos, crc64);
        }
      }
  }

  /** EOF ends the parse with nothing more yielded. */
  lemma RecordEndOfFile(data: seq<byte>, pos: nat, crc64: seq<byte> -> bv64)
    requires pos < |data| && data[pos] == OPCODE_EOF
    ensures RecordAt(data, pos, crc64) == Success(Cursor(EndOfFile, pos + 1))
    ensures ParseEntries(data, pos, MatchAll, crc64) == Parsed([], None)
  {
  }

  /** SELECTDB yields nothing and skips exactly one length header. */
  lemma RecordSelectDb(data: seq<byte>, pos: nat, crc64: seq<byte> -> bv64)
    requires pos < |data| && data[pos] == OPCODE_SELECTDB && RecordAt(data, pos, crc64).Success?
    ensures RecordAt(data, pos, crc64).value.value == SelectDb
    ensures RecordAt(data, pos, crc64).value.next == pos + 1 + LengthWidth(data[pos + 1])
  {
  }

  /** A SELECTDB record followed by EOF ends the parse cleanly with
      nothing yielded, whatever the filter. */
  lemma SelectDbThenEof(data: seq<byte>, pos: nat, filter: seq<byte> -> bool, crc64: seq<byte> -> bv64)
    requires pos + 1 < |data| && data[pos] == OPCODE_SELECTDB
    requires pos + 1 + LengthWidth(data[pos + 1]) < |data| && data[pos + 1 + LengthWidth(data[pos + 1])] == OPCODE_EOF
    ensures ParseEntries(data, pos, filter, crc64) == Parsed([], None)
  {
    var next := pos + 1 + LengthWidth(data[pos + 1]);
    assert RecordAt(data, pos, crc64) == Success(Cursor(SelectDb, next));
    RecordEndOfFile(data, next, crc64);
  }

  /** A record with no expiry opcode is a key whose TTL is 0 and whose
      payload starts with the record's own type byte. */
  lemma RecordWithoutExpiry(data: seq<byte>, pos: nat, crc64: seq<byte> -> bv64)
    requires pos < |data| && data[pos] < OPCODE_EXPIRETIME_MS && RecordAt(data, pos, crc64).Success?
    ensures var rec := RecordAt(data, pos, crc64).value.value;
      rec.KeyValue? && rec.entry.ttl == 0 && rec.entry.payload[0] == data[pos]
  {
  }

  /** EXPIRETIME_MS: eight little-endian bytes of milliseconds, then the type. */
  lemma RecordExpiryMs(data: seq<byte>, pos: nat, crc64: seq<byte> -> bv64)
    requires pos < |data| && data[pos] == OPCODE_EXPIRETIME_MS
    requires RecordAt(data, pos, crc64).Success? && RecordAt(data, pos, crc64).value.value.KeyValue?
    ensures var e := RecordAt(data, pos, crc64).value.value.entry;
      pos + 10 <= |data| && e.ttl == Le64(data[pos + 1..pos + 9]) as nat && e.payload[0] == data[pos + 9]
  {
  }

  /** EXPIRETIME: four little-endian bytes of seconds, kept as milliseconds. */
  lemma RecordExpirySeconds(data: seq<byte>, pos: nat, crc64: seq<byte> -> bv64)
    requires pos < |data| && data[pos] == OPCODE_EXPIRETIME
    requires RecordAt(data, pos, crc64).Success? && RecordAt(data, pos, crc64).value.value.KeyValue?
    ensures var e := RecordAt(data, pos, crc64).value.value.entry;
      pos + 6 <= |data| && e.ttl == Le32(data[pos + 1..pos + 5]) as nat * 1000 && e.payload[0] == data[pos + 5]
  {
  }

  /** One turn of the loop: a failed turn or EOF is the last, SELECTDB
      yields nothing, and a key is yielded when the filter accepts it. */
  lemma ParseStep(data: seq<byte>, pos: nat, filter: seq<byte> -> bool, crc64: seq<byte> -> bv64)
    requires pos <= |data|
    ensures match RecordAt(data, pos, crc64)
      case Failure(e) => ParseEntries(data, pos, filter, crc64) == Parsed([], Some(e))
      case Success(c) =>
        var rest := ParseEntries(data, c.next, filter, crc64);
        match c.value
        case EndOfFile => ParseEntries(data, pos, filter, crc64) == Parsed([], None)
        case SelectDb => ParseEntries(data, pos, filter, crc64) == rest
        case KeyValue(e) =>
          var kept := if filter(e.key) then Parsed([e] + rest.entries, rest.failure) else rest;
          ParseEntries(data, pos, filter, crc64) == kept
  {
  }

  /** Past a header that passes both checks, the parse is the loop from the
      position the two reads left the file at. */
  lemma ParseAfterHeader(data: seq<byte>, filter: seq<byte> -> bool, crc64: seq<byte> -> bv64,
                         magic: seq<byte>, afterMagic: nat, version: seq<byte>, afterVersion: nat)
    requires Cursor(magic, afterMagic) == ReadAt(data, 0, 5) && afterMagic <= |data|
    requires Cursor(version, afterVersion) == ReadAt(data, afterMagic, 4)
    requires VerifyMagicString(magic).None? && VerifyVersion(version).None?
    ensures ParseRdb(data, filter, crc64) == ParseEntries(data, afterVersion, filter, crc64)
  {
  }
}
