/** redisimp/rdbparser.py as it runs: an open file whose cursor every read
    advances, the `out` list that read_object hands down so that every byte
    read for a value is appended to it, and the RdbParser object whose
    key/pttl/value fields the parse loop resets and sets. Each method is
    proved to compute what the corresponding RdbFormat function says. */
module RdbParser {
  import opened Wrappers
  import opened RdbFormat

  /** An open file: its bytes and the cursor that reads advance. */
  class ByteFile {
    const data: seq<byte>
    var pos: nat

    ghost predicate Valid()
      reads this
    {
      pos <= |data|
    }

    constructor Open(contents: seq<byte>)
      ensures Valid() && data == contents && pos == 0
    {
      data := contents;
      pos := 0;
    }

    /** f.read(n): at most n bytes, fewer at the end of the file. */
    method Read(n: nat) returns (buf: seq<byte>)
      requires Valid()
      modifies this
      ensures Valid()
      ensures Cursor(buf, pos) == ReadAt(data, old(pos), n)
    {
      var end := Min(pos + n, |data|);
      buf := data[pos..end];
      pos := end;
    }
  }

  /** The `out` list of chunks read on behalf of one value; since the
      parser only ever joins it, it is kept joined. */
  class OutBuffer {
    var bytes: seq<byte>

    constructor (first: seq<byte>)
      ensures bytes == first
    {
      bytes := first;
    }

    method Append(chunk: seq<byte>)
      modifies this
      ensures bytes == old(bytes) + chunk
    {
      bytes := bytes + chunk;
    }
  }

  /** r is what the parser returns for a read whose specification is spec,
      and pos is where the cursor then stands. */
  predicate Reads<T(==)>(r: Result<T, RdbError>, spec: Result<Cursor<T>, RdbError>, pos: nat) {
    match spec
    case Success(c) => r == Success(c.value) && pos == c.next
    case Failure(e) => r == Failure(e)
  }

  /** Bytes read from i to j and then from j to k, appended in turn, are
      the bytes from i to k. */
  lemma Extend(prev: seq<byte>, data: seq<byte>, i: nat, j: nat, k: nat)
    requires i <= j <= k <= |data|
    ensures prev + data[i..j] + data[j..k] == prev + data[i..k]
  {
    assert data[i..k] == data[i..j] + data[j..k];
  }

  // AppendEmpty and AppendAssoc are plain sequence facts; Parse calls them
  // by name to keep its loop proof small, and they model nothing of the parser.
  lemma AppendEmpty(s: seq<Entry>)
    ensures [] + s == s && s + [] == s
  {
  }

  lemma AppendAssoc(a: seq<Entry>, b: seq<Entry>, c: seq<Entry>)
    ensures a + b + c == a + (b + c)
  {
  }

  /** read_bytes: f.read(n), appended to out when there is one. */
  method ReadBytes(f: ByteFile, n: nat, out: OutBuffer?) returns (buf: seq<byte>)
    requires f.Valid()
    modifies f, out
    ensures f.Valid() && Cursor(buf, f.pos) == ReadAt(f.data, old(f.pos), n)
    ensures out != null ==> out.bytes == old(out.bytes) + f.data[old(f.pos)..f.pos]
  {
    buf := f.Read(n);
    if out != null {
      out.Append(buf);
    }
  }

  /** read_unsigned_char */
  method ReadUnsignedChar(f: ByteFile, out: OutBuffer?) returns (r: Result<byte, RdbError>)
    requires f.Valid()
    modifies f, out
    ensures f.Valid() && old(f.pos) <= f.pos
    ensures out != null ==> out.bytes == old(out.bytes) + f.data[old(f.pos)..f.pos]
    ensures Reads(r, UnsignedCharAt(f.data, old(f.pos)), f.pos)
  {
    var buf := ReadBytes(f, 1, out);
    if |buf| < 1 {
      return Failure(Truncated);
    }
    return Success(buf[0]);
  }

  /** read_unsigned_int */
  method ReadUnsignedInt(f: ByteFile, out: OutBuffer?) returns (r: Result<bv32, RdbError>)
    requires f.Valid()
    modifies f, out
    ensures f.Valid() && old(f.pos) <= f.pos
    ensures out != null ==> out.bytes == old(out.bytes) + f.data[old(f.pos)..f.pos]
    ensures Reads(r, UnsignedIntAt(f.data, old(f.pos)), f.pos)
  {
    var buf := ReadBytes(f, 4, out);
    if |buf| < 4 {
      return Failure(Truncated);
    }
    return Success(Le32(buf));
  }

  /** read_unsigned_long */
  method ReadUnsignedLong(f: ByteFile, out: OutBuffer?) returns (r: Result<bv64, RdbError>)
    requires f.Valid()
    modifies f, out
    ensures f.Valid() && old(f.pos) <= f.pos
    ensures out != null ==> out.bytes == old(out.bytes) + f.data[old(f.pos)..f.pos]
    ensures Reads(r, UnsignedLongAt(f.data, old(f.pos)), f.pos)
  {
    var buf := ReadBytes(f, 8, out);
    if |buf| < 8 {
      return Failure(Truncated);
    }
    return Success(Le64(buf));
  }

  /** ntohl: a 32-bit read with its bytes swapped. */
  method Ntohl(f: ByteFile, out: OutBuffer?) returns (r: Result<bv32, RdbError>)
    requires f.Valid()
    modifies f, out
    ensures f.Valid() && old(f.pos) <= f.pos
    ensures out != null ==> out.bytes == old(out.bytes) + f.data[old(f.pos)..f.pos]
    ensures var spec := UnsignedIntAt(f.data, old(f.pos));
      spec.Success? ==> r == Success(ByteSwap32(spec.value.value)) && f.pos == spec.value.next
    ensures UnsignedIntAt(f.data, old(f.pos)).Failure? ==> r == Failure(Truncated)
  {
    var val :- ReadUnsignedInt(f, out);
    return Success(ByteSwap32(val));
  }

  class RdbParser {
    var key: Option<seq<byte>>
    var pttl: Option<nat>
    var value: Option<seq<byte>>
    const filter: seq<byte> -> bool
    const crc64: seq<byte> -> bv64

    /** RdbParser(key_filter): with no filter every key is accepted. */
    constructor (keyFilter: Option<seq<byte> -> bool>, crc64: seq<byte> -> bv64)
      ensures key.None? && pttl.None? && value.None?
      ensures filter == (if keyFilter.Some? then keyFilter.value else MatchAll)
      ensures this.crc64 == crc64
    {
      key, pttl, value := None, None, None;
      var accept: seq<byte> -> bool := MatchAll;
      if keyFilter.Some? {
        accept := keyFilter.value;
      }
      filter := accept;
      this.crc64 := crc64;
    }

    /** read_length_with_encoding (without the unused list of header bytes). */
    method ReadLengthWithEncoding(f: ByteFile, out: OutBuffer?) returns (r: Result<Length, RdbError>)
      requires f.Valid()
      modifies f, out
      ensures f.Valid() && old(f.pos) <= f.pos
      ensures out != null ==> out.bytes == old(out.bytes) + f.data[old(f.pos)..f.pos]
      ensures Reads(r, LengthAt(f.data, old(f.pos)), f.pos)
    {
      ghost var start := f.pos;
      ghost var prev := if out != null then out.bytes else [];
      var b0 :- ReadUnsignedChar(f, out);
      var encType := (b0 & 0xC0) >> 6;
      if encType == RDB_ENCVAL {
        r := Success(Length(Low6(b0), true));
      } else if encType == RDB_6BITLEN {
        r := Success(Length(Low6(b0), false));
      } else if encType == RDB_14BITLEN {
        ghost var mid := f.pos;
        var b1 := ReadUnsignedChar(f, out);
        Extend(prev, f.data, start, mid, f.pos);
        if b1.Failure? {
          return Failure(b1.error);
        }
        r := Success(Length(Len14(b0, b1.value), false));
      } else {
        ghost var mid := f.pos;
        var length := Ntohl(f, out);
        Extend(prev, f.data, start, mid, f.pos);
        if length.Failure? {
          return Failure(length.error);
        }
        r := Success(Length(length.value as nat, false));
      }
    }

    /** read_length */
    method ReadLength(f: ByteFile, out: OutBuffer?) returns (r: Result<nat, RdbError>)
      requires f.Valid()
      modifies f, out
      ensures f.Valid() && old(f.pos) <= f.pos
      ensures out != null ==> out.bytes == old(out.bytes) + f.data[old(f.pos)..f.pos]
      ensures var spec := LengthAt(f.data, old(f.pos));
        spec.Success? ==> r == Success(spec.value.value.len) && f.pos == spec.value.next
      ensures LengthAt(f.data, old(f.pos)).Failure? ==> r == Failure(Truncated)
    {
      var h :- ReadLengthWithEncoding(f, out);
      return Success(h.len);
    }

    /** The first half of read_string: its length header(s), and the number
        of raw bytes that follow them. */
    method ReadStringLength(f: ByteFile, out: OutBuffer?) returns (r: Result<nat, RdbError>)
      requires f.Valid()
      modifies f, out
      ensures f.Valid() && old(f.pos) <= f.pos
      ensures out != null ==> out.bytes == old(out.bytes) + f.data[old(f.pos)..f.pos]
      ensures Reads(r, StringBodyAt(f.data, old(f.pos)), f.pos)
    {
      ghost var start := f.pos;
      ghost var prev := if out != null then out.bytes else [];
      ghost var spec := StringBodyAt(f.data, start);
      var h :- ReadLengthWithEncoding(f, out);
      assert spec.Success? ==> spec.value.next >= f.pos;
      if !h.encoded {
        return Success(h.len);
      } else if h.len == ENC_INT8 {
        return Success(1);
      } else if h.len == ENC_INT16 {
        return Success(2);
      } else if h.len == ENC_INT32 {
        return Success(4);
      } else if h.len == ENC_LZF {
        ghost var afterHeader := f.pos;
        var clen := ReadLength(f, out);
        Extend(prev, f.data, start, afterHeader, f.pos);
        if clen.Failure? {
          return Failure(clen.error);
        }
        ghost var afterClen := f.pos;
        var ulen := ReadLength(f, out);
        Extend(prev, f.data, start, afterClen, f.pos);
        if ulen.Failure? {
          return Failure(ulen.error);
        }
        return Success(clen.value);
      }
      return Success(0);
    }

    /** read_string: the raw bytes of one string, compressed ones included. */
    method ReadString(f: ByteFile, out: OutBuffer?) returns (r: Result<seq<byte>, RdbError>)
      requires f.Valid()
      modifies f, out
      ensures f.Valid() && old(f.pos) <= f.pos
      ensures out != null ==> out.bytes == old(out.bytes) + f.data[old(f.pos)..f.pos]
      ensures Reads(r, StringAt(f.data, old(f.pos)), f.pos)
    {
      ghost var start := f.pos;
      ghost var prev := if out != null then out.bytes else [];
      var bytesToRead :- ReadStringLength(f, out);
      ghost var bodyStart := f.pos;
      var buf := ReadBytes(f, bytesToRead, out);
      Extend(prev, f.data, start, bodyStart, f.pos);
      return Success(buf);
    }

    /** The dispatch at the head of read_object: the number of strings to
        skip for a value of type encType, reading the element count of a
        list, set, sorted set or hash into out. */
    method ReadStringCount(f: ByteFile, out: OutBuffer, encType: byte) returns (r: Result<nat, RdbError>)
      requires f.Valid() && key.Some?
      modifies f, out
      ensures f.Valid() && old(f.pos) <= f.pos
      ensures out.bytes == old(out.bytes) + f.data[old(f.pos)..f.pos]
      ensures Reads(r, StringCountAt(f.data, old(f.pos), encType, key.value), f.pos)
    {
      var skipStrings: nat := 0;
      if encType == TYPE_STRING {
        skipStrings := 1;
      } else if encType == TYPE_LIST {
        skipStrings :- ReadLength(f, out);
      } else if encType == TYPE_SET {
        skipStrings :- ReadLength(f, out);
      } else if encType == TYPE_ZSET {
        var n :- ReadLength(f, out);
        skipStrings := n * 2;
      } else if encType == TYPE_HASH {
        var n :- ReadLength(f, out);
        skipStrings := n * 2;
      } else if encType == TYPE_HASH_ZIPMAP {
        skipStrings := 1;
      } else if encType == TYPE_LIST_ZIPLIST {
        skipStrings := 1;
      } else if encType == TYPE_SET_INTSET {
        skipStrings := 1;
      } else if encType == TYPE_ZSET_ZIPLIST {
        skipStrings := 1;
      } else if encType == TYPE_HASH_ZIPLIST {
        skipStrings := 1;
      } else {
        return Failure(InvalidObjectType(encType, key.value));
      }
      return Success(skipStrings);
    }

    /** read_object: the DUMP payload of a value of type encType, built from
        every byte read for the value. */
    method ReadObject(f: ByteFile, encType: byte) returns (r: Result<seq<byte>, RdbError>)
      requires f.Valid() && key.Some?
      modifies f
      ensures f.Valid()
      ensures match ValueEndAt(f.data, old(f.pos), encType, key.value)
        case Success(end) => r == Success(Payload(encType, f.data[old(f.pos)..end], crc64)) && f.pos == end
        case Failure(e) => r == Failure(e)
    {
      ghost var start := f.pos;
      var out := new OutBuffer([encType]);
      var skipStrings :- ReadStringCount(f, out, encType);
      ghost var stringsStart := f.pos;
      for x := 0 to skipStrings
        invariant f.Valid() && start <= f.pos
        invariant out.bytes == [encType] + f.data[start..f.pos]
        invariant SkipStringsAt(f.data, stringsStart, skipStrings) == SkipStringsAt(f.data, f.pos, skipStrings - x)
      {
        ghost var before := f.pos;
        var s := ReadString(f, out);
        if s.Failure? {
          return Failure(s.error);
        }
        Extend([encType], f.data, start, before, f.pos);
      }
      out.Append(VERSION_FOOTER);
      var res := out.bytes;
      var checksum := crc64(res);
      return Success(res + Le64Bytes(checksum));
    }

    /** read_key_and_object: sets key, then value. */
    method ReadKeyAndObject(f: ByteFile, dataType: byte) returns (failure: Option<RdbError>)
      requires f.Valid()
      modifies this, f
      ensures f.Valid() && pttl == old(pttl)
      ensures match StringAt(f.data, old(f.pos))
        case Failure(e) => failure == Some(e)
        case Success(k) =>
          key == Some(k.value) &&
          match ValueEndAt(f.data, k.next, dataType, k.value)
          case Failure(e) => failure == Some(e)
          case Success(end) =>
            failure.None? && f.pos == end &&
            value == Some(Payload(dataType, f.data[k.next..end], crc64))
    {
      var k := ReadString(f, null);
      if k.Failure? {
        return Some(k.error);
      }
      key := Some(k.value);
      var v := ReadObject(f, dataType);
      if v.Failure? {
        return Some(v.error);
      }
      value := Some(v.value);
      return None;
    }

    /** The head of one turn of the parse loop: the opcode and, after an
        expiry opcode, the expiry (kept in pttl) and the type byte after it. */
    method ReadDataType(f: ByteFile) returns (r: Result<byte, RdbError>)
      requires f.Valid() && pttl.None?
      modifies this, f
      ensures f.Valid() && key == old(key) && value == old(value)
      ensures match TypeByteAt(f.data, old(f.pos))
        case Success(c) => r == Success(c.value.1) && pttl == c.value.0 && f.pos == c.next
        case Failure(e) => r == Failure(e)
    {
      var dataType :- ReadUnsignedChar(f, null);
      if dataType == OPCODE_EXPIRETIME_MS {
        var ms :- ReadUnsignedLong(f, null);
        pttl := Some(ms as nat);
        dataType :- ReadUnsignedChar(f, null);
      } else if dataType == OPCODE_EXPIRETIME {
        var seconds :- ReadUnsignedInt(f, null);
        pttl := Some(seconds as nat * 1000);
        dataType :- ReadUnsignedChar(f, null);
      }
      return Success(dataType);
    }

    /** One turn of the parse loop, up to the point where it yields: the
        fields are reset, SELECTDB skips a length, EOF ends the file, and
        any other type byte reads a key and its value into the fields. */
    method ReadRecord(f: ByteFile) returns (r: Result<Record, RdbError>)
      requires f.Valid()
      modifies this, f
      ensures f.Valid()
      ensures Reads(r, RecordAt(f.data, old(f.pos), crc64), f.pos)
      ensures r.Success? && r.value.KeyValue? ==>
        key == Some(r.value.entry.key) && value == Some(r.value.entry.payload) &&
        TtlOrZero(pttl) == r.value.entry.ttl
    {
      pttl, key, value := None, None, None;
      var dataType :- ReadDataType(f);
      if dataType == OPCODE_SELECTDB {
        var _ :- ReadLength(f, null);
        return Success(SelectDb);
      }
      if dataType == OPCODE_EOF {
        return Success(EndOfFile);
      }
      var failure := ReadKeyAndObject(f, dataType);
      if failure.Some? {
        return Failure(failure.value);
      }
      return Success(KeyValue(Entry(key.value, value.value, TtlOrZero(pttl))));
    }

    /** parse: every entry the loop yields for the file holding contents,
        and the exception that ended the loop, if any. */
    method Parse(contents: seq<byte>) returns (entries: seq<Entry>, failure: Option<RdbError>)
      modifies this
      ensures Parsed(entries, failure) == ParseRdb(contents, filter, crc64)
    {
      var f := new ByteFile.Open(contents);
      entries := [];
      var magic := f.Read(5);
      ghost var afterMagic := f.pos;
      failure := VerifyMagicString(magic);
      if failure.Some? {
        return;
      }
      var versionText := f.Read(4);
      failure := VerifyVersion(versionText);
      if failure.Some? {
        return;
      }
      ParseAfterHeader(contents, filter, crc64, magic, afterMagic, versionText, f.pos);
      AppendEmpty(ParseEntries(contents, f.pos, filter, crc64).entries);
      while true
        invariant f.Valid() && f.data == contents && failure.None?
        invariant var rest := ParseEntries(contents, f.pos, filter, crc64);
          ParseRdb(contents, filter, crc64) == Parsed(entries + rest.entries, rest.failure)
        decreases |contents| - f.pos
      {
        ghost var turn := f.pos;
        var record := ReadRecord(f);
        ParseStep(contents, turn, filter, crc64);
        if record.Failure? {
          AppendEmpty(entries);
          return entries, Some(record.error);
        }
        if record.value == EndOfFile {
          AppendEmpty(entries);
          return;
        }
        if record.value.KeyValue? && filter(key.value) {
          AppendAssoc(entries, [record.value.entry], ParseEntries(contents, f.pos, filter, crc64).entries);
          entries := entries + [Entry(key.value, value.value, TtlOrZero(pttl))];
        }
      }
    }
  }

  /** parse_rdb: a parser with the given filter (none: every key) run over
      the file holding contents. */
  method ParseRdbFile(contents: seq<byte>, keyFilter: Option<seq<byte> -> bool>,
                      crc64: seq<byte> -> bv64)
    returns (entries: seq<Entry>, failure: Option<RdbError>)
    ensures Parsed(entries, failure) ==
      ParseRdb(contents, if keyFilter.Some? then keyFilter.value else MatchAll, crc64)
  {
    var parser := new RdbParser(keyFilter, crc64);
    entries, failure := parser.Parse(contents);
  }
}
