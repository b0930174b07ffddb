# redisimp core in Dafny

redisimp copies keys from one or more redis sources into a destination. It
moves each key as a DUMP payload with its remaining time to live, through
DEL + RESTORE. A source can also be an RDB dump file. For that case the
package has a small RDB reader. The reader walks the file record by record
and yields, for every key the filter accepts:

- the key;
- a payload in DUMP format (type byte, raw serialized value, RDB version
  footer `06 00`, little-endian CRC-64);
- the expiry the file holds.

This project models four parts of that core:

- **the RDB reader** (`rdbparser.py`):
  - `RdbFormat` describes the byte format as pure functions of the file's
    bytes and a read position.
  - `RdbParser` is the reader itself, written imperatively:
    - a `ByteFile` with a cursor;
    - an `OutBuffer` standing for the `out` list that collects the raw
      bytes of an object;
    - the `RdbParser` class with its `key`, `pttl` and `value` fields.

    Each read method is proved to consume exactly what the matching
    `RdbFormat` function describes. `Parse` is proved to yield exactly what
    `ParseRdb` specifies.
- **the copy API** (`api.py`), in `Api`:
  - the SCAN walk (`ReadKeys`);
  - the pipelined DUMP/PTTL fetch (`ReadDataAndPttl`);
  - `Copy`. For each key batch it queues DEL + RESTORE per key on a write
    pipeline, yields the key, and executes the pipeline once per batch.

  A redis server is a `Source` value. Its fields are the functions
  answering SCAN, DUMP and PTTL. A destination is a `Destination` object
  that records every executed pipeline. What a generator yields is
  recorded as a trace of `Yielded(key)` and `Executed(commands)` events.
- **multi_copy** (`multi.py`), in `Multi`:
  - the worker-count clamp;
  - the sequential branch, taken when fewer than two workers result.
- **the command line glue** (`cli.py`), in `Cli`:
  - how a host string is classified (URL, `host:port`, or a local database
    path);
  - how a comma-separated source list is resolved;
  - how a cluster URL is built;
  - the key counting and progress output of `process`.

`PyStr` models the Python string operations the glue relies on: `strip`,
`startswith`, `split`, `join`, `int()` and `%d`. `Wrappers` holds `Option`
and `Result`.

All paths below are relative to the repository root.

## Model

| member | source | states |
|---|---|---|
| `RdbFormat.ReadAt` | redisimp/rdbparser.py:197-201 | a read of n bytes returns the next bytes of the file and advances past them; it returns exactly n bytes iff the file has n bytes left, and otherwise every byte that is left, ending at end of file |
| `RdbFormat.Le64RoundTrip` | redisimp/rdbparser.py:160-162 | the 8-byte little-endian encoding used for the checksum reads back as the same 64-bit value |
| `RdbFormat.ByteSwapInvolution` | redisimp/rdbparser.py:175-182 | swapping the bytes of a 32-bit value twice gives the value back |
| `RdbFormat.ByteSwapReadsBigEndian` | redisimp/rdbparser.py:175-182 | ntohl applied to a native little-endian read of 4 bytes is the big-endian value of those bytes |
| `RdbFormat.UnsignedCharAt` | redisimp/rdbparser.py:185-186 | one byte is read iff one is left, and the cursor moves by one; otherwise the read fails as truncated |
| `RdbFormat.UnsignedIntAt` | redisimp/rdbparser.py:189-190 | a little-endian 32-bit value is read iff 4 bytes are left, and the cursor moves by 4; otherwise truncated |
| `RdbFormat.UnsignedLongAt` | redisimp/rdbparser.py:193-194 | a little-endian 64-bit value is read iff 8 bytes are left, and the cursor moves by 8; otherwise truncated |
| `RdbFormat.LengthAt` | redisimp/rdbparser.py:82-98 | a length header succeeds iff its lead byte and the extra bytes its top two bits ask for are present; it occupies exactly that width and is flagged encoded iff the top bits are 11 |
| `RdbFormat.LengthSchemes` | redisimp/rdbparser.py:82-98 | the value of each of the four length schemes: the 6-bit value for 00 and for 11, 14 bits spread over two bytes for 01, and a big-endian 32-bit word for 10 |
| `RdbFormat.StringBodyAt` | redisimp/rdbparser.py:107-125 | the string header always moves the cursor forward, stays within the file, and fails only as truncated |
| `RdbFormat.StringForms` | redisimp/rdbparser.py:108-126 | how many bytes a string header asks for: a plain length that many; an integer encoding 1, 2 or 4; an LZF string the compressed length, read after both of its length headers; any other encoding 0 |
| `RdbFormat.StringAt` | redisimp/rdbparser.py:107-126 | a string is the bytes right after its header, as many as the header asks for or as are left; it fails iff its header fails |
| `RdbFormat.SkipStringsAt` | redisimp/rdbparser.py:155-156 | skipping count strings stays within the file and moves forward whenever count > 0 |
| `RdbFormat.ShapeOf` | redisimp/rdbparser.py:130-154 | the dispatch table, in both directions: types 0 and 9-13 hold one string, types 1-2 hold a count of strings, types 3-4 hold a count of pairs, and any other type is invalid |
| `RdbFormat.StringCountAt` | redisimp/rdbparser.py:128-154 | an invalid object type fails with the type and the key; a valid one fails only as truncated |
| `RdbFormat.CountForms` | redisimp/rdbparser.py:128-154 | how many strings an object holds: one for types 0 and 9-13, right at the object's start; the length header's value for types 1-2; twice that value for types 3-4 |
| `RdbFormat.ValueEndAt` | redisimp/rdbparser.py:128-156 | a valid object ends strictly after its start and within the file; an invalid type fails with the type and the key |
| `RdbFormat.PayloadLayout` | redisimp/rdbparser.py:128-162 | a payload is the type byte, the raw value bytes, the footer `06 00`, and the little-endian CRC-64 of everything before it; it is 11 bytes longer than the raw value |
| `RdbFormat.TypeByteAt` | redisimp/rdbparser.py:61-69 | reading the optional expiry and the type byte moves the cursor forward and fails only as truncated |
| `RdbFormat.RecordAt` | redisimp/rdbparser.py:60-78 | every successfully read record moves the cursor strictly forward, so the loop of the parser advances |
| `RdbFormat.VerifyMagicString` | redisimp/rdbparser.py:164-166 | the magic check passes iff the five bytes are `REDIS` |
| `RdbFormat.VerifyVersion` | redisimp/rdbparser.py:168-172 | the version check passes iff Python 2's int() reads the four bytes as an integer between 1 and 7 |
| `RdbFormat.HeaderCheck` | redisimp/rdbparser.py:57-59 | a bad header yields nothing and reports a failure; a good one continues right after the 9 header bytes |
| `RdbFormat.RecordEndOfFile` | redisimp/rdbparser.py:75-76 | the EOF opcode ends the parse cleanly, one byte on, with nothing yielded |
| `RdbFormat.RecordSelectDb` | redisimp/rdbparser.py:71-73 | SELECTDB yields nothing and consumes exactly one length header |
| `RdbFormat.SelectDbThenEof` | redisimp/rdbparser.py:71-76 | a SELECTDB record directly followed by the EOF opcode ends the parse cleanly with nothing yielded, whatever the filter |
| `RdbFormat.RecordWithoutExpiry` | redisimp/rdbparser.py:61-80 | a key with no expiry opcode before it gets ttl 0, and its payload starts with its type byte |
| `RdbFormat.RecordExpiryMs` | redisimp/rdbparser.py:64-66 | after the millisecond expiry opcode, the ttl is the next 8 bytes as a little-endian value, and the type byte follows them |
| `RdbFormat.RecordExpirySeconds` | redisimp/rdbparser.py:67-69 | after the seconds expiry opcode, the ttl is the next 4 bytes as a little-endian value times 1000, and the type byte follows them |
| `RdbFormat.RecordPayload` | redisimp/rdbparser.py:103-105 | every key record carries a well-formed DUMP payload; its key is the string read after the type byte, and its payload wraps exactly the bytes from the end of that key to the end of the record |
| `RdbFormat.PayloadWellFormed` | redisimp/rdbparser.py:158-162 | the payload of any known object type, whatever its body, has the footer and a matching checksum |
| `RdbFormat.EntriesWellFormed` | redisimp/rdbparser.py:78-80 | every yielded entry has a key the filter accepts and a well-formed DUMP payload |
| `RdbFormat.FilterOnlyDrops` | redisimp/rdbparser.py:79-80 | filtering keys only drops entries: the filtered parse is the unfiltered one with rejected keys removed, in order, ending the same way |
| `RdbParser.ByteFile.Read` | redisimp/rdbparser.py:198 | reading from the file object returns what `ReadAt` specifies and leaves the cursor where it says |
| `RdbParser.OutBuffer.Append` | redisimp/rdbparser.py:199-200 | appending adds the chunk at the end of the collected bytes |
| `RdbParser.ReadBytes` | redisimp/rdbparser.py:197-201 | read_bytes returns what `ReadAt` gives; when an out buffer is passed, it gets exactly the bytes consumed |
| `RdbParser.ReadUnsignedChar` | redisimp/rdbparser.py:185-186 | reads what `UnsignedCharAt` specifies, with the same failure, and copies the consumed bytes to out |
| `RdbParser.ReadUnsignedInt` | redisimp/rdbparser.py:189-190 | reads what `UnsignedIntAt` specifies, with the same failure, and copies the consumed bytes to out |
| `RdbParser.ReadUnsignedLong` | redisimp/rdbparser.py:193-194 | reads what `UnsignedLongAt` specifies, with the same failure, and copies the consumed bytes to out |
| `RdbParser.Ntohl` | redisimp/rdbparser.py:175-182 | returns the byte-swapped native 32-bit read, which by `ByteSwapReadsBigEndian` is the big-endian value; fails as truncated when fewer than 4 bytes are left |
| `RdbParser.RdbParser.constructor` | redisimp/rdbparser.py:41-51 | a new parser has no key, ttl or value yet, and uses the given key filter or, when none is given, one accepting every key |
| `RdbParser.RdbParser.ReadLengthWithEncoding` | redisimp/rdbparser.py:82-98 | consumes exactly the length header `LengthAt` describes, returns its value and encoded flag, and copies those bytes to out |
| `RdbParser.RdbParser.ReadLength` | redisimp/rdbparser.py:100-101 | returns only the value of that length header |
| `RdbParser.RdbParser.ReadStringLength` | redisimp/rdbparser.py:107-125 | consumes the string header that `StringBodyAt` describes, including both lengths of an LZF string, and returns how many bytes to read (the counts `StringForms` lists) |
| `RdbParser.RdbParser.ReadString` | redisimp/rdbparser.py:107-126 | returns the string `StringAt` specifies and moves the cursor past it |
| `RdbParser.RdbParser.ReadStringCount` | redisimp/rdbparser.py:128-154 | reads the count of strings the object type asks for, as `StringCountAt` specifies (the counts `CountForms` lists); an unknown type fails with the type and the key |
| `RdbParser.RdbParser.ReadObject` | redisimp/rdbparser.py:128-162 | when the object is well formed, returns the DUMP payload built from exactly the object's bytes and moves past it; otherwise fails as `ValueEndAt` does |
| `RdbParser.RdbParser.ReadKeyAndObject` | redisimp/rdbparser.py:103-105 | sets the key to the string read, then the value to the payload of the object after it; each failure stops the method where the specification says, and the ttl is untouched |
| `RdbParser.RdbParser.ReadDataType` | redisimp/rdbparser.py:61-69 | reads the optional expiry into the ttl field and returns the type byte, as `TypeByteAt` specifies |
| `RdbParser.RdbParser.ReadRecord` | redisimp/rdbparser.py:60-78 | one loop turn reads what `RecordAt` specifies; for a key, the parser's fields hold the key, the payload and a ttl that defaults to 0 |
| `RdbParser.RdbParser.Parse` | redisimp/rdbparser.py:53-80 | the imperative loop yields exactly the entries, and stops with exactly the failure, that `ParseRdb` specifies |
| `RdbParser.ParseRdbFile` | redisimp/rdbparser.py:204-206 | parse_rdb yields what `ParseRdb` specifies, with every key accepted when no filter is given |
| `PyStr.Strip` | redisimp/cli.py:71 | strip removes whitespace from both ends, so the result neither starts nor ends with whitespace |
| `PyStr.StripCutsSpace` | redisimp/cli.py:71 | strip cuts off only whitespace: the result is a slice of the input with whitespace alone before and after it |
| `PyStr.StripUnchanged` | redisimp/cli.py:71 | strip leaves a string that has no whitespace at either end unchanged |
| `PyStr.Split` | redisimp/cli.py:104 | split gives one piece more than there are separators, and no piece contains the separator |
| `PyStr.JoinSplit` | redisimp/cli.py:104 | joining the pieces of a split gives back the original string |
| `PyStr.SplitJoin` | redisimp/cli.py:104 | splitting a join of separator-free pieces gives back those pieces |
| `PyStr.SplitTrailingSep` | redisimp/cli.py:104 | a trailing separator adds exactly one empty piece |
| `PyStr.ParseIntAccepts` | redisimp/rdbparser.py:169 | the strict reading of int(), the one Python 3 applies to this ASCII text apart from underscores between digits, accepts a string iff, once stripped, it is an optional sign followed directly by at least one decimal digit; it is the comparison for the Python 2 reading that `RdbFormat.VerifyVersion` uses |
| `PyStr.ParseIntPy2Accepts` | redisimp/rdbparser.py:169 | Python 2's int() accepts a string iff, once stripped, it is decimal digits, or a sign followed by whitespace and then at least one digit |
| `PyStr.ParseIntPy2Extends` | redisimp/rdbparser.py:169 | Python 2's int() accepts everything the strict reading accepts, with the same value |
| `PyStr.ParseIntPy2SpaceAfterSign` | redisimp/rdbparser.py:169 | a '+', whitespace and digits (such as `+ 7`) is read by Python 2 as the digits' value and refused by the strict reading |
| `PyStr.DecimalString` | redisimp/cli.py:154 | `%d` of a natural number is a non-empty digit string with no leading zero (except "0") |
| `PyStr.DecimalRoundTrip` | redisimp/cli.py:154 | int() reads the decimal text of a number back as that number |
| `Api.ScanChain` | redisimp/api.py:11-13 | the SCAN walk starts with SCAN at cursor 0, with count 500 and the given match pattern |
| `Api.ScanChainShape` | redisimp/api.py:11-18 | each SCAN is issued with the cursor the previous reply returned; every reply but the last has a nonzero cursor, and the last has cursor 0 |
| `Api.ScanChainFuel` | redisimp/api.py:12-18 | the replies of the walk do not depend on the bound used to show that it ends |
| `Api.KeyBatches` | redisimp/api.py:14-15 | read_keys never yields an empty batch |
| `Api.ReplyBatch` | redisimp/api.py:14-15 | a reply adds one batch iff it carries keys |
| `Api.FlattenKeyBatches` | redisimp/api.py:13-15 | the batches, concatenated, are exactly the keys of all SCAN replies, in order |
| `Api.ReadKeys` | redisimp/api.py:4-18 | the imperative loop yields exactly the non-empty key lists of the SCAN walk, in order, and stops after the reply with cursor 0 |
| `Api.ReadPipeline.Queue` | redisimp/api.py:24-25 | queuing a command appends it to the pipeline |
| `Api.ReadPipeline.Execute` | redisimp/api.py:26 | execute answers every queued command, in order, and empties the pipeline |
| `Api.FetchedKeys` | redisimp/api.py:28-36 | a key is yielded iff it was asked for and its DUMP is non-empty, and at most as many items as keys come out |
| `Api.FetchedItems` | redisimp/api.py:28-36 | each yielded item carries the DUMP of its key and that key's PTTL, with values below 1 turned into 0 |
| `Api.ReadDataAndPttl` | redisimp/api.py:21-36 | the pipelined DUMP/PTTL loop yields exactly the items that `Fetched` specifies, in key order |
| `Api.CommandPairs` | redisimp/api.py:50-52 | each item queues DEL of its key and then RESTORE of that key with its ttl and payload, in item order |
| `Api.DeleteIsItem` | redisimp/api.py:50-52 | the only DELs queued for a batch are of the keys of its items |
| `Api.Yields` | redisimp/api.py:53 | one key is yielded per item |
| `Api.BatchStep` | redisimp/api.py:49-54 | handling one batch yields the items' keys and then executes their commands as one pipeline |
| `Api.CopyKeysOf` | redisimp/api.py:48-53 | over given batches, a key is yielded iff it is in a batch and its DUMP is non-empty |
| `Api.CopyKeys` | redisimp/api.py:39-54 | copy yields a key iff SCAN returned it and its DUMP is non-empty |
| `Api.CopyExecutions` | redisimp/api.py:48-54 | the destination executes one pipeline per batch, in order, holding that batch's DEL/RESTORE commands |
| `Api.YieldBeforeExecute` | redisimp/api.py:49-54 | every yielded key has its DEL executed later in the trace |
| `Api.DeleteOnlyAfterYield` | redisimp/api.py:49-54 | every DEL a pipeline executes is of a key yielded earlier in the trace |
| `Api.WritePipeline.Queue` | redisimp/api.py:51-52 | queuing a command appends it to the pipeline |
| `Api.WritePipeline.Execute` | redisimp/api.py:54 | execute sends the queued commands to the destination as one batch and empties the pipeline |
| `Api.CopyBatch` | redisimp/api.py:49-54 | one turn of the copy loop yields the fetched keys and executes exactly their commands on the destination |
| `Api.CopyBatches` | redisimp/api.py:48-54 | the copy loop produces the trace that `CopyEventsOf` specifies, and the destination receives exactly the pipelines in that trace |
| `Api.Copy` | redisimp/api.py:39-54 | copy produces the trace that `CopyEvents` specifies for the SCAN walk, and the destination receives exactly the pipelines in that trace |
| `Multi.CalcWorkerCount` | redisimp/multi.py:37-43 | the worker count is at most the number of sources, at most WORKER_MAX, and at most the requested count; it equals one of these three |
| `Multi.CalcWorkerCountIsMin` | redisimp/multi.py:37-43 | the clamp is the greatest common lower bound of the three bounds |
| `Multi.CalcWorkerCountKeeps` | redisimp/multi.py:38-43 | a request within both bounds is kept; without a request, a number of sources up to WORKER_MAX is kept |
| `Multi.CalcWorkerCountIdempotent` | redisimp/multi.py:37-43 | clamping a clamped count changes nothing |
| `Multi.SequentialWhen` | redisimp/multi.py:79-81 | the sequential branch is taken iff there are fewer than two sources or fewer than two workers are requested |
| `Multi.EmptySources` | redisimp/multi.py:77-85 | with no sources, the run is sequential and yields nothing |
| `Multi.SequentialSplit` | redisimp/multi.py:82-84 | each source is drained completely before the next one starts: the run over a list is the run over a prefix followed by the run over the rest |
| `Multi.SequentialKeys` | redisimp/multi.py:82-84 | a key is yielded iff copy yields it for one of the sources |
| `Multi.MultiCopy` | redisimp/multi.py:66-85 | with fewer than two workers, the run is copy of each source in list order, and the destination receives every pipeline of every copy in that order |
| `Cli.ResolveHost` | redisimp/cli.py:66-79 | a target is a URL connection iff its stripped text starts with `redis://` or `unix://`, and then the URL is that text; a database path is the stripped text; a host never contains ':' |
| `Cli.ResolveHostPort` | redisimp/cli.py:72-78 | a target is a host:port pair iff it is not a URL, splits on ':' into exactly two pieces, and its port parses as an integer; the port is that integer |
| `Cli.ResolveHostRoundTrip` | redisimp/cli.py:71-77 | writing host:port out and resolving it gives back that host and port |
| `Cli.ClassifySegment` | redisimp/cli.py:108-113 | a segment is a file when it starts with `rdb://` (prefix dropped) or has no ':'; otherwise it is a server resolved as a host |
| `Cli.RdbPrefixFirst` | redisimp/cli.py:108-109 | an `rdb://` path is a file even when it contains ':' |
| `Cli.SegmentSource` | redisimp/cli.py:105-113 | a segment yields at most one source, none iff it is blank, and otherwise the stripped segment classified |
| `Cli.ResolveSegments` | redisimp/cli.py:104-113 | there are never more sources than segments |
| `Cli.ResolveSegmentsFrom` | redisimp/cli.py:104-113 | every source is a non-blank segment, stripped and classified |
| `Cli.ResolveSegmentsNonBlank` | redisimp/cli.py:104-113 | when no segment is blank, source i is segment i stripped and classified, one per segment |
| `Cli.ResolveSources` | redisimp/cli.py:103-113 | there are never more sources than commas plus one |
| `Cli.ResolveSourcesFrom` | redisimp/cli.py:103-113 | every source comes from a non-blank piece of the comma list, stripped and classified |
| `Cli.ResolveSegmentsAppend` | redisimp/cli.py:104-113 | each segment is resolved independently of the others, in order |
| `Cli.ResolveSourcesTrailingComma` | redisimp/cli.py:104-107 | a trailing comma adds no source |
| `Cli.PlainSegment` | redisimp/cli.py:110-111 | a trimmed path with no ':' or ',' is unchanged by strip and is one file source |
| `Cli.ResolvePlainPaths` | redisimp/cli.py:103-111 | a comma-joined list of plain paths resolves to exactly those files, in order |
| `Cli.ClusterUrl` | redisimp/cli.py:121-129 | the cluster URL always has a scheme; it is the given text iff that text already has one, and otherwise `redis://` is put in front |
| `Cli.ClusterUrlIdempotent` | redisimp/cli.py:121-129 | building the cluster URL of a cluster URL changes nothing |
| `Cli.ResolveDestination` | redisimp/cli.py:116-129 | there is no destination iff this is a dry run; a direct destination is the resolved host of a server without cluster mode; a cluster destination is reached by the cluster URL of the destination text, which has a scheme |
| `Cli.ProgressMarks` | redisimp/cli.py:146-152 | the progress output holds one carriage-return mark per thousand keys when not verbose, and none when verbose |
| `Cli.ReportReadsBack` | redisimp/cli.py:154 | the closing report is `\n\nprocessed N keys\n`, and its number reads back as the count |
| `Cli.Process` | redisimp/cli.py:137-155 | over the keys it is given, the count equals their number, and the output is the progress marks followed by the closing report |

## Left out

- The CRC-64 function is a parameter, `crc64`; its table-driven code is not part of this model. LZF-compressed strings are copied as raw bytes, as the reader itself copies them; nothing is decompressed.
- Opening files is not modelled: the RDB file is its bytes, given as a value, plus a cursor. The file closing under `with` is not modelled either.
- The reader's raised exceptions become `RdbError` values. A short `struct.unpack` raises, so it becomes `Truncated`. A short string read at end of file is returned as it is, as `read_bytes` does.
- `RdbParser.RdbParser.ReadLengthWithEncoding`: it does not return the list of header bytes as a third result, since no caller in the source uses it. The same bytes reach the out buffer.
- The package declares both Python 2.7 and Python 3, whose `int()` differ. The model follows Python 2 (`ParseIntPy2`) for the version text and for the port: whitespace, an optional sign, more whitespace, ASCII digits, whitespace. The version text is read as one character per byte.
- `RdbFormat.VerifyVersion`: under Python 3, `int()` refuses whitespace after the sign and accepts single underscores between digits (such as `00_7`); the model follows Python 2 here, so it accepts the first and refuses the second. `ParseInt` is the strict reading without that whitespace, kept to state the difference.
- `Cli.ResolveHost`: the port is read with Python 2's `int()` as well, with the same difference from Python 3.
- `struct.unpack` with `'I'` and `'Q'` uses the host's native byte order (rdbparser.py:189-194); the model assumes a little-endian host.
- The RDB reader's ttl is a natural number or none; `self._pttl or 0` becomes `TtlOrZero`.
- A redis server is a value (`Api.Source`) whose SCAN, DUMP and PTTL answers are fixed. Writes by other clients during a copy and connection errors are not modelled. A DUMP answer is always a byte string. The nil reply for a key deleted between SCAN and DUMP, on which `len` would raise, is not modelled.
- `Api.ReadKeys`: that the SCAN walk reaches cursor 0 is a precondition, bounded by a ghost `fuel`. The server guarantees it; this model cannot derive it.
- Generators are modelled as traces. `ReadKeys` collects all batches before the copy loop starts, which equals the lazy interleaving only because the source value does not change. Consumers that stop a generator early are not modelled.
- Some helper methods exist only to split one source function's steps for proof: `ReadStringLength`, `ReadStringCount`, `ReadDataType`, `ReadRecord`, `CopyBatch` and `CopyBatches`.
- `Multi.MultiCopy`: requires the clamped worker count to be below 2, because the threaded branch of `multi_copy` (multi.py:87 onward) is not modelled: the worker threads, the source queue, the channel, the shutdown event and `run`.
- `Cli.Process` models only the counting and output loop over the yielded keys. It does not model:
  - argument parsing, the SIGTERM handler and `main`;
  - the verbose `print(key)` to stdout;
  - the final `bgsave` of a redislite destination.
- `process` calls `multi_copy` with `pattern` and `backfill` keyword arguments that `multi_copy` does not accept (cli.py:145 against multi.py:66). The model follows `multi_copy`, which copies every key with no pattern.
- A source resolved from an `rdb://` path or a plain path stays a path string. `copy` calls `src.scan` on its source (api.py:13), which a string does not have, so this code cannot copy from such a source, and the model does not either.
- `Cli.ResolveHost`: it models only the classification. Building a client from a URL or from host and port is a library call. For a local database, the model leaves out the redislite start, the busy-loading retry loop and its timeout. `int(port)` with surrounding whitespace is accepted, as Python accepts it.
- `Cli.ResolveDestination`: it takes as a parameter whether the server reports `cluster_enabled`, because answering that needs a live connection. Building the cluster client is not modelled.
