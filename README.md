# A2S_INFO reply decoder of `source_query`, modelled in Dafny

`source_query` asks a Source game server for its details with the
A2S_INFO query from Valve's "Server Queries" protocol. The query works in four steps:

1. Send one UDP datagram: the frame header `FF FF FF FF`, the request type `0x54` (`'T'`) and the
   zero-terminated string `Source Engine Query`.
2. Receive one reply datagram into a 1024-byte buffer.
3. Check that the reply starts with the 32-bit little-endian value -1, which marks a reply that
   fits in a single packet.
4. Decode the reply body after the frame header into a server record with 20 fields. Six of
   those fields are optional. Five bits of the Extra Data Flags (EDF) byte say which are
   present, and the spectator port and name share one bit.

The repository has two copies of the decoder: `src/info.rs` (record type `Response`, with doc
comments) and `src/lib.rs` (record type `ServerInfo`). The two copies behave the same. The
only difference in behaviour is the read timeout `query` sets: a parameter in `info.rs`, a
fixed 5 seconds in `lib.rs`. The model covers the decoder once. Each row below cites one copy.
The same code in the other copy is at a fixed offset. `get_string` and `from_bytes` in
`lib.rs` sit 19 lines above their place in `info.rs`, and `query`'s request and frame check
42 lines above.

Modules:

- `Bytes`: the machine integers (`u8`, `i16`, `i32`, `u64`) as newtypes over their exact ranges,
  and their little-endian layouts.
- `Wire`: reference readers (`Take`, `U8`, `I16`, `I32`, `U64`, `Str`) and their writers. Each
  reader maps the unread bytes to `Parsed(value, rest)` or an `Error`. The module also has the
  lemmas about reading from a longer buffer.
- `Reply`: the record, the enums, the EDF selection, the reference decoder `Parse`/`Decode`, and
  the encoder it inverts.
- `ReplyLemmas`: round trip, completeness (only encodings decode), byte accounting, EDF bits and
  truncation.
- `Decoder`: the decoder as the source runs it. A `Cursor` class holds the data and a position
  that each read advances. `GetString` is a loop, and `FromBytes` is the straight-line chain of
  reads. Every method is proved equal to the reference decoder.
- `Query`: the request bytes, the 1024-byte receive buffer, the check of the -1 frame, and the
  whole exchange with the reply datagram as a parameter.
- `Scenarios`: concrete replies, such as a Counter-Strike server with no optional fields, one
  with port and game id, and unknown type and environment codes.

Where the source panics (`bytes::Buf::get_*` on a cursor with too few bytes left), the model
returns `Err(Truncated)`. It never makes up a value.

## Model

| member | source | states |
|---|---|---|
| Bytes.LeValue | src/info.rs:92 | the little-endian value of n bytes is below 256^n |
| Bytes.LeBytes | src/info.rs:92 | the n-byte little-endian layout of v has n bytes and reads back as v |
| Bytes.LeBytesOfValue | src/info.rs:92 | writing back the value read from any byte string gives that byte string again |
| Bytes.LeValueInjective | src/info.rs:92 | two byte strings of the same length with the same little-endian value are equal |
| Bytes.I16ToLe | src/info.rs:92 | the two-byte two's-complement layout of an i16 reads back as that i16 |
| Bytes.I32ToLe | src/info.rs:216 | the four-byte layout of an i32 reads back as that i32 |
| Bytes.U64ToLe | src/info.rs:120 | the eight-byte layout of a u64 reads back as that u64 |
| Bytes.I16LeBijective | src/info.rs:114 | every two-byte string is the layout of the i16 it reads as |
| Bytes.I32LeBijective | src/lib.rs:174 | every four-byte string is the layout of the i32 it reads as |
| Bytes.U64LeBijective | src/info.rs:139 | every eight-byte string is the layout of the u64 it reads as |
| Bytes.MinusOneLayout | src/info.rs:216-218 | a four-byte frame header reads as -1 exactly when it is FF FF FF FF |
| Bytes.Ascii | src/info.rs:205 | a byte literal has the same length as its text and the same code at every position |
| Wire.Take | src/info.rs:83 | a read of n bytes succeeds exactly when n bytes are left, and splits the input into those n bytes and the rest; otherwise it is Truncated |
| Wire.FirstZeroExists | src/info.rs:67-70 | a buffer that contains a zero byte has a first one |
| Wire.StrOfEncoding | src/info.rs:65-76 | reading text with no zero byte, followed by a zero byte and a tail, gives the text and leaves the tail |
| Wire.StrSplits | src/lib.rs:46-57 | a successful string read returns the bytes before the first zero byte and consumes that zero |
| Wire.StrIff | src/info.rs:65-76 | a string read yields t and leaves rest exactly when the input is t, 0, rest and t holds no zero byte |
| Wire.StrStep | src/info.rs:68-73 | one loop step: a zero byte ends the string read; any other byte is appended and the invariant is kept |
| Wire.StrFails | src/info.rs:68 | a string read fails exactly when no zero byte is left, and then with Truncated |
| Wire.PutU8 | src/info.rs:87 | a byte in front of a tail reads back as that byte and leaves the tail |
| Wire.PutI16 | src/info.rs:92 | an i16 layout in front of a tail reads back as that i16 and leaves the tail |
| Wire.PutI32 | src/info.rs:216 | an i32 layout in front of a tail reads back as that i32 and leaves the tail |
| Wire.PutU64 | src/info.rs:120 | a u64 layout in front of a tail reads back as that u64 and leaves the tail |
| Wire.PutString | src/info.rs:65-76 | terminated text in front of a tail reads back as the text; it takes its length plus one byte |
| Wire.U8Consumed | src/info.rs:93 | a successful u8 read consumed exactly one byte, the value |
| Wire.I16Consumed | src/info.rs:92 | a successful i16 read consumed exactly the layout of its value |
| Wire.I32Consumed | src/info.rs:216 | a successful i32 read consumed exactly the layout of its value |
| Wire.U64Consumed | src/info.rs:120 | a successful u64 read consumed exactly the layout of its value |
| Wire.StrConsumed | src/info.rs:65-76 | a successful string read consumed exactly the text and its terminator |
| Wire.ExtendsCut | src/info.rs:68 | a read of a longer buffer that left fewer bytes than were added means the shorter buffer ran out |
| Wire.TakeExtends | src/info.rs:83 | a fixed-size read of a buffer gives the same value on any extension of it |
| Wire.U8Extends | src/info.rs:83 | appending bytes to a buffer keeps a successful u8 read and its value |
| Wire.I16Extends | src/info.rs:92 | appending bytes to a buffer keeps a successful i16 read and its value |
| Wire.U64Extends | src/info.rs:120 | appending bytes to a buffer keeps a successful u64 read and its value |
| Wire.StrExtends | src/info.rs:65-76 | appending bytes to a buffer keeps a successful string read and its value |
| Reply.ServerTypeOf | src/info.rs:96-101 | a server type byte that is not one of the codes is an error carrying that byte |
| Reply.OsOf | src/info.rs:102-107 | an environment byte that is not one of the codes is an error carrying that byte |
| Reply.ServerTypeCodes | src/info.rs:96-101 | a server type byte decodes to Dedicated, NonDedicated or SourceTVRelay exactly when it is 'd', 'l' or 'p' |
| Reply.OsCodes | src/lib.rs:83-88 | an environment byte decodes to Linux, Windows or Mac exactly when it is 'l', 'w' or 'm' |
| Reply.Optional | src/info.rs:113-117 | an optional field is present exactly when it is flagged; it fails only when it is flagged and its read fails |
| Reply.ParseExtras | src/info.rs:113-142 | each optional field is present exactly when its EDF bit is set; spectator port and name are present together |
| Reply.Parse | src/info.rs:80-86 | an empty body is Truncated; a first byte other than 0x49 is an error carrying that byte; a decoded body starts with 0x49 |
| Reply.PutOptI16 | src/info.rs:113-117 | an optional i16 written when present reads back as itself under its flag |
| Reply.PutOptU64 | src/info.rs:138-142 | an optional u64 written when present reads back as itself under its flag |
| Reply.PutOptString | src/info.rs:132-136 | optional text written when present reads back as itself under its flag |
| ReplyLemmas.ExtrasRoundTrip | src/info.rs:113-142 | optional fields written in wire order, as `sel` selects them, read back as themselves with the tail left |
| ReplyLemmas.DecodeRaw | src/info.rs:80-166 | a body written with arbitrary type, environment, visibility and VAC bytes decodes as follows: an unknown type byte gives UnknownServerType; otherwise an unknown environment byte gives UnknownEnvironment; otherwise the record has is_public = (visibility byte == 0) and uses_vac = (VAC byte == 1) |
| ReplyLemmas.RoundTrip | src/info.rs:80-166 | every record whose strings hold no zero byte and whose optional fields match the EDF byte decodes back from its encoding, with nothing left over |
| ReplyLemmas.OptI16Consumed | src/info.rs:113-117 | an optional i16 read consumed its layout when present and nothing when absent |
| ReplyLemmas.OptU64Consumed | src/info.rs:119-123 | an optional u64 read consumed its layout when present and nothing when absent |
| ReplyLemmas.OptStrConsumed | src/info.rs:132-136 | an optional string read consumed the text and terminator when present and nothing when absent |
| ReplyLemmas.ExtrasComplete | src/lib.rs:94-123 | any successfully read optional part is the encoding of what it returned, and its fields are the selected ones |
| ReplyLemmas.ParseComplete | src/lib.rs:61-147 | any decoded body is the encoding of the decoded record, for an EDF byte that selects exactly its optional fields and visibility/VAC bytes that agree with is_public and uses_vac |
| ReplyLemmas.OnlyEncodingsDecode | src/info.rs:80-166 | the bytes of any decoded body are an encoding of the decoded record |
| ReplyLemmas.PutExtrasLength | src/info.rs:113-142 | the optional part takes 2, 8, 2, name+1, keywords+1 and 8 bytes for the fields present |
| ReplyLemmas.EncodeRawLength | src/info.rs:80-166 | a body takes the byte count its fields call for, whatever bytes code its enums |
| ReplyLemmas.ExtrasConsumption | src/info.rs:111-142 | reading the optional part consumes 2 bytes for bit 0x80, 8 for 0x10, 2 plus the terminated name for 0x40, the terminated keywords for 0x20 and 8 for 0x01 |
| ReplyLemmas.Consumption | src/info.rs:80-166 | a decoded body consumed exactly the byte count of the decoded record's fields |
| ReplyLemmas.EdfOtherBitsIgnored | src/info.rs:111-142 | two EDF bytes select the same fields exactly when they agree on bits 0x80, 0x40, 0x20, 0x10 and 0x01; the other bits are ignored |
| ReplyLemmas.OptionalExtends | src/info.rs:113-117 | appending bytes keeps a successful optional read and its value |
| ReplyLemmas.ParseExtrasExtends | src/info.rs:113-142 | appending bytes keeps a successful read of the optional part; a failure other than running out becomes the same failure |
| ReplyLemmas.ParseExtends | src/info.rs:80-166 | appending bytes to a body keeps its decoded record and adds those bytes to what is left; a failure other than running out becomes the same failure |
| ReplyLemmas.ParseSplit | src/info.rs:80-166 | decoding a prefix of a body is consistent with decoding the whole body |
| ReplyLemmas.CutShort | src/info.rs:80-166 | a prefix that cuts into the fields of a decodable body is Truncated, never a record with made-up fields |
| ReplyLemmas.EncodingCutShort | src/lib.rs:61-147 | every proper prefix of a record's encoding is Truncated |
| Decoder.Cursor.constructor | src/info.rs:81 | a new cursor is at position 0 of the given bytes |
| Decoder.Cursor.Advance | src/info.rs:83 | moving the cursor n bytes gives what the reference read Take gives on the unread bytes |
| Decoder.Cursor.GetU8 | src/info.rs:83 | get_u8 gives what the reference read U8 gives on the unread bytes, and advances past it |
| Decoder.Cursor.GetI16 | src/info.rs:92 | get_i16 little-endian gives what the reference read I16 gives, and advances past it |
| Decoder.Cursor.GetI32 | src/info.rs:216 | get_i32 little-endian gives what the reference read I32 gives, and advances past it |
| Decoder.Cursor.GetU64 | src/info.rs:120 | get_u64 little-endian gives what the reference read U64 gives, and advances past it |
| Decoder.Cursor.Rest | src/info.rs:219 | `bytes().to_owned()` copies out exactly the unread bytes |
| Decoder.GetString | src/info.rs:65-76 | the loop returns the bytes before the first zero byte and leaves the cursor after it, or fails Truncated when no zero byte is left |
| Decoder.ReadExtras | src/info.rs:111-142 | the optional reads give what the reference ParseExtras gives for the EDF byte's selection |
| Decoder.FromBytes | src/info.rs:80-166 | from_bytes returns exactly the reference decoding of its input |
| Query.BuildRequest | src/info.rs:202-205 | the two `put_slice` calls build exactly the A2S_INFO request |
| Query.Unframe | src/info.rs:215-222 | a datagram is accepted exactly when its first four bytes are FF FF FF FF (i32 -1), and its body is the rest; a shorter one is Truncated; any other header is refused with its i32 value |
| Query.Received | src/info.rs:209-210 | the bytes kept are the datagram's first min(length, 1024) bytes |
| Query.HandleReply | src/info.rs:215-224 | what happens to the received bytes is the frame check followed by the reference decoding of the body |
| Query.QueryOnce | src/lib.rs:160-182 | one exchange sends the A2S_INFO request and returns the decoding of the buffered reply |
| Query.QueryStringLayout | src/info.rs:205 | the query string has 19 bytes and no zero byte |
| Query.RequestLayout | src/info.rs:204-205 | the request has 25 bytes: the -1 frame, 'T' and the terminated "Source Engine Query" |
| Query.ReceiveBuffered | src/info.rs:209-224 | a single-packet datagram decodes from its body, or from the first 1020 body bytes when the datagram overflows the buffer |
| Query.ReplyThroughBuffer | src/info.rs:196-225 | a reply datagram for a record decodes back to that record when it fits in 1024 bytes; otherwise it is Truncated |
| Scenarios.AsciiNoNul | src/info.rs:65-76 | text of nonzero characters has no zero byte |
| Scenarios.TextsHaveNoNul | src/info.rs:88-91 | the scenario strings have no zero byte |
| Scenarios.BodyIsEncoding | src/info.rs:80-166 | the scenario body is the encoding of the scenario record |
| Scenarios.PlainBody | src/info.rs:80-166 | the scenario body with EDF 00 decodes to the plain record, with server type and environment taken from the code bytes |
| Scenarios.PlainReply | src/info.rs:80-166 | the Counter-Strike reply with EDF 00 decodes to a dedicated Linux, public, VAC record with no optional fields |
| Scenarios.LittleEndianExamples | src/info.rs:114 | 01 6B reads as the i16 27393, and 2A 00 00 00 00 00 00 00 reads as the u64 42, and back |
| Scenarios.PortAndGameIdReply | src/info.rs:113-142 | with EDF 0x81 only the port and game id are present, with the values written |
| Scenarios.UnknownServerTypeReply | src/info.rs:100 | a reply with any server type byte other than 'd', 'l' and 'p' is refused with that byte |
| Scenarios.UnknownEnvironmentReply | src/info.rs:106 | a reply with any environment byte other than 'l', 'w' and 'm' is refused with that byte |
| Scenarios.PlainReplyCutShort | src/info.rs:80-166 | every proper prefix of the plain reply is Truncated |

## Left out

- Socket I/O (`UdpSocket::bind`, `connect`, `send`, `recv`) and the read timeout: the reply datagram is a parameter of `Query.QueryOnce`, and the request is returned rather than sent. The two copies differ only in the timeout (`info.rs` takes it as a parameter, `lib.rs` fixes 5 seconds), so the model covers one `query`.
- I/O errors from the socket are not modelled. The error values keep the offending byte or header but not the formatted message text (`format!`, `as char`).
- A panic of `bytes::Buf::get_*` on a short buffer is modelled as `Err(Truncated)`. The source panics instead of returning an error.
- `String::with_capacity(64)` and `push(b as char)`: strings are kept as the bytes that were read. Each byte `b` becomes the character with code `b` (Latin-1), so nothing is lost.
- Split (multi-packet) replies: the model refuses any frame other than -1 with `UnknownFrameHeader`, exactly as the source does. Reassembly is not part of this source.
- The internals of the `bytes` crate and `std::io::Cursor` are modelled only through the reads the decoder makes.
- Query.Received: a datagram longer than the 1024-byte buffer is modelled as a receive that keeps its first 1024 bytes and drops the rest, as `recv` does on Unix. The standard library only says the excess may be discarded, and on Windows the call fails instead (WSAEMSGSIZE), so `Query.ReplyThroughBuffer`'s Truncated outcome is that one platform behaviour.
- The `Clone`/`Copy` derives and the documentation comments carry no behaviour.
