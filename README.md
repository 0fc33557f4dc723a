# A DNS message codec (RFC 1035), modelled and proved in Dafny

This project models the message codec of `dns.py`, a small DNS client. The codec has two sides:

- building a query: a header and one question, with the name in length-prefixed labels;
- parsing a response: the header, the question section and the three record sections.

Names in records may be compressed with pointers (section 4.1.4 of RFC 1035). The project also models the formatting of an address payload as dotted-decimal text.

The modules follow the structure of the program:

| module | file | what it holds |
|---|---|---|
| `Wrappers` | `wrappers.dfy` | `Option`. `None` stands for the exception the Python program raises. |
| `Bytes` | `bytes.dfy` | Octets, 16- and 32-bit fields, and big-endian packing in place of `struct`. |
| `Cursor` | `cursor.dfy` | The `io.BytesIO` cursor: `ReadAt` (what one `read(n)` returns) and the class `Reader` (`read`, `tell`, `seek` over an immutable buffer). |
| `Delimited` | `delimited.dfy` | `bytes.split` and `sep.join`. |
| `NameCodec` | `name_codec.dfy` | `encode_dns_name`, `decode_name_simple`, `decode_name`, `decode_compressed_name`. |
| `MessageCodec` | `message_codec.dfy` | The four data classes, `header_to_bytes`, `question_to_bytes`, `build_query`, `parse_header`, `parse_question`, `parse_record`, `parse_dns_packet`. |
| `AddressFormat` | `address_format.dfy` | `ip_to_string`. |

Each decoder has two forms:

- **A specification function** of the buffer and a position. It returns the value read and the position where the cursor stops, or `None`. Examples: `NameCodec.NameAt`, `MessageCodec.RecordAt`, `MessageCodec.PacketOf`.
- **A method over a shared `Reader`**, written as the Python code is, with its loops, reads, `tell` and `seek`. `Cursor.Yields` states that such a method returns what the specification function describes, and leaves the cursor where that function says.

`ParseDnsPacket` creates its own reader, so its contract is simply `r == PacketOf(data)`.

The four data classes of dns.py:24-56 are datatypes of `MessageCodec`, with the same fields in the same order:

- `Header` (dns.py:24-31): id, flags and the four section counts, each a 16-bit field. The Python defaults of 0 for the counts are not modelled; every header is built with all six fields.
- `Question` (dns.py:34-38): name, type and class.
- `Record` (dns.py:41-47): name, type, class, a 32-bit TTL and the payload.
- `Packet` (dns.py:50-56): the header and the four sections.

In four places the Python code is laxer or stricter than RFC 1035. The model follows the code:

- A record whose payload is cut short by the end of the message is not an error. `read(data_len)` returns the remaining octets (`RecordShortPayload`). A stricter decoder would report a truncated message.
- Questions are decoded without following pointers, as `parse_question` does. A pointer octet is read as a label length (`SimplePointerAsLength`).
- The encoder checks neither the 63-octet label limit nor the 255-octet name limit. It fails only where `bytes([len(part)])` fails, for a part of 256 octets or more.
- The pointer test is `length & 0xC0 != 0`, so any octet of 64 or more is a pointer, not only octets of 192 or more (`PointerBits`).

One deliberate hardening makes name decoding terminate, which the Python program does not guarantee. A pointer must lead to an offset strictly before the offset where the name being decoded began. Otherwise decoding fails. This rejects every cycle, including a pointer to itself (`PointerNotBackwardFails`, `SelfPointerFails`). A check against the pointer's own offset would not be enough. Suppose a 4-octet label sits at offset 25 and a pointer at offset 30 leads back to 25. The pointer is behind itself, yet decoding loops.

## Model

One-step helper lemmas have no row. They unfold a single branch of a decoder or split a buffer, and they serve as steps in the proofs listed here. Examples: `NameCodec.TerminatorStep`, `NameCodec.LabelStep`, `NameCodec.PointerStep`, `NameCodec.PointerNotBackwardFails`, `MessageCodec.SectionLaid`, `MessageCodec.LaidRecordsParse`, `MessageCodec.QuestionSectionSplit`, `MessageCodec.QuestionsParse`, `MessageCodec.PacketLaidOut`.

| member | source | states |
|---|---|---|
| Bytes.PackU16 | dns.py:62 | A 16-bit field packs into two octets. |
| Bytes.UnpackU16 | dns.py:127 | `struct.unpack("!H")`: the first of the two octets is the high octet of the value, and the second is the low octet. |
| Bytes.PackU32 | dns.py:135 | The reference layout of the 32-bit TTL is four octets. The program only unpacks a TTL and never packs one. |
| Bytes.UnpackU32 | dns.py:135 | `struct.unpack("!I")`: the first two octets are the high 16 bits of the value, and the last two are the low 16 bits. |
| Bytes.UnpackPackU16 | dns.py:85-89 | Unpacking the two octets of a packed 16-bit value gives the value back. |
| Bytes.PackUnpackU16 | dns.py:85-89 | Every two octets are the packing of the value they unpack to. |
| Bytes.UnpackPackU32 | dns.py:131-137 | Unpacking the four octets of a packed 32-bit TTL gives it back. |
| Bytes.PackUnpackU32 | dns.py:131-137 | Every four octets are the packing of the 32-bit value they unpack to. |
| Cursor.ReadAt | dns.py:136 | `read(n)` returns the next `n` octets when that many remain, and otherwise every remaining octet. The cursor stops right after what was returned and never passes the end. |
| Cursor.Reader.constructor | dns.py:141 | A reader over the message starts at position 0. |
| Cursor.Reader.Read | dns.py:86 | A read returns the octets that `ReadAt` gives, and moves the cursor to where `ReadAt` stops. |
| Cursor.Reader.Tell | dns.py:117 | `tell` returns the current position. |
| Cursor.Reader.Seek | dns.py:118 | `seek` moves the cursor to the given position inside the buffer. |
| Delimited.Split | dns.py:71 | `split(b".")` yields at least one part, and no part contains the separator. |
| Delimited.JoinSplit | dns.py:71 | Joining the parts of a split gives the name back. |
| Delimited.SplitWithoutSeparator | dns.py:71 | A name without a dot splits into itself alone. |
| Delimited.SplitAfterPart | dns.py:71 | Splitting `a.b` yields `a`, then the parts of `b`. |
| Delimited.SplitJoin | dns.py:152 | Splitting a join of separator-free parts gives back the parts. |
| Delimited.Join | dns.py:96 | `b".".join(parts)`: the parts in order, with one separator between consecutive parts. It has no contract of its own. `JoinSplit` and `SplitJoin` make it the inverse of `Split`, and `JoinLengthBound` bounds its length. |
| Delimited.JoinLengthBound | dns.py:152 | A join of `n` parts of at most `k` elements is at most `n * (k + 1) - 1` long. |
| NameCodec.EncodeName | dns.py:69-73 | What `encode_dns_name` returns. It succeeds exactly when every dot-separated part fits a length octet. The encoding is longer than the number of parts: one length octet per part, plus the terminator. |
| NameCodec.EncodedNameShape | dns.py:69-73 | An encoding is at least two octets long, starts with the length of the first part and ends with the zero octet. |
| NameCodec.EncodeDnsName | dns.py:69-73 | The loop returns each dot-separated part as a length octet and its octets, then a zero octet. It returns `None` when a part has 256 octets or more. |
| NameCodec.LabelsWireAppend | dns.py:72 | Each step of the loop appends one length octet and the part's octets. |
| NameCodec.LabelsWire | dns.py:71-72 | The run of labels has at least one octet per part, and it starts with the length octet of the first part. |
| NameCodec.LabelsWireLength | dns.py:71-72 | The run of labels is one octet longer than the dotted form. |
| NameCodec.EncodeNameLength | dns.py:69-73 | The encoding of a name is exactly 2 octets longer than the name. |
| NameCodec.EncodeSingleLabel | dns.py:69-73 | A name without a dot encodes as its length, its octets and a zero octet. |
| NameCodec.EncodeFirstLabel | dns.py:71-72 | The first part is emitted first, then the encoding of the rest. The whole encodes exactly when the rest does. |
| NameCodec.PointerOffset | dns.py:115-116 | The pointer offset is a 14-bit value. |
| NameCodec.IsPointer | dns.py:105 | For every octet, the pointer test is `length & 0b1100_0000 != 0`, so every octet of 64 or more is a pointer. |
| NameCodec.PointerBits | dns.py:105 | For every octet, `IsPointer` is the bit test of the program. The offset is `struct.unpack("!H", bytes([length & 0x3F]) + next)` (dns.py:115-116). |
| NameCodec.OctetBits | dns.py:115 | The bit-vector AND with 0x3F and 0xC0, in integer terms. |
| NameCodec.SimpleLabelsAt | dns.py:92-96 | When the labels are read, the cursor has moved forward and stays inside the buffer. |
| NameCodec.SimpleNameAt | dns.py:92-96 | The same, for the labels joined by dots. |
| NameCodec.NameAt | dns.py:99-111 | The same for the parts the compression-aware decoder collects, from any position within the name. |
| NameCodec.PointerNameAt | dns.py:114-121 | After a pointer the cursor stops right after the second pointer octet, inside the buffer. |
| NameCodec.DecodeNameAt | dns.py:99-111 | When the name is read, the cursor has moved forward and stays inside the buffer. |
| NameCodec.DecodeNameSimple | dns.py:92-96 | The loop fails exactly when `SimpleNameAt` does. Otherwise it returns that name and leaves the cursor where that function says. |
| NameCodec.DecodeName | dns.py:99-111 | The loop fails exactly when `DecodeNameAt` does. Otherwise it returns that name and leaves the cursor where that function says. |
| NameCodec.DecodeCompressedName | dns.py:114-121 | The offset is read and followed; the cursor is then restored to just after the second pointer octet. The result is what `PointerNameAt` gives. |
| NameCodec.WireHead | dns.py:72 | In an encoded run, the first label sits at the front and the rest follows it. |
| NameCodec.WireRun | dns.py:71-72 | The labels of an encoded name, where they sit in a buffer, form a run of labels below a length limit. Each decoder reads such a run one label at a time. |
| NameCodec.SimpleLabelsPrefix | dns.py:92-96 | `decode_name_simple` reads an encoded run of labels of 1 to 255 octets as exactly those labels, and then carries on with what follows. |
| NameCodec.LabelsPrefix | dns.py:103-110 | `decode_name` does the same for labels of 1 to 63 octets, wherever the name began. |
| NameCodec.SimpleDecodeEncodedName | dns.py:92-96 | Name round trip for `decode_name_simple`: for parts of 1 to 255 octets, the name comes back from its encoding. The cursor stops just past the zero octet. |
| NameCodec.DecodeEncodedName | dns.py:92-111 | Name round trip: for labels of 1 to 63 octets, both decoders give the name back from its encoding. The cursor stops just past the zero octet. |
| NameCodec.EmptyNameStopsEarly | dns.py:69-73 | The empty name encodes as `00 00`. Each decoder stops after the first zero octet and returns the empty name, leaving the second octet unread. |
| NameCodec.CompressedName | dns.py:104-108 | Labels followed by a pointer decode as those labels and the name at the offset, joined by dots. The cursor stops after the two pointer octets, not after the target. |
| NameCodec.SimplePointerAsLength | dns.py:94-95 | The simple decoder reads a pointer octet as a label length. Near the end of the message it therefore fails. |
| NameCodec.PointerOnlyInRecordNames | dns.py:92-111 | At the end of a message, the same pointer to an earlier name makes `decode_name_simple` fail, while `decode_name` follows it and returns the name at the offset. |
| NameCodec.PointerToOffsetTwelve | dns.py:114-121 | The octets `C0 0C` decode to the name at offset 12. The cursor stops after them. |
| NameCodec.SelfPointerFails | dns.py:114-119 | A pointer to itself makes decoding fail. |
| MessageCodec.HeaderToBytes | dns.py:59-62 | The header is 12 octets: id, flags and the four counts, in that order, each big-endian. |
| MessageCodec.QuestionToBytes | dns.py:65-66 | The name comes first, then type and class, each big-endian. |
| MessageCodec.BuildQuery | dns.py:76-82 | A query is built exactly when the name can be encoded. |
| MessageCodec.HeaderAt | dns.py:85-89 | Parsing fails exactly when fewer than 12 octets remain. Otherwise the header read is the one whose encoding those 12 octets are, and the cursor advances by 12. |
| MessageCodec.QuestionAt | dns.py:124-128 | Parsing fails exactly when the simple name decoder fails or fewer than 4 octets follow the name. Otherwise the name is the decoded one, and the cursor stops 4 octets after it. |
| MessageCodec.RecordAt | dns.py:131-137 | Parsing fails exactly when the name fails or fewer than 10 octets follow it. A short payload is not a failure. Otherwise the name is the decoded one, and the cursor stays inside the buffer. |
| MessageCodec.QuestionsAt | dns.py:143 | Reading `n` questions gives exactly `n`. The cursor moves forward and stays inside the buffer. `QuestionsRoundTrip` states that they come in wire order. |
| MessageCodec.RecordsAt | dns.py:144-146 | Reading `n` records gives exactly `n`. The cursor moves forward and stays inside the buffer. `SectionRoundTrip` states that they come in wire order. |
| MessageCodec.PacketOf | dns.py:140-148 | The header is returned as parsed. Each of the four sections holds exactly as many entries as its header count. A message shorter than 12 octets fails. |
| MessageCodec.ParseHeader | dns.py:85-89 | Reads 12 octets and unpacks them, as `HeaderAt` describes. |
| MessageCodec.UnpackHeader | dns.py:88-89 | The 12 octets read are the encoding of the header they unpack to. |
| MessageCodec.ParseQuestion | dns.py:124-128 | Reads the name, then type and class, as `QuestionAt` describes. |
| MessageCodec.ParseRecord | dns.py:131-137 | Reads the name, the 10 fixed octets, then the payload, as `RecordAt` describes. |
| MessageCodec.ParseQuestions | dns.py:143 | The comprehension over `range(num_questions)` gives `QuestionsAt`. |
| MessageCodec.ParseRecords | dns.py:144-146 | The comprehension over a record count gives `RecordsAt`. |
| MessageCodec.ParseDnsPacket | dns.py:140-148 | With one cursor threaded through the sections, the result is `PacketOf(data)`. |
| MessageCodec.HeaderRoundTrip | dns.py:85-89 | Header round trip: parsing the output of `header_to_bytes` gives the header back and consumes 12 octets. |
| MessageCodec.QuestionRoundTrip | dns.py:124-128 | Question round trip: the question built for a name with parts of 1 to 255 octets parses back. The name is in dotted form, type and class are unchanged, and exactly the serialised octets are consumed. |
| MessageCodec.RecordFieldsToBytes | dns.py:133-137 | The octets after a record's name: type, class, TTL, payload length and payload. The Python program has no record encoder; this layout is the reference its parser is held to. |
| MessageCodec.RecordRoundTrip | dns.py:131-137 | When the payload is present, the fields parse back and `data` is exactly the next `data_len` octets. The cursor advances by 10 + `data_len` past the name, whether or not the name was compressed. |
| MessageCodec.RecordShortPayload | dns.py:136 | A payload cut short takes every remaining octet, and the cursor stops at the end. |
| MessageCodec.RecordToBytes | dns.py:131-137 | The reference layout of a record without compression: the encoded name, then `RecordFieldsToBytes`. It exists exactly when the name can be encoded and the payload fits the 16-bit length. |
| MessageCodec.RecordLaidOutRoundTrip | dns.py:131-137 | A record laid out so, with a name of labels of 1 to 63 octets, parses back as itself. The cursor stops right after it. |
| MessageCodec.SectionToBytes | dns.py:144-146 | Records laid out one after another. A section can be laid out exactly when each of its records can. |
| MessageCodec.SectionRoundTrip | dns.py:144-146 | Section round trip: records laid out one after another parse back as those records, in the same order. The cursor stops just past the last one. |
| MessageCodec.QuestionLayout | dns.py:65-66 | The reference layout of a parsed question: its dotted name encoded, then type and class. It exists exactly when the name can be encoded, and it is 4 octets longer than the encoded name. |
| MessageCodec.QuestionLaidOutRoundTrip | dns.py:124-128 | A question laid out so, with a name of parts of 1 to 255 octets, parses back as itself. The cursor stops right after it. |
| MessageCodec.QuestionSectionToBytes | dns.py:143 | Questions laid out one after another. A section can be laid out exactly when each of its questions can. |
| MessageCodec.QuestionsRoundTrip | dns.py:143 | Question section round trip: questions laid out one after another parse back as those questions, in the same order. The cursor stops just past the last one. |
| MessageCodec.PacketToBytes | dns.py:140-148 | The reference layout of a whole message: the header, then the question, answer, authority and additional sections. It exists exactly when each section can be laid out. |
| MessageCodec.PacketRoundTrip | dns.py:140-148 | Packet round trip: `parse_dns_packet` reads a laid-out message back as the same packet, with every section in order. This holds when the header counts agree with the sections (`CountsAgree`) and every name reads back (`NamesReadable`). |
| MessageCodec.BuildQueryParses | dns.py:76-82 | A query for a name with parts of 1 to 255 octets parses back as a packet. The header is the one built (id, flags 0x0100, counts 1, 0, 0, 0). There is one question, of class IN, and there are no records. |
| MessageCodec.BuildQueryLength | dns.py:76-82 | A query is 18 octets longer than the name. |
| MessageCodec.QueryHeaderBytes | dns.py:79-80 | The query header is the id followed by `01 00 00 01 00 00 00 00 00 00`. |
| MessageCodec.BuildQueryLayout | dns.py:76-82 | A query consists of the id, the flags `01 00`, the counts 1, 0, 0, 0, the encoded name, the type and the class `00 01`. |
| MessageCodec.ExampleName | dns.py:69-73 | "example.com" encodes as `07 65 78 61 6d 70 6c 65 03 63 6f 6d 00`. |
| MessageCodec.ExampleQuery | dns.py:76-82 | With id 1 and type A, the query for "example.com" is `00 01 01 00 00 01 00 00 00 00 00 00`, then the encoded name, then `00 01 00 01`. |
| MessageCodec.AnswerNamedByPointer | dns.py:131-132 | A record whose name is `C0 0C` carries the name of the question at offset 12. |
| AddressFormat.DecimalString | dns.py:152 | `str(x)` is one or more decimal digits. It starts with `0` only for 0, which is written `0`. |
| AddressFormat.DecimalRoundTrip | dns.py:152 | Reading the numeral of `x` gives `x`. |
| AddressFormat.OctetDigits | dns.py:152 | An octet is written with at most 3 digits. |
| AddressFormat.OctetStrings | dns.py:152 | `str(x) for x in ip` gives one numeral per octet, in order. |
| AddressFormat.IpToString | dns.py:151-152 | The text is empty exactly when the address is empty. |
| AddressFormat.IpRoundTrip | dns.py:151-152 | Reading dotted-decimal text back gives the same non-empty address. |
| AddressFormat.IpToStringInjective | dns.py:151-152 | Different addresses have different texts, the empty address included. |
| AddressFormat.IpToStringLength | dns.py:151-152 | A four-octet address is written in at most 15 characters. |
| AddressFormat.ExampleAddress | dns.py:151-152 | The octets 93, 184, 216, 34 are written "93.184.216.34". |

## Left out

- `lookup_domain` and `main` (dns.py:155-169): network I/O over a UDP socket, printing and the process entry point. The Python code also takes `answers[0]` there without checking that an answer exists.
- `random.seed` and `random.randint` (dns.py:18, dns.py:78): `BuildQuery` takes the transaction id as a parameter.
- `encode("ascii")` (dns.py:71): names are modelled as octets. The `UnicodeEncodeError` for non-ASCII text is not modelled.
- `struct` format strings and `dataclasses.astuple`: written out as big-endian arithmetic on octets. The `struct.error` that packing raises for an integer outside 0..65535 cannot occur, because fields are typed `u16` and `u32`.
- `assert data is not None` (dns.py:87): `BytesIO.read` never returns `None`, so this check has no effect and is not modelled.
- NameCodec.NameAt and NameCodec.PointerNameAt: reject every pointer that does not lead before the start of the current name. The Python program follows a forward pointer, and it recurses without a bound on a cycle until Python's recursion limit raises `RecursionError`. Forward pointers and the recursion limit are not modelled.
- NameCodec.SimpleDecodeEncodedName: proved for parts of 1 to 255 octets. An empty part (as in `a..b`) encodes as a zero octet, which ends the name early. The empty name encodes as `00 00`, and decoding stops after the first of them (`EmptyNameStopsEarly`). A part of 256 octets or more cannot be encoded at all.
- NameCodec.DecodeEncodedName: proved for parts of 1 to 63 octets, for the reason above and one more. Only `decode_name` takes a length octet of 64 or more for a pointer (dns.py:105), so a longer part does not come back from it.
- MessageCodec.QuestionRoundTrip and MessageCodec.BuildQueryParses: `parse_question` uses `decode_name_simple`, so these are proved for parts of 1 to 255 octets, for the reason given for `SimpleDecodeEncodedName`.
- MessageCodec.RecordLaidOutRoundTrip and MessageCodec.SectionRoundTrip: `parse_record` uses `decode_name`, so these are proved for labels of 1 to 63 octets, as `DecodeEncodedName` is.
- MessageCodec.QuestionLaidOutRoundTrip and MessageCodec.QuestionsRoundTrip: proved for parts of 1 to 255 octets, as `QuestionRoundTrip` is.
- MessageCodec.PacketRoundTrip: proved for messages laid out without compression, with question names of 1 to 255-octet parts and record names of 1 to 63-octet labels. Compressed record names are covered one name at a time (`CompressedName`, `AnswerNamedByPointer`).
- AddressFormat.IpRoundTrip: proved for non-empty addresses only. `ip_to_string(b"")` is the empty text, and splitting that yields one empty part.
- Cursor.Reader.Seek: requires a position inside the buffer. `BytesIO.seek` also accepts a position past the end, but the codec seeks only to a pointer target before the current name and back to a saved position.
- `Question.name` holds the wire form when a question is built and the dotted form when one is parsed, as in the Python program. The model does not tell the two apart by type.
