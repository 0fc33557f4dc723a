/** The message layout of RFC 1035, section 4.1: a 12-octet header, the question
    section and the three resource-record sections (answers, authorities,
    additionals), each holding as many entries as the header counts. */
module MessageCodec {
  import opened Wrappers
  import opened Bytes
  import opened Cursor
  import opened Delimited
  import opened NameCodec

  /** Record type A, a host address (section 3.2.2 of RFC 1035). */
  const TYPE_A: u16 := 1
  /** Class IN, the Internet (section 3.2.4 of RFC 1035). */
  const CLASS_IN: u16 := 1
  /** The RD bit of the header flags, `1 << 8`. */
  const RECURSION_DESIRED: u16 := 0x0100

  datatype Header = Header(id: u16, flags: u16, numQuestions: u16, numAnswers: u16,
                           numAuthorities: u16, numAdditionals: u16)

  /** The name is in wire form in a question built for sending, and in dotted form
      in a question parsed from a message. */
  datatype Question = Question(name: Bytes, recordType: u16, recordClass: u16)

  datatype Record = Record(name: Bytes, recordType: u16, recordClass: u16, ttl: u32, data: Bytes)

  datatype Packet = Packet(header: Header, questions: seq<Question>, answers: seq<Record>,
                           authorities: seq<Record>, additionals: seq<Record>)

  // ---------------------------------------------------------------------------
  // Encoding

  /** `header_to_bytes`: the six fields in declaration order, each a big-endian
      16-bit value (section 4.1.1 of RFC 1035). */
  function HeaderToBytes(h: Header): (r: Bytes)
    ensures |r| == 12
    ensures UnpackU16(r[0..2]) == h.id && UnpackU16(r[2..4]) == h.flags
    ensures UnpackU16(r[4..6]) == h.numQuestions && UnpackU16(r[6..8]) == h.numAnswers
    ensures UnpackU16(r[8..10]) == h.numAuthorities && UnpackU16(r[10..12]) == h.numAdditionals
  {
    var r := PackU16(h.id) + PackU16(h.flags) + PackU16(h.numQuestions) + PackU16(h.numAnswers)
             + PackU16(h.numAuthorities) + PackU16(h.numAdditionals);
    assert r[0..2] == PackU16(h.id) && r[2..4] == PackU16(h.flags);
    assert r[4..6] == PackU16(h.numQuestions) && r[6..8] == PackU16(h.numAnswers);
    assert r[8..10] == PackU16(h.numAuthorities) && r[10..12] == PackU16(h.numAdditionals);
    r
  }

  /** `question_to_bytes`: the name as given, then type and class, each a big-endian
      16-bit value (section 4.1.2 of RFC 1035). */
  function QuestionToBytes(q: Question): (r: Bytes)
    ensures |r| == |q.name| + 4 && r[..|q.name|] == q.name
    ensures UnpackU16(r[|q.name|..|q.name| + 2]) == q.recordType
    ensures UnpackU16(r[|q.name| + 2..]) == q.recordClass
  {
    var r := q.name + PackU16(q.recordType) + PackU16(q.recordClass);
    assert r[|q.name|..|q.name| + 2] == PackU16(q.recordType);
    assert r[|q.name| + 2..] == PackU16(q.recordClass);
    r
  }

  /** `build_query` with the transaction id as a parameter: a header with the RD
      flag, one question and no records, followed by the question for `name` in
      class IN; `None` where encoding the name fails. */
  function BuildQuery(id: u16, name: Bytes, recordType: u16): (r: Option<Bytes>)
    ensures r.Some? <==> EncodeName(name).Some?
  {
    match EncodeName(name)
    case None => None
    case Some(wire) =>
      var header := Header(id, RECURSION_DESIRED, 1, 0, 0, 0);
      Some(HeaderToBytes(header) + QuestionToBytes(Question(wire, recordType, CLASS_IN)))
  }

  // ---------------------------------------------------------------------------
  // Decoding, as functions of the buffer and the cursor position

  /** `struct.unpack("!HHHHHH", data)` on the 12 octets read: the header whose
      encoding those octets are. */
  function UnpackHeader(b: Bytes): (h: Header)
    requires |b| == 12
    ensures HeaderToBytes(h) == b
  {
    PackUnpackU16(b[0..2]);
    PackUnpackU16(b[2..4]);
    PackUnpackU16(b[4..6]);
    PackUnpackU16(b[6..8]);
    PackUnpackU16(b[8..10]);
    PackUnpackU16(b[10..12]);
    assert b == b[0..2] + b[2..4] + b[4..6] + b[6..8] + b[8..10] + b[10..12];
    Header(UnpackU16(b[0..2]), UnpackU16(b[2..4]), UnpackU16(b[4..6]),
           UnpackU16(b[6..8]), UnpackU16(b[8..10]), UnpackU16(b[10..12]))
  }

  /** `parse_header`: fails when fewer than 12 octets remain; otherwise the header is
      the one whose encoding those 12 octets are. */
  function HeaderAt(buf: Bytes, pos: nat): (r: Option<(Header, nat)>)
    requires pos <= |buf|
    ensures r.Some? <==> pos + 12 <= |buf|
    ensures r.Some? ==> r.value.1 == pos + 12 && HeaderToBytes(r.value.0) == buf[pos..pos + 12]
  {
    if pos + 12 <= |buf| then
      var data := buf[pos..pos + 12];
      Some((UnpackHeader(data), pos + 12))
    else
      None
  }

  /** `parse_question`: a name read without following pointers, then the four
      octets of type and class. */
  function QuestionAt(buf: Bytes, pos: nat): (r: Option<(Question, nat)>)
    requires pos <= |buf|
    ensures r.Some? <==> SimpleNameAt(buf, pos).Some? && SimpleNameAt(buf, pos).value.1 + 4 <= |buf|
    ensures r.Some? ==> r.value.0.name == SimpleNameAt(buf, pos).value.0
    ensures r.Some? ==> r.value.1 == SimpleNameAt(buf, pos).value.1 + 4
  {
    match SimpleNameAt(buf, pos)
    case None => None
    case Some((name, p)) =>
      if p + 4 <= |buf| then
        var data := buf[p..p + 4];
        Some((Question(name, UnpackU16(data[0..2]), UnpackU16(data[2..4])), p + 4))
      else
        None
  }

  /** `parse_record`: a name read with pointers followed, the ten octets of type,
      class, TTL and payload length, then `read(data_len)`, which takes whatever
      remains when the payload is cut short. */
  function RecordAt(buf: Bytes, pos: nat): (r: Option<(Record, nat)>)
    requires pos <= |buf|
    ensures r.Some? <==> DecodeNameAt(buf, pos).Some? && DecodeNameAt(buf, pos).value.1 + 10 <= |buf|
    ensures r.Some? ==> r.value.0.name == DecodeNameAt(buf, pos).value.0
    ensures r.Some? ==> DecodeNameAt(buf, pos).value.1 + 10 <= r.value.1 <= |buf|
  {
    match DecodeNameAt(buf, pos)
    case None => None
    case Some((name, p)) =>
      if p + 10 <= |buf| then
        var fields := buf[p..p + 10];
        var (data, end) := ReadAt(buf, p + 10, UnpackU16(fields[8..10]));
        var record := Record(name, UnpackU16(fields[0..2]), UnpackU16(fields[2..4]),
                             UnpackU32(fields[4..8]), data);
        Some((record, end))
      else
        None
  }

  /** `[parse_question(reader) for _ in range(n)]`: `n` questions in wire order. */
  function QuestionsAt(buf: Bytes, pos: nat, n: nat): (r: Option<(seq<Question>, nat)>)
    requires pos <= |buf|
    ensures r.Some? ==> |r.value.0| == n && pos <= r.value.1 <= |buf|
    decreases n
  {
    if n == 0 then Some(([], pos))
    else
      match QuestionAt(buf, pos)
      case None => None
      case Some((q, p)) => Prefixed([q], QuestionsAt(buf, p, n - 1))
  }

  /** `[parse_record(reader) for _ in range(n)]`: `n` records in wire order. */
  function RecordsAt(buf: Bytes, pos: nat, n: nat): (r: Option<(seq<Record>, nat)>)
    requires pos <= |buf|
    ensures r.Some? ==> |r.value.0| == n && pos <= r.value.1 <= |buf|
    decreases n
  {
    if n == 0 then Some(([], pos))
    else
      match RecordAt(buf, pos)
      case None => None
      case Some((rec, p)) => Prefixed([rec], RecordsAt(buf, p, n - 1))
  }

  /** `parse_dns_packet`: the header, then each section in turn from where the
      previous one ended. The header is returned as parsed, and every section holds
      exactly as many entries as the header counts. */
  function PacketOf(buf: Bytes): (r: Option<Packet>)
    ensures |buf| < 12 ==> r.None?
    ensures r.Some? ==> HeaderAt(buf, 0).Some? && r.value.header == HeaderAt(buf, 0).value.0
    ensures r.Some? ==>
      var h := r.value.header;
      |r.value.questions| == h.numQuestions && |r.value.answers| == h.numAnswers &&
      |r.value.authorities| == h.numAuthorities && |r.value.additionals| == h.numAdditionals
  {
    match HeaderAt(buf, 0)
    case None => None
    case Some((h, p0)) =>
      match QuestionsAt(buf, p0, h.numQuestions)
      case None => None
      case Some((questions, p1)) =>
        match RecordsAt(buf, p1, h.numAnswers)
        case None => None
        case Some((answers, p2)) =>
          match RecordsAt(buf, p2, h.numAuthorities)
          case None => None
          case Some((authorities, p3)) =>
            match RecordsAt(buf, p3, h.numAdditionals)
            case None => None
            case Some((additionals, _)) =>
              Some(Packet(h, questions, answers, authorities, additionals))
  }

  // ---------------------------------------------------------------------------
  // Decoding with the shared cursor

  /** `parse_header`. */
  method ParseHeader(reader: Reader) returns (r: Option<Header>)
    requires reader.Valid()
    modifies reader
    ensures reader.Valid()
    ensures Yields(r, reader.pos, HeaderAt(reader.data, old(reader.pos)))
  {
    var data := reader.Read(12);
    if |data| < 12 {
      // struct.unpack raises on a short read
      return None;
    }
    r := Some(UnpackHeader(data));
  }

  /** `parse_question`. */
  method ParseQuestion(reader: Reader) returns (r: Option<Question>)
    requires reader.Valid()
    modifies reader
    ensures reader.Valid()
    ensures Yields(r, reader.pos, QuestionAt(reader.data, old(reader.pos)))
  {
    var name := DecodeNameSimple(reader);
    if name.None? {
      return None;
    }
    var data := reader.Read(4);
    if |data| < 4 {
      return None;
    }
    r := Some(Question(name.value, UnpackU16(data[0..2]), UnpackU16(data[2..4])));
  }

  /** `parse_record`. */
  method ParseRecord(reader: Reader) returns (r: Option<Record>)
    requires reader.Valid()
    modifies reader
    ensures reader.Valid()
    ensures Yields(r, reader.pos, RecordAt(reader.data, old(reader.pos)))
  {
    var name := DecodeName(reader);
    if name.None? {
      return None;
    }
    var fields := reader.Read(10);
    if |fields| < 10 {
      return None;
    }
    var dataLength := UnpackU16(fields[8..10]);
    var data := reader.Read(dataLength);
    r := Some(Record(name.value, UnpackU16(fields[0..2]), UnpackU16(fields[2..4]),
                     UnpackU32(fields[4..8]), data));
  }

  /** The question section, one `parse_question` after another. */
  method ParseQuestions(reader: Reader, n: nat) returns (r: Option<seq<Question>>)
    requires reader.Valid()
    modifies reader
    ensures reader.Valid()
    ensures Yields(r, reader.pos, QuestionsAt(reader.data, old(reader.pos), n))
  {
    ghost var start := reader.pos;
    var questions: seq<Question> := [];
    PrefixedNothing(QuestionsAt(reader.data, start, n));
    for i := 0 to n
      invariant reader.Valid()
      invariant QuestionsAt(reader.data, start, n) == Prefixed(questions, QuestionsAt(reader.data, reader.pos, n - i))
    {
      var q := ParseQuestion(reader);
      if q.None? {
        return None;
      }
      PrefixedTwice(questions, [q.value], QuestionsAt(reader.data, reader.pos, n - i - 1));
      questions := questions + [q.value];
    }
    assert questions + [] == questions;
    r := Some(questions);
  }

  /** A record section, one `parse_record` after another. */
  method ParseRecords(reader: Reader, n: nat) returns (r: Option<seq<Record>>)
    requires reader.Valid()
    modifies reader
    ensures reader.Valid()
    ensures Yields(r, reader.pos, RecordsAt(reader.data, old(reader.pos), n))
  {
    ghost var start := reader.pos;
    var records: seq<Record> := [];
    PrefixedNothing(RecordsAt(reader.data, start, n));
    for i := 0 to n
      invariant reader.Valid()
      invariant RecordsAt(reader.data, start, n) == Prefixed(records, RecordsAt(reader.data, reader.pos, n - i))
    {
      var rec := ParseRecord(reader);
      if rec.None? {
        return None;
      }
      PrefixedTwice(records, [rec.value], RecordsAt(reader.data, reader.pos, n - i - 1));
      records := records + [rec.value];
    }
    assert records + [] == records;
    r := Some(records);
  }

  /** `parse_dns_packet`: one cursor over the message, threaded through every section. */
  method ParseDnsPacket(data: Bytes) returns (r: Option<Packet>)
    ensures r == PacketOf(data)
  {
    var reader := new Reader(data);
    var header := ParseHeader(reader);
    if header.None? {
      return None;
    }
    var h := header.value;
    var questions := ParseQuestions(reader, h.numQuestions);
    if questions.None? {
      return None;
    }
    var answers := ParseRecords(reader, h.numAnswers);
    if answers.None? {
      return None;
    }
    var authorities := ParseRecords(reader, h.numAuthorities);
    if authorities.None? {
      return None;
    }
    var additionals := ParseRecords(reader, h.numAdditionals);
    if additionals.None? {
      return None;
    }
    r := Some(Packet(h, questions.value, answers.value, authorities.value, additionals.value));
  }

  // ---------------------------------------------------------------------------
  // Properties of the codec

  /** Header round trip: `parse_header` reads back what `header_to_bytes` wrote. */
  lemma HeaderRoundTrip(h: Header, buf: Bytes, pos: nat)
    requires pos + 12 <= |buf| && buf[pos..pos + 12] == HeaderToBytes(h)
    ensures HeaderAt(buf, pos) == Some((h, pos + 12))
  {
  }

  /** Question round trip: the question built for a name with 1..255-octet labels
      parses back with the dotted name, the same type and class, and the cursor just
      past its encoding. */
  lemma QuestionRoundTrip(name: Bytes, wire: Bytes, recordType: u16, recordClass: u16, buf: Bytes, pos: nat)
    requires SimpleName(name) && EncodeName(name) == Some(wire)
    requires pos + |wire| + 4 <= |buf|
    requires buf[pos..pos + |wire| + 4] == QuestionToBytes(Question(wire, recordType, recordClass))
    ensures QuestionAt(buf, pos) == Some((Question(name, recordType, recordClass), pos + |wire| + 4))
  {
    var qb := QuestionToBytes(Question(wire, recordType, recordClass));
    var p := pos + |wire|;
    assert SimpleNameAt(buf, pos) == Some((name, p)) by {
      assert buf[pos..p] == wire by {
        Subslice(buf, pos, p + 4, 0, |wire|);
      }
      SimpleDecodeEncodedName(name, wire, buf, pos);
    }
    var data := buf[p..p + 4];
    assert UnpackU16(data[0..2]) == recordType && UnpackU16(data[2..4]) == recordClass by {
      assert data == qb[|wire|..] by {
        Subslice(buf, pos, p + 4, |wire|, |wire| + 4);
      }
      assert data[0..2] == qb[|wire|..|wire| + 2] && data[2..4] == qb[|wire| + 2..];
    }
  }

  /** The octets that follow a record's name (section 4.1.3 of RFC 1035): type,
      class, TTL, payload length and payload. The Python program only parses
      records; this layout is the reference its parser is held to. */
  function RecordFieldsToBytes(rec: Record): (r: Bytes)
    requires |rec.data| < 0x1_0000
    ensures |r| == 10 + |rec.data|
  {
    PackU16(rec.recordType) + PackU16(rec.recordClass) + PackU32(rec.ttl) + PackU16(|rec.data|) + rec.data
  }

  /** Record round trip: after a name that decodes to the record's name, the
      record's fields and payload parse back to the record, and the cursor stops
      just past the payload. */
  lemma RecordRoundTrip(buf: Bytes, pos: nat, p: nat, rec: Record)
    requires |rec.data| < 0x1_0000 && pos <= |buf|
    requires DecodeNameAt(buf, pos) == Some((rec.name, p))
    requires p + 10 + |rec.data| <= |buf| && buf[p..p + 10 + |rec.data|] == RecordFieldsToBytes(rec)
    ensures RecordAt(buf, pos) == Some((rec, p + 10 + |rec.data|))
  {
    var rb := RecordFieldsToBytes(rec);
    var n := |rec.data|;
    var fields := buf[p..p + 10];
    assert fields == rb[..10] by {
      Subslice(buf, p, p + 10 + n, 0, 10);
    }
    assert fields[0..2] == PackU16(rec.recordType) && fields[2..4] == PackU16(rec.recordClass);
    assert fields[4..8] == PackU32(rec.ttl) && fields[8..10] == PackU16(n);
    UnpackPackU32(rec.ttl);
    assert buf[p + 10..p + 10 + n] == rec.data by {
      Subslice(buf, p, p + 10 + n, 10, 10 + n);
    }
  }

  /** A payload cut short by the end of the message is not an error: the record
      takes every remaining octet and the cursor stops at the end. */
  lemma RecordShortPayload(buf: Bytes, pos: nat, name: Bytes, p: nat)
    requires pos <= |buf| && DecodeNameAt(buf, pos) == Some((name, p)) && p + 10 <= |buf|
    requires p + 10 + UnpackU16(buf[p + 8..p + 10]) > |buf|
    ensures RecordAt(buf, pos).Some?
    ensures RecordAt(buf, pos).value.0.data == buf[p + 10..]
    ensures RecordAt(buf, pos).value.1 == |buf|
  {
    assert buf[p..p + 10][8..10] == buf[p + 8..p + 10];
  }

  /** A record laid out without name compression: its encoded name, then its fields
      and payload. `None` where the name cannot be encoded or the payload does not
      fit the 16-bit payload length. */
  function RecordToBytes(rec: Record): (r: Option<Bytes>)
    ensures r.Some? <==> EncodeName(rec.name).Some? && |rec.data| < 0x1_0000
  {
    if |rec.data| < 0x1_0000 then
      match EncodeName(rec.name)
      case None => None
      case Some(wire) => Some(wire + RecordFieldsToBytes(rec))
    else
      None
  }

  /** A section of records laid out one after another, in order. */
  function SectionToBytes(recs: seq<Record>): (r: Option<Bytes>)
    ensures r.Some? <==> forall i | 0 <= i < |recs| :: RecordToBytes(recs[i]).Some?
    decreases |recs|
  {
    if |recs| == 0 then Some([])
    else
      match RecordToBytes(recs[0])
      case None => None
      case Some(head) =>
        match SectionToBytes(recs[1..])
        case None => None
        case Some(rest) => Some(head + rest)
  }

  /** A record laid out without compression, its name with labels of 1..63 octets,
      parses back as that record, and the cursor stops just past it. */
  lemma RecordLaidOutRoundTrip(rec: Record, head: Bytes, buf: Bytes, pos: nat)
    requires ValidName(rec.name) && RecordToBytes(rec) == Some(head)
    requires pos + |head| <= |buf| && buf[pos..pos + |head|] == head
    ensures RecordAt(buf, pos) == Some((rec, pos + |head|))
  {
    var wire := RecordHead(rec, head);
    var fields := RecordFieldsToBytes(rec);
    SplitAt(buf, pos, wire, fields);
    DecodeEncodedName(rec.name, wire, buf, pos);
    RecordRoundTrip(buf, pos, pos + |wire|, rec);
  }

  /** A laid-out record is its encoded name followed by its fields. */
  lemma RecordHead(rec: Record, head: Bytes) returns (wire: Bytes)
    requires RecordToBytes(rec) == Some(head)
    ensures EncodeName(rec.name) == Some(wire) && head == wire + RecordFieldsToBytes(rec)
    ensures |rec.data| < 0x1_0000
  {
    wire := EncodeName(rec.name).value;
  }

  /** Where `a + b` sits in a buffer, `a` sits at the front and `b` right after it. */
  lemma SplitAt(buf: Bytes, pos: nat, a: Bytes, b: Bytes)
    requires pos + |a + b| <= |buf| && buf[pos..pos + |a + b|] == a + b
    ensures buf[pos..pos + |a|] == a && buf[pos + |a|..pos + |a| + |b|] == b
  {
    Subslice(buf, pos, pos + |a + b|, 0, |a|);
    Subslice(buf, pos, pos + |a + b|, |a|, |a + b|);
    assert (a + b)[..|a|] == a && (a + b)[|a|..] == b;
  }

  /** One record read, then the rest of the section. */
  lemma RecordsStep(buf: Bytes, pos: nat, recs: seq<Record>, e: nat, end: nat)
    requires |recs| > 0 && pos <= |buf|
    requires RecordAt(buf, pos) == Some((recs[0], e))
    requires RecordsAt(buf, e, |recs| - 1) == Some((recs[1..], end))
    ensures RecordsAt(buf, pos, |recs|) == Some((recs, end))
  {
    assert [recs[0]] + recs[1..] == recs;
  }

  /** A laid-out section splits into its first record's octets and the rest. */
  lemma SectionSplit(recs: seq<Record>, b: Bytes, buf: Bytes, pos: nat) returns (head: Bytes, rest: Bytes)
    requires |recs| > 0 && forall i | 0 <= i < |recs| :: ValidName(recs[i].name)
    requires SectionToBytes(recs) == Some(b)
    requires pos + |b| <= |buf| && buf[pos..pos + |b|] == b
    ensures ValidName(recs[0].name) && RecordToBytes(recs[0]) == Some(head)
    ensures |b| == |head| + |rest| && buf[pos..pos + |head|] == head
    ensures forall i | 0 <= i < |recs[1..]| :: ValidName(recs[1..][i].name)
    ensures SectionToBytes(recs[1..]) == Some(rest)
    ensures buf[pos + |head|..pos + |head| + |rest|] == rest
  {
    head := RecordToBytes(recs[0]).value;
    rest := SectionToBytes(recs[1..]).value;
    SplitAt(buf, pos, head, rest);
    assert forall i | 0 <= i < |recs[1..]| :: recs[1..][i] == recs[i + 1];
  }

  /** The first record of a laid-out section, read before the rest of the section. */
  lemma SectionCons(recs: seq<Record>, head: Bytes, e: nat, end: nat, buf: Bytes, pos: nat)
    requires |recs| > 0 && ValidName(recs[0].name) && RecordToBytes(recs[0]) == Some(head)
    requires e == pos + |head| && e <= end <= |buf| && buf[pos..e] == head
    requires RecordsAt(buf, e, |recs| - 1) == Some((recs[1..], end))
    ensures RecordsAt(buf, pos, |recs|) == Some((recs, end))
  {
    RecordLaidOutRoundTrip(recs[0], head, buf, pos);
    RecordsStep(buf, pos, recs, e, end);
  }

  /** `recs` sit at `pos` in `buf`, laid out one after another without compression
      and ending at `end`, each name with labels of 1..63 octets. */
  predicate RecordsLaidAt(buf: Bytes, pos: nat, recs: seq<Record>, end: nat)
    decreases |recs|
  {
    pos <= end <= |buf| &&
    if |recs| == 0 then pos == end
    else
      ValidName(recs[0].name) && RecordToBytes(recs[0]).Some? &&
      var head := RecordToBytes(recs[0]).value;
      pos + |head| <= end && buf[pos..pos + |head|] == head && RecordsLaidAt(buf, pos + |head|, recs[1..], end)
  }

  /** A section's octets, placed in a buffer, lay its records out one after another. */
  lemma {:induction false} SectionLaid(recs: seq<Record>, b: Bytes, buf: Bytes, pos: nat)
    requires forall i | 0 <= i < |recs| :: ValidName(recs[i].name)
    requires SectionToBytes(recs) == Some(b)
    requires pos + |b| <= |buf| && buf[pos..pos + |b|] == b
    ensures RecordsLaidAt(buf, pos, recs, pos + |b|)
    decreases |recs|
  {
    if |recs| > 0 {
      var head, rest := SectionSplit(recs, b, buf, pos);
      SectionLaid(recs[1..], rest, buf, pos + |head|);
    }
  }

  /** Records laid out one after another are read back in order. */
  lemma {:induction false} LaidRecordsParse(buf: Bytes, pos: nat, recs: seq<Record>, end: nat)
    requires RecordsLaidAt(buf, pos, recs, end)
    ensures RecordsAt(buf, pos, |recs|) == Some((recs, end))
    decreases |recs|
  {
    if |recs| == 0 {
      assert recs == [];
    } else {
      var head := RecordToBytes(recs[0]).value;
      var e := pos + |head|;
      assert ValidName(recs[0].name) && e <= end && buf[pos..e] == head;
      assert RecordsLaidAt(buf, e, recs[1..], end);
      LaidRecordsParse(buf, e, recs[1..], end);
      SectionCons(recs, head, e, end, buf, pos);
    }
  }

  /** Section round trip: records laid out one after another, each name with labels
      of 1..63 octets, parse back as those records in the same order, and the cursor
      stops just past the last one. */
  lemma SectionRoundTrip(recs: seq<Record>, b: Bytes, buf: Bytes, pos: nat)
    requires forall i | 0 <= i < |recs| :: ValidName(recs[i].name)
    requires SectionToBytes(recs) == Some(b)
    requires pos + |b| <= |buf| && buf[pos..pos + |b|] == b
    ensures RecordsAt(buf, pos, |recs|) == Some((recs, pos + |b|))
  {
    SectionLaid(recs, b, buf, pos);
    LaidRecordsParse(buf, pos, recs, pos + |b|);
  }

  /** A question laid out for the wire, as `question_to_bytes` lays out a question
      whose name is already encoded: the encoded dotted name, then type and class. */
  function QuestionLayout(q: Question): (r: Option<Bytes>)
    ensures r.Some? <==> EncodeName(q.name).Some?
    ensures r.Some? ==> |r.value| == |EncodeName(q.name).value| + 4
  {
    match EncodeName(q.name)
    case None => None
    case Some(wire) => Some(wire + PackU16(q.recordType) + PackU16(q.recordClass))
  }

  /** A question section laid out one question after another, in order. */
  function QuestionSectionToBytes(qs: seq<Question>): (r: Option<Bytes>)
    ensures r.Some? <==> forall i | 0 <= i < |qs| :: QuestionLayout(qs[i]).Some?
    decreases |qs|
  {
    if |qs| == 0 then Some([])
    else
      match QuestionLayout(qs[0])
      case None => None
      case Some(head) =>
        match QuestionSectionToBytes(qs[1..])
        case None => None
        case Some(rest) => Some(head + rest)
  }

  /** A question laid out so, its name with parts of 1..255 octets, parses back as
      itself, and the cursor stops right after it. */
  lemma QuestionLaidOutRoundTrip(q: Question, head: Bytes, buf: Bytes, pos: nat, end: nat)
    requires SimpleName(q.name) && QuestionLayout(q) == Some(head)
    requires end == pos + |head| <= |buf| && buf[pos..end] == head
    ensures QuestionAt(buf, pos) == Some((q, end))
  {
    assert head == QuestionToBytes(Question(EncodeName(q.name).value, q.recordType, q.recordClass));
    QuestionRoundTrip(q.name, EncodeName(q.name).value, q.recordType, q.recordClass, buf, pos);
  }

  /** Every question name in `qs` has parts of 1..255 octets, stated one question at
      a time. */
  predicate SimpleNames(qs: seq<Question>)
    decreases |qs|
  {
    |qs| == 0 || (SimpleName(qs[0].name) && SimpleNames(qs[1..]))
  }

  lemma {:induction false} AllSimpleNames(qs: seq<Question>)
    requires forall i | 0 <= i < |qs| :: SimpleName(qs[i].name)
    ensures SimpleNames(qs)
    decreases |qs|
  {
    if |qs| > 0 {
      assert forall i | 0 <= i < |qs[1..]| :: qs[1..][i] == qs[i + 1];
      AllSimpleNames(qs[1..]);
    }
  }

  /** A laid-out question section splits into its first question, read back where
      it sits, and the octets of the rest. */
  lemma QuestionSectionSplit(qs: seq<Question>, b: Bytes, buf: Bytes, pos: nat) returns (e: nat, rest: Bytes)
    requires |qs| > 0 && SimpleNames(qs) && QuestionSectionToBytes(qs) == Some(b)
    requires pos + |b| <= |buf| && buf[pos..pos + |b|] == b
    ensures pos <= e && e + |rest| == pos + |b|
    ensures QuestionAt(buf, pos) == Some((qs[0], e))
    ensures SimpleNames(qs[1..]) && QuestionSectionToBytes(qs[1..]) == Some(rest)
    ensures buf[e..e + |rest|] == rest
  {
    var head := QuestionLayout(qs[0]).value;
    rest := QuestionSectionToBytes(qs[1..]).value;
    SplitAt(buf, pos, head, rest);
    e := pos + |head|;
    QuestionLaidOutRoundTrip(qs[0], head, buf, pos, e);
  }

  /** `qs` are read from `pos` in `buf`, in order, and the cursor stops at `end`. */
  predicate QuestionsParseTo(buf: Bytes, pos: nat, qs: seq<Question>, end: nat)
  {
    pos <= |buf| && QuestionsAt(buf, pos, |qs|) == Some((qs, end))
  }

  /** One question read, then the rest of the section. */
  lemma QuestionsStep(buf: Bytes, pos: nat, qs: seq<Question>, e: nat, end: nat)
    requires |qs| > 0 && pos <= |buf|
    requires QuestionAt(buf, pos) == Some((qs[0], e))
    requires QuestionsParseTo(buf, e, qs[1..], end)
    ensures QuestionsParseTo(buf, pos, qs, end)
  {
    assert |qs[1..]| == |qs| - 1;
    assert [qs[0]] + qs[1..] == qs;
  }

  /** The induction behind `QuestionsRoundTrip`, one question at a time. */
  lemma {:induction false} QuestionsParse(qs: seq<Question>, b: Bytes, buf: Bytes, pos: nat, end: nat)
    requires SimpleNames(qs)
    requires QuestionSectionToBytes(qs) == Some(b)
    requires end == pos + |b| <= |buf| && buf[pos..end] == b
    ensures QuestionsParseTo(buf, pos, qs, end)
    decreases |qs|
  {
    if |qs| == 0 {
      assert qs == [];
    } else {
      var e, rest := QuestionSectionSplit(qs, b, buf, pos);
      QuestionsParse(qs[1..], rest, buf, e, end);
      QuestionsStep(buf, pos, qs, e, end);
    }
  }

  /** Question section round trip: questions laid out one after another, each name
      with parts of 1..255 octets, parse back as those questions in the same order,
      with dotted names, and the cursor stops at `end`, just past the last one. */
  lemma QuestionsRoundTrip(qs: seq<Question>, b: Bytes, buf: Bytes, pos: nat, end: nat)
    requires forall i | 0 <= i < |qs| :: SimpleName(qs[i].name)
    requires QuestionSectionToBytes(qs) == Some(b)
    requires end == pos + |b| <= |buf| && buf[pos..end] == b
    ensures QuestionsAt(buf, pos, |qs|) == Some((qs, end))
  {
    AllSimpleNames(qs);
    QuestionsParse(qs, b, buf, pos, end);
  }

  /** A whole message laid out without compression: the header, then the question,
      answer, authority and additional sections in that order. */
  function PacketToBytes(p: Packet): (r: Option<Bytes>)
    ensures r.Some? <==>
      QuestionSectionToBytes(p.questions).Some? && SectionToBytes(p.answers).Some? &&
      SectionToBytes(p.authorities).Some? && SectionToBytes(p.additionals).Some?
  {
    match (QuestionSectionToBytes(p.questions), SectionToBytes(p.answers),
           SectionToBytes(p.authorities), SectionToBytes(p.additionals))
    case (Some(qb), Some(ab), Some(nb), Some(xb)) => Some(HeaderToBytes(p.header) + qb + ab + nb + xb)
    case _ => None
  }

  /** The header counts agree with the sections. */
  predicate CountsAgree(p: Packet)
  {
    p.header.numQuestions == |p.questions| && p.header.numAnswers == |p.answers| &&
    p.header.numAuthorities == |p.authorities| && p.header.numAdditionals == |p.additionals|
  }

  /** Every name reads back through the decoder that parses it: question names have
      parts of 1..255 octets, record names labels of 1..63 octets. */
  predicate NamesReadable(p: Packet)
  {
    (forall i | 0 <= i < |p.questions| :: SimpleName(p.questions[i].name)) &&
    (forall i | 0 <= i < |p.answers| :: ValidName(p.answers[i].name)) &&
    (forall i | 0 <= i < |p.authorities| :: ValidName(p.authorities[i].name)) &&
    (forall i | 0 <= i < |p.additionals| :: ValidName(p.additionals[i].name))
  }

  /** Where five pieces are laid out one after another, each sits right after the
      ones before it. */
  lemma Layout5(a: Bytes, b: Bytes, c: Bytes, d: Bytes, e: Bytes)
    ensures var buf := a + b + c + d + e;
      var p1 := |a| + |b|; var p2 := p1 + |c|; var p3 := p2 + |d|;
      p3 + |e| == |buf| && buf[0..|a|] == a && buf[|a|..p1] == b &&
      buf[p1..p2] == c && buf[p2..p3] == d && buf[p3..p3 + |e|] == e
  {
    var buf := a + b + c + d + e;
    assert buf[0..|a|] == a;
    assert buf[|a|..|a| + |b|] == (a + b)[|a|..];
    assert buf[|a| + |b|..|a| + |b| + |c|] == (a + b + c)[|a| + |b|..];
    assert buf[|a| + |b| + |c|..|a| + |b| + |c| + |d|] == (a + b + c + d)[|a| + |b| + |c|..];
  }

  /** Packet round trip: `parse_dns_packet` reads a message laid out without
      compression back as the same packet, every section in order, when the header
      counts agree with the sections and every name reads back. */
  lemma PacketRoundTrip(p: Packet)
    requires CountsAgree(p) && NamesReadable(p) && PacketToBytes(p).Some?
    ensures PacketOf(PacketToBytes(p).value) == Some(p)
  {
    var qb := QuestionSectionToBytes(p.questions).value;
    var ab := SectionToBytes(p.answers).value;
    var nb := SectionToBytes(p.authorities).value;
    var xb := SectionToBytes(p.additionals).value;
    var buf := HeaderToBytes(p.header) + qb + ab + nb + xb;
    assert PacketToBytes(p).value == buf;
    var p1, p2, p3, end := Positions(HeaderToBytes(p.header), qb, ab, nb, xb, buf);
    FrontLaidOut(buf, p.header, p.questions, qb, p1);
    PacketLaidOut(buf, p, qb, ab, nb, xb, p1, p2, p3, end);
  }

  /** Where five pieces are laid out one after another, the offsets where the last
      four begin and where the last one ends. */
  lemma Positions(a: Bytes, b: Bytes, c: Bytes, d: Bytes, e: Bytes, buf: Bytes) returns (p1: nat, p2: nat, p3: nat, end: nat)
    requires buf == a + b + c + d + e
    ensures p1 == |a| + |b| && p2 == p1 + |c| && p3 == p2 + |d| && end == p3 + |e| == |buf|
    ensures buf[0..|a|] == a && buf[|a|..p1] == b && buf[p1..p2] == c && buf[p2..p3] == d && buf[p3..end] == e
  {
    Layout5(a, b, c, d, e);
    p1 := |a| + |b|;
    p2 := p1 + |c|;
    p3 := p2 + |d|;
    end := p3 + |e|;
  }

  /** A header followed by four laid-out sections, whose counts agree with them,
      parses back as the packet of those sections. */
  lemma PacketLaidOut(buf: Bytes, p: Packet, qb: Bytes, ab: Bytes, nb: Bytes, xb: Bytes,
                      p1: nat, p2: nat, p3: nat, end: nat)
    requires CountsAgree(p) && NamesReadable(p)
    requires SectionToBytes(p.answers) == Some(ab)
    requires SectionToBytes(p.authorities) == Some(nb) && SectionToBytes(p.additionals) == Some(xb)
    requires 12 <= p1 && p2 == p1 + |ab| && p3 == p2 + |nb| && end == p3 + |xb| && end <= |buf|
    requires buf[p1..p2] == ab && buf[p2..p3] == nb && buf[p3..end] == xb
    requires HeaderAt(buf, 0) == Some((p.header, 12)) && QuestionsAt(buf, 12, |p.questions|) == Some((p.questions, p1))
    ensures PacketOf(buf) == Some(p)
  {
    SectionsLaidOut(buf, p.answers, ab, p.authorities, nb, p.additionals, xb, p1, p2, p3, end);
    PacketOfSections(buf, p, p1, p2, p3, end);
  }

  /** The header and the laid-out question section at the front of a message are
      read back. */
  lemma FrontLaidOut(buf: Bytes, h: Header, qs: seq<Question>, qb: Bytes, p1: nat)
    requires forall i | 0 <= i < |qs| :: SimpleName(qs[i].name)
    requires QuestionSectionToBytes(qs) == Some(qb)
    requires p1 == 12 + |qb| <= |buf| && buf[0..12] == HeaderToBytes(h) && buf[12..p1] == qb
    ensures HeaderAt(buf, 0) == Some((h, 12)) && QuestionsAt(buf, 12, |qs|) == Some((qs, p1))
  {
    HeaderRoundTrip(h, buf, 0);
    QuestionsRoundTrip(qs, qb, buf, 12, p1);
  }

  /** The three record sections, laid out one after another from `p1`, are read
      back in order. */
  lemma SectionsLaidOut(buf: Bytes, an: seq<Record>, ab: Bytes, ns: seq<Record>, nb: Bytes,
                        ar: seq<Record>, xb: Bytes, p1: nat, p2: nat, p3: nat, end: nat)
    requires forall i | 0 <= i < |an| :: ValidName(an[i].name)
    requires forall i | 0 <= i < |ns| :: ValidName(ns[i].name)
    requires forall i | 0 <= i < |ar| :: ValidName(ar[i].name)
    requires SectionToBytes(an) == Some(ab) && SectionToBytes(ns) == Some(nb) && SectionToBytes(ar) == Some(xb)
    requires p2 == p1 + |ab| && p3 == p2 + |nb| && end == p3 + |xb| && end <= |buf|
    requires buf[p1..p2] == ab && buf[p2..p3] == nb && buf[p3..end] == xb
    ensures RecordsAt(buf, p1, |an|) == Some((an, p2))
    ensures RecordsAt(buf, p2, |ns|) == Some((ns, p3))
    ensures RecordsAt(buf, p3, |ar|) == Some((ar, end))
  {
    SectionBetween(buf, an, ab, p1, p2);
    SectionBetween(buf, ns, nb, p2, p3);
    SectionBetween(buf, ar, xb, p3, end);
  }

  /** A laid-out section between `from` and `to` is read back, ending at `to`. */
  lemma SectionBetween(buf: Bytes, recs: seq<Record>, b: Bytes, from: nat, to: nat)
    requires forall i | 0 <= i < |recs| :: ValidName(recs[i].name)
    requires SectionToBytes(recs) == Some(b)
    requires to == from + |b| <= |buf| && buf[from..to] == b
    ensures RecordsAt(buf, from, |recs|) == Some((recs, to))
  {
    SectionRoundTrip(recs, b, buf, from);
  }

  /** A header and four sections read one after another make up the packet. */
  lemma PacketOfSections(buf: Bytes, p: Packet, p1: nat, p2: nat, p3: nat, end: nat)
    requires CountsAgree(p) && 12 <= p1 <= p2 <= p3 <= |buf|
    requires HeaderAt(buf, 0) == Some((p.header, 12))
    requires QuestionsAt(buf, 12, |p.questions|) == Some((p.questions, p1))
    requires RecordsAt(buf, p1, |p.answers|) == Some((p.answers, p2))
    requires RecordsAt(buf, p2, |p.authorities|) == Some((p.authorities, p3))
    requires RecordsAt(buf, p3, |p.additionals|) == Some((p.additionals, end))
    ensures PacketOf(buf) == Some(p)
  {
  }

  /** The query for a name with 1..255-octet labels parses back as a packet with
      the header built (id, RD flag, one question, no records) and the one
      question, in dotted form, of class IN. */
  lemma BuildQueryParses(id: u16, name: Bytes, recordType: u16)
    requires SimpleName(name)
    ensures BuildQuery(id, name, recordType).Some?
    ensures PacketOf(BuildQuery(id, name, recordType).value) ==
      Some(Packet(Header(id, RECURSION_DESIRED, 1, 0, 0, 0), [Question(name, recordType, CLASS_IN)], [], [], []))
  {
    assert Encodable(name);
    var wire := EncodeName(name).value;
    var header := Header(id, RECURSION_DESIRED, 1, 0, 0, 0);
    var hb := HeaderToBytes(header);
    var qb := QuestionToBytes(Question(wire, recordType, CLASS_IN));
    var buf := hb + qb;
    assert buf == BuildQuery(id, name, recordType).value;
    assert HeaderAt(buf, 0) == Some((header, 12)) by {
      assert buf[0..12] == hb;
      HeaderRoundTrip(header, buf, 0);
    }
    var end := 12 + |wire| + 4;
    var q := Question(name, recordType, CLASS_IN);
    assert QuestionsAt(buf, 12, 1) == Some(([q], end)) by {
      assert buf[12..end] == qb;
      QuestionRoundTrip(name, wire, recordType, CLASS_IN, buf, 12);
      assert QuestionsAt(buf, 12, 1) == Prefixed([q], QuestionsAt(buf, end, 0));
      assert [q] + [] == [q];
    }
  }

  /** A query is 18 octets longer than the name: the header, the two octets the
      encoding adds to the name, and type and class. */
  lemma BuildQueryLength(id: u16, name: Bytes, recordType: u16)
    requires Encodable(name)
    ensures BuildQuery(id, name, recordType).Some? && |BuildQuery(id, name, recordType).value| == |name| + 18
  {
    EncodeNameLength(name);
  }

  /** "example.com" and its wire form. */
  lemma ExampleName(name: Bytes)
    requires name == [0x65, 0x78, 0x61, 0x6d, 0x70, 0x6c, 0x65, 0x2e, 0x63, 0x6f, 0x6d]
    ensures EncodeName(name) == Some([0x07, 0x65, 0x78, 0x61, 0x6d, 0x70, 0x6c, 0x65, 0x03, 0x63, 0x6f, 0x6d, 0x00])
  {
    var example: Bytes := [0x65, 0x78, 0x61, 0x6d, 0x70, 0x6c, 0x65];
    var com: Bytes := [0x63, 0x6f, 0x6d];
    assert name == example + [DOT] + com;
    EncodeSingleLabel(com);
    EncodeFirstLabel(example, com);
    assert [|com|] + com + [0] == [0x03, 0x63, 0x6f, 0x6d, 0x00];
    assert [|example|] + example + [0x03, 0x63, 0x6f, 0x6d, 0x00] ==
      [0x07, 0x65, 0x78, 0x61, 0x6d, 0x70, 0x6c, 0x65, 0x03, 0x63, 0x6f, 0x6d, 0x00];
  }

  /** The header of every query: the id, the RD flag, one question, no records. */
  lemma QueryHeaderBytes(id: u16)
    ensures HeaderToBytes(Header(id, RECURSION_DESIRED, 1, 0, 0, 0)) ==
      PackU16(id) + [0x01, 0x00, 0x00, 0x01, 0x00, 0x00, 0x00, 0x00, 0x00, 0x00]
  {
    assert PackU16(RECURSION_DESIRED) == [0x01, 0x00];
  }

  /** The query in octets: the id, the flags 0x0100, the counts 1, 0, 0, 0, the
      encoded name, the type and the class 1. */
  lemma BuildQueryLayout(id: u16, name: Bytes, recordType: u16)
    requires Encodable(name)
    ensures BuildQuery(id, name, recordType) ==
      Some(PackU16(id) + [0x01, 0x00, 0x00, 0x01, 0x00, 0x00, 0x00, 0x00, 0x00, 0x00]
           + EncodeName(name).value + PackU16(recordType) + [0x00, 0x01])
  {
    QueryHeaderBytes(id);
    var wire := EncodeName(name).value;
    assert PackU16(CLASS_IN) == [0x00, 0x01];
    var header := PackU16(id) + [0x01, 0x00, 0x00, 0x01, 0x00, 0x00, 0x00, 0x00, 0x00, 0x00];
    assert header + (wire + PackU16(recordType) + [0x00, 0x01]) == header + wire + PackU16(recordType) + [0x00, 0x01];
  }

  /** The query for "example.com", type A, with transaction id 1: the header, the
      encoded name, then type and class. */
  lemma ExampleQuery(name: Bytes)
    requires name == [0x65, 0x78, 0x61, 0x6d, 0x70, 0x6c, 0x65, 0x2e, 0x63, 0x6f, 0x6d]
    ensures BuildQuery(1, name, TYPE_A) ==
      Some([0x00, 0x01, 0x01, 0x00, 0x00, 0x01, 0x00, 0x00, 0x00, 0x00, 0x00, 0x00] +
           [0x07, 0x65, 0x78, 0x61, 0x6d, 0x70, 0x6c, 0x65, 0x03, 0x63, 0x6f, 0x6d, 0x00] +
           [0x00, 0x01, 0x00, 0x01])
  {
    var wire: Bytes := [0x07, 0x65, 0x78, 0x61, 0x6d, 0x70, 0x6c, 0x65, 0x03, 0x63, 0x6f, 0x6d, 0x00];
    assert EncodeName(name) == Some(wire) by {
      ExampleName(name);
    }
    var typeClass: Bytes := [0x00, 0x01, 0x00, 0x01];
    var header: Bytes := [0x00, 0x01, 0x01, 0x00, 0x00, 0x01, 0x00, 0x00, 0x00, 0x00, 0x00, 0x00];
    assert HeaderToBytes(Header(1, RECURSION_DESIRED, 1, 0, 0, 0)) == header by {
      QueryHeaderBytes(1);
      assert PackU16(1) == [0x00, 0x01];
    }
    assert QuestionToBytes(Question(wire, TYPE_A, CLASS_IN)) == wire + typeClass;
    assert header + (wire + typeClass) == header + wire + typeClass;
  }

  /** An answer whose name is the two octets `C0 0C` names the question that
      starts at offset 12, right after the header. */
  lemma AnswerNamedByPointer(buf: Bytes, name: Bytes, wire: Bytes, pos: nat)
    requires ValidName(name) && EncodeName(name) == Some(wire)
    requires 12 + |wire| <= pos && pos + 12 <= |buf| && buf[12..12 + |wire|] == wire
    requires buf[pos] == 0xC0 && buf[pos + 1] == 0x0C
    ensures RecordAt(buf, pos).Some? && RecordAt(buf, pos).value.0.name == name
  {
    DecodeEncodedName(name, wire, buf, 12);
    PointerToOffsetTwelve(buf, pos);
  }
}
