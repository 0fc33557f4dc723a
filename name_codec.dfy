/** Domain names on the wire (RFC 1035, sections 3.1 and 4.1.4): a dotted name
    becomes a run of length-prefixed labels ended by a zero octet; decoding reads
    such a run back and, in the compression-aware decoder, follows pointers. */
module NameCodec {
  import opened Wrappers
  import opened Bytes
  import opened Cursor
  import opened Delimited

  /** The octet `.` that separates labels in the dotted form. */
  const DOT: byte := 0x2E

  // ---------------------------------------------------------------------------
  // Encoding

  /** Every part fits in the one-octet length prefix (`bytes([len(part)])` accepts 0..255). */
  predicate LabelsFit(parts: seq<Bytes>)
  {
    forall i :: 0 <= i < |parts| ==> |parts[i]| < 0x100
  }

  /** The wire form of a run of labels, without the terminating zero octet. */
  function LabelsWire(parts: seq<Bytes>): (r: Bytes)
    requires LabelsFit(parts)
    ensures |r| >= |parts|
    ensures |parts| > 0 ==> r[0] == |parts[0]|
  {
    if |parts| == 0 then [] else [|parts[0]|] + parts[0] + LabelsWire(parts[1..])
  }

  /** The encoder succeeds exactly when no dot-separated part is 256 octets or longer. */
  predicate Encodable(name: Bytes)
  {
    LabelsFit(Split(name, DOT))
  }

  /** What `encode_dns_name` returns: each part with its length prefix, then a zero
      octet; `None` where `bytes([len(part)])` raises. No 63-octet or 255-octet limit
      is checked. */
  function EncodeName(name: Bytes): (r: Option<Bytes>)
    ensures r.Some? <==> Encodable(name)
    ensures r.Some? ==> |r.value| > |Split(name, DOT)|
  {
    if Encodable(name) then Some(LabelsWire(Split(name, DOT)) + [0]) else None
  }

  /** An encoding is at least two octets long, starts with the length of the first
      part and ends with the zero octet. */
  lemma EncodedNameShape(name: Bytes)
    requires EncodeName(name).Some?
    ensures var w := EncodeName(name).value;
      |w| >= 2 && w[0] == |Split(name, DOT)[0]| && w[|w| - 1] == 0
  {
    var w := EncodeName(name).value;
    assert w == LabelsWire(Split(name, DOT)) + [0];
  }

  /** `encode_dns_name`: the loop that appends one length-prefixed part at a time. */
  method EncodeDnsName(name: Bytes) returns (r: Option<Bytes>)
    ensures r == EncodeName(name)
  {
    var parts := Split(name, DOT);
    var encoded: Bytes := [];
    for i := 0 to |parts|
      invariant LabelsFit(parts[..i])
      invariant encoded == LabelsWire(parts[..i])
    {
      var part := parts[i];
      if |part| >= 0x100 {
        // bytes([len(part)]) raises ValueError
        return None;
      }
      assert parts[..i + 1] == parts[..i] + [part];
      LabelsWireAppend(parts[..i], part);
      encoded := encoded + [|part|] + part;
    }
    assert parts[..|parts|] == parts;
    r := Some(encoded + [0]);
  }

  lemma {:induction false} LabelsWireAppend(parts: seq<Bytes>, part: Bytes)
    requires LabelsFit(parts) && |part| < 0x100
    ensures LabelsFit(parts + [part])
    ensures LabelsWire(parts + [part]) == LabelsWire(parts) + [|part|] + part
  {
    if |parts| > 0 {
      LabelsWireAppend(parts[1..], part);
      assert (parts + [part])[1..] == parts[1..] + [part];
    }
  }

  /** A run of labels is one octet longer than its dotted form. */
  lemma {:induction false} LabelsWireLength(parts: seq<Bytes>)
    requires LabelsFit(parts) && |parts| >= 1
    ensures |LabelsWire(parts)| == |Join(parts, DOT)| + 1
  {
    if |parts| > 1 {
      LabelsWireLength(parts[1..]);
    }
  }

  /** The encoded name is two octets longer than the name: one length octet per
      part where the dotted form has one dot fewer, and the final zero octet. */
  lemma EncodeNameLength(name: Bytes)
    requires Encodable(name)
    ensures EncodeName(name).Some? && |EncodeName(name).value| == |name| + 2
  {
    LabelsWireLength(Split(name, DOT));
    JoinSplit(name, DOT);
  }

  /** A name without a dot encodes as its length, its octets and the zero octet. */
  lemma EncodeSingleLabel(name: Bytes)
    requires DOT !in name && |name| < 0x100
    ensures EncodeName(name) == Some([|name|] + name + [0])
  {
    SplitWithoutSeparator(name, DOT);
    assert LabelsFit([name]);
    assert [name][1..] == [];
    assert LabelsWire([name]) == [|name|] + name + LabelsWire([]);
    assert LabelsWire([]) == [];
    assert EncodeName(name).value == [|name|] + name + [0];
  }

  /** The first part of a dotted name is emitted first, as its length octet and its
      octets, followed by the encoding of the rest of the name. */
  lemma EncodeFirstLabel(first: Bytes, rest: Bytes)
    requires DOT !in first && |first| < 0x100
    ensures EncodeName(first + [DOT] + rest).Some? <==> EncodeName(rest).Some?
    ensures EncodeName(rest).Some? ==>
      EncodeName(first + [DOT] + rest).value == [|first|] + first + EncodeName(rest).value
  {
    SplitAfterPart(first, rest, DOT);
    var parts := Split(first + [DOT] + rest, DOT);
    assert parts[1..] == Split(rest, DOT);
  }

  // ---------------------------------------------------------------------------
  // The compression pointer (RFC 1035, section 4.1.4)

  /** The pointer test `length & 0b1100_0000 != 0`: either of the two top bits
      marks a pointer, so every length octet of 64 or more is one (see PointerBits). */
  predicate IsPointer(length: byte)
    ensures IsPointer(length) <==> (length as bv8) & 0xC0 != 0
  {
    OctetBits(length as bv8);
    length >= 0x40
  }

  /** The 14-bit offset `struct.unpack("!H", bytes([length & 0x3F]) + next)`
      (see PointerBits). */
  function PointerOffset(length: byte, next: byte): (offset: u16)
    ensures offset < 0x4000
  {
    UnpackU16([length % 0x40, next])
  }

  /** The arithmetic above is the bit arithmetic of the Python program, for every
      octet value. */
  lemma PointerBits(octet: bv8, next: byte)
    ensures IsPointer(octet as int) <==> octet & 0xC0 != 0
    ensures PointerOffset(octet as int, next) == UnpackU16([(octet & 0x3F) as int, next])
  {
    OctetBits(octet);
  }

  lemma OctetBits(octet: bv8)
    ensures (octet as int >= 0x40) <==> octet & 0xC0 != 0
    ensures (octet & 0x3F) as int == (octet as int) % 0x40
  {
  }

  // ---------------------------------------------------------------------------
  // Decoding, as functions of the buffer and the cursor position

  /** The labels `decode_name_simple` collects from `pos`, and the position after the
      zero octet. Every non-zero octet is a length, a pointer octet included; reading
      past the end fails (`read(1)[0]` raises IndexError). */
  function SimpleLabelsAt(buf: Bytes, pos: nat): (r: Option<(seq<Bytes>, nat)>)
    requires pos <= |buf|
    ensures r.Some? ==> pos < r.value.1 <= |buf|
    decreases |buf| - pos
  {
    if pos == |buf| then None
    else if buf[pos] == 0 then Some(([], pos + 1))
    else
      var (part, end) := ReadAt(buf, pos + 1, buf[pos]);
      Prefixed([part], SimpleLabelsAt(buf, end))
  }

  /** `decode_name_simple`: the labels joined by dots, and where the cursor stops. */
  function SimpleNameAt(buf: Bytes, pos: nat): (r: Option<(Bytes, nat)>)
    requires pos <= |buf|
    ensures r.Some? ==> pos < r.value.1 <= |buf|
  {
    match SimpleLabelsAt(buf, pos)
    case None => None
    case Some((parts, end)) => Some((Join(parts, DOT), end))
  }

  /** The parts `decode_name` collects from `pos` for a name that began at `start`.
      A pointer ends the run: its decoded target is the last part, and the cursor
      stops after the two pointer octets. */
  function NameAt(buf: Bytes, start: nat, pos: nat): (r: Option<(seq<Bytes>, nat)>)
    requires start <= pos <= |buf|
    ensures r.Some? ==> pos < r.value.1 <= |buf|
    decreases start, 2, |buf| - pos
  {
    if pos == |buf| then None
    else if buf[pos] == 0 then Some(([], pos + 1))
    else if IsPointer(buf[pos]) then
      match PointerNameAt(buf, start, buf[pos], pos + 1)
      case None => None
      case Some((target, end)) => Some(([target], end))
    else
      var (part, end) := ReadAt(buf, pos + 1, buf[pos]);
      Prefixed([part], NameAt(buf, start, end))
  }

  /** `decode_compressed_name`, entered after the first pointer octet `length`: reads
      the second octet, decodes the name at the offset and resumes right after the
      pointer. The offset must lie before `start`, the offset where the name being
      decoded began; otherwise decoding fails (the Python program has no such check). */
  function PointerNameAt(buf: Bytes, start: nat, length: byte, pos: nat): (r: Option<(Bytes, nat)>)
    requires start <= pos <= |buf|
    ensures r.Some? ==> r.value.1 == pos + 1 <= |buf|
    decreases start, 1, 0
  {
    if pos == |buf| then None
    else
      var offset := PointerOffset(length, buf[pos]);
      if offset >= start then None
      else
        match DecodeNameAt(buf, offset)
        case None => None
        case Some((target, _)) => Some((target, pos + 1))
  }

  /** `decode_name`: the parts joined by dots, and where the cursor stops. */
  function DecodeNameAt(buf: Bytes, pos: nat): (r: Option<(Bytes, nat)>)
    requires pos <= |buf|
    ensures r.Some? ==> pos < r.value.1 <= |buf|
    decreases pos, 3, 0
  {
    match NameAt(buf, pos, pos)
    case None => None
    case Some((parts, end)) => Some((Join(parts, DOT), end))
  }

  // ---------------------------------------------------------------------------
  // Decoding with the shared cursor

  /** `decode_name_simple`. */
  method DecodeNameSimple(reader: Reader) returns (r: Option<Bytes>)
    requires reader.Valid()
    modifies reader
    ensures reader.Valid()
    ensures Yields(r, reader.pos, SimpleNameAt(reader.data, old(reader.pos)))
  {
    ghost var start := reader.pos;
    var parts: seq<Bytes> := [];
    PrefixedNothing(SimpleLabelsAt(reader.data, start));
    while true
      invariant reader.Valid() && start <= reader.pos
      invariant SimpleLabelsAt(reader.data, start) == Prefixed(parts, SimpleLabelsAt(reader.data, reader.pos))
      decreases |reader.data| - reader.pos
    {
      var lengthOctet := reader.Read(1);
      if |lengthOctet| == 0 {
        return None;
      }
      var length := lengthOctet[0];
      if length == 0 {
        assert parts + [] == parts;
        break;
      }
      var part := reader.Read(length);
      PrefixedTwice(parts, [part], SimpleLabelsAt(reader.data, reader.pos));
      parts := parts + [part];
    }
    r := Some(Join(parts, DOT));
  }

  /** `decode_name`. */
  method DecodeName(reader: Reader) returns (r: Option<Bytes>)
    requires reader.Valid()
    modifies reader
    ensures reader.Valid()
    ensures Yields(r, reader.pos, DecodeNameAt(reader.data, old(reader.pos)))
    decreases reader.pos, 3
  {
    var start := reader.pos;
    var parts: seq<Bytes> := [];
    PrefixedNothing(NameAt(reader.data, start, start));
    while true
      invariant reader.Valid() && start <= reader.pos
      invariant NameAt(reader.data, start, start) == Prefixed(parts, NameAt(reader.data, start, reader.pos))
      decreases |reader.data| - reader.pos
    {
      var lengthOctet := reader.Read(1);
      if |lengthOctet| == 0 {
        return None;
      }
      var length := lengthOctet[0];
      if length == 0 {
        assert parts + [] == parts;
        break;
      }
      if IsPointer(length) {
        var target := DecodeCompressedName(length, reader, start);
        if target.None? {
          return None;
        }
        parts := parts + [target.value];
        break;
      } else {
        var part := reader.Read(length);
        PrefixedTwice(parts, [part], NameAt(reader.data, start, reader.pos));
        parts := parts + [part];
      }
    }
    r := Some(Join(parts, DOT));
  }

  /** `decode_compressed_name`: saves the cursor, jumps to the offset, decodes the
      name there and restores the cursor. `start` is where the enclosing name began. */
  method DecodeCompressedName(length: byte, reader: Reader, start: nat) returns (r: Option<Bytes>)
    requires reader.Valid() && start <= reader.pos
    modifies reader
    ensures reader.Valid()
    ensures Yields(r, reader.pos, PointerNameAt(reader.data, start, length, old(reader.pos)))
    decreases start, 1
  {
    var next := reader.Read(1);
    if |next| == 0 {
      // struct.unpack("!H", ...) of a single octet raises
      return None;
    }
    var offset := PointerOffset(length, next[0]);
    var currentPos := reader.Tell();
    if offset >= start {
      return None;
    }
    reader.Seek(offset);
    r := DecodeName(reader);
    reader.Seek(currentPos);
  }

  // ---------------------------------------------------------------------------
  // Properties of the decoders

  /** Every label is non-empty, so that its length octet is not the terminator,
      and shorter than `limit` octets. */
  predicate LabelsBelow(parts: seq<Bytes>, limit: nat)
  {
    forall i :: 0 <= i < |parts| ==> 1 <= |parts[i]| < limit
  }

  /** A name `decode_name_simple` reads back from its encoding: every dot-separated
      part is 1..255 octets long, so its length octet is neither zero nor beyond
      what one octet holds. */
  predicate SimpleName(name: Bytes)
  {
    LabelsBelow(Split(name, DOT), 0x100)
  }

  /** A name `decode_name` reads back from its encoding: every part is 1..63 octets
      long (the label limit of section 2.3.4 of RFC 1035), so that no length octet
      is taken for a pointer. */
  predicate ValidName(name: Bytes)
  {
    LabelsBelow(Split(name, DOT), 0x40)
  }

  /** A zero octet ends the run of either decoder. */
  lemma TerminatorStep(buf: Bytes, start: nat, pos: nat)
    requires start <= pos < |buf| && buf[pos] == 0
    ensures SimpleLabelsAt(buf, pos) == Some(([], pos + 1))
    ensures NameAt(buf, start, pos) == Some(([], pos + 1))
  {
  }

  /** A pointer octet pair at `pos` to an offset before the name's start: the run
      ends with the name at the offset, and the cursor stops after the two octets. */
  lemma PointerStep(buf: Bytes, start: nat, pos: nat, offset: nat, target: Bytes, targetEnd: nat)
    requires start <= pos && pos + 2 <= |buf| && IsPointer(buf[pos])
    requires offset == PointerOffset(buf[pos], buf[pos + 1]) < start
    requires DecodeNameAt(buf, offset) == Some((target, targetEnd))
    ensures NameAt(buf, start, pos) == Some(([target], pos + 2))
  {
    assert PointerNameAt(buf, start, buf[pos], pos + 1) == Some((target, pos + 2));
  }

  lemma HeadThenRest(parts: seq<Bytes>, rest: seq<Bytes>)
    requires |parts| > 0
    ensures [parts[0]] + (parts[1..] + rest) == parts + rest
  {
    assert parts == [parts[0]] + parts[1..];
  }

  lemma Subslice(s: Bytes, a: nat, b: nat, c: nat, d: nat)
    requires a <= b <= |s| && c <= d <= b - a
    ensures s[a..b][c..d] == s[a + c..a + d]
  {
    assert forall i | 0 <= i < d - c :: s[a..b][c..d][i] == s[a + c..a + d][i];
  }

  /** Where a run of labels sits in a buffer, its first label sits at the front. */
  lemma WireHead(buf: Bytes, pos: nat, q: nat, parts: seq<Bytes>)
    requires LabelsFit(parts) && |parts| > 0
    requires pos <= q <= |buf| && buf[pos..q] == LabelsWire(parts)
    ensures pos + 1 + |parts[0]| <= q && buf[pos] == |parts[0]|
    ensures buf[pos + 1..pos + 1 + |parts[0]|] == parts[0]
    ensures buf[pos + 1 + |parts[0]|..q] == LabelsWire(parts[1..])
  {
    var w := LabelsWire(parts);
    var first := parts[0];
    assert w == [|first|] + first + LabelsWire(parts[1..]);
    assert w[1..1 + |first|] == first && w[1 + |first|..] == LabelsWire(parts[1..]);
    assert buf[pos] == buf[pos..q][0] == w[0];
    Subslice(buf, pos, q, 1, 1 + |first|);
    Subslice(buf, pos, q, 1 + |first|, q - pos);
  }

  /** One label step of `decode_name_simple`: a non-zero length octet and that many
      octets. */
  lemma SimpleLabelStep(buf: Bytes, pos: nat, part: Bytes)
    requires 1 <= |part| && pos + 1 + |part| <= |buf|
    requires buf[pos] == |part| && buf[pos + 1..pos + 1 + |part|] == part
    ensures SimpleLabelsAt(buf, pos) == Prefixed([part], SimpleLabelsAt(buf, pos + 1 + |part|))
  {
  }

  /** One label step of `decode_name`: a length octet of 1..63, below the pointer
      threshold, and that many octets. */
  lemma LabelStep(buf: Bytes, start: nat, pos: nat, part: Bytes)
    requires 1 <= |part| < 0x40 && start <= pos && pos + 1 + |part| <= |buf|
    requires buf[pos] == |part| && buf[pos + 1..pos + 1 + |part|] == part
    ensures NameAt(buf, start, pos) == Prefixed([part], NameAt(buf, start, pos + 1 + |part|))
  {
  }

  /** Reading one label and then the rest of a run, as `Prefixed` composes them. */
  lemma PrefixedHead(whole: Option<(seq<Bytes>, nat)>, tail: Option<(seq<Bytes>, nat)>, parts: seq<Bytes>, rest: seq<Bytes>, end: nat)
    requires |parts| > 0
    requires whole == Prefixed([parts[0]], tail) && tail == Some((parts[1..] + rest, end))
    ensures whole == Some((parts + rest, end))
  {
    HeadThenRest(parts, rest);
  }

  /** `parts` sit at `pos` in `buf` as a run of labels that ends at `q`: each a
      length octet below `limit` and that many octets. */
  predicate LabelRunAt(buf: Bytes, pos: nat, parts: seq<Bytes>, q: nat, limit: nat)
    decreases |parts|
  {
    if |parts| == 0 then pos == q
    else
      var next := pos + 1 + |parts[0]|;
      1 <= |parts[0]| < limit && next <= |buf| && buf[pos] == |parts[0]|
      && buf[pos + 1..next] == parts[0] && LabelRunAt(buf, next, parts[1..], q, limit)
  }

  /** The encoded labels of a name, placed in a buffer, form such a run. */
  lemma {:induction false} WireRun(buf: Bytes, pos: nat, parts: seq<Bytes>, q: nat, limit: nat)
    requires limit <= 0x100 && LabelsBelow(parts, limit)
    requires q == pos + |LabelsWire(parts)| <= |buf| && buf[pos..q] == LabelsWire(parts)
    ensures LabelRunAt(buf, pos, parts, q, limit)
    decreases |parts|
  {
    if |parts| > 0 {
      WireHead(buf, pos, q, parts);
      assert LabelsBelow(parts[1..], limit) by {
        assert forall i | 0 <= i < |parts[1..]| :: parts[1..][i] == parts[i + 1];
      }
      WireRun(buf, pos + 1 + |parts[0]|, parts[1..], q, limit);
    }
  }

  /** `decode_name_simple` reads a run of labels of 1..255 octets as those labels,
      and then goes on with whatever follows the run. */
  lemma {:induction false} SimpleLabelsPrefix(buf: Bytes, pos: nat, parts: seq<Bytes>, q: nat, rest: seq<Bytes>, end: nat)
    requires LabelRunAt(buf, pos, parts, q, 0x100) && q <= |buf|
    requires SimpleLabelsAt(buf, q) == Some((rest, end))
    ensures SimpleLabelsAt(buf, pos) == Some((parts + rest, end))
    decreases |parts|
  {
    if |parts| == 0 {
      assert parts + rest == rest;
    } else {
      var next := pos + 1 + |parts[0]|;
      SimpleLabelStep(buf, pos, parts[0]);
      SimpleLabelsPrefix(buf, next, parts[1..], q, rest, end);
      PrefixedHead(SimpleLabelsAt(buf, pos), SimpleLabelsAt(buf, next), parts, rest, end);
    }
  }

  /** So does `decode_name` for labels of 1..63 octets, wherever the name began. */
  lemma {:induction false} LabelsPrefix(buf: Bytes, start: nat, pos: nat, parts: seq<Bytes>, q: nat, rest: seq<Bytes>, end: nat)
    requires LabelRunAt(buf, pos, parts, q, 0x40) && start <= pos && start <= q <= |buf|
    requires NameAt(buf, start, q) == Some((rest, end))
    ensures NameAt(buf, start, pos) == Some((parts + rest, end))
    decreases |parts|
  {
    if |parts| == 0 {
      assert parts + rest == rest;
    } else {
      var next := pos + 1 + |parts[0]|;
      LabelStep(buf, start, pos, parts[0]);
      LabelsPrefix(buf, start, next, parts[1..], q, rest, end);
      PrefixedHead(NameAt(buf, start, pos), NameAt(buf, start, next), parts, rest, end);
    }
  }

  /** Where an encoded name sits in a buffer, its labels come first and the zero
      octet right after them. */
  lemma EncodedNameAt(name: Bytes, wire: Bytes, buf: Bytes, pos: nat)
    requires EncodeName(name) == Some(wire)
    requires pos + |wire| <= |buf| && buf[pos..pos + |wire|] == wire
    ensures pos + |LabelsWire(Split(name, DOT))| + 1 == pos + |wire|
    ensures buf[pos..pos + |LabelsWire(Split(name, DOT))|] == LabelsWire(Split(name, DOT))
    ensures buf[pos + |LabelsWire(Split(name, DOT))|] == 0
  {
    var parts := Split(name, DOT);
    var q := pos + |LabelsWire(parts)|;
    assert wire == LabelsWire(parts) + [0];
    assert buf[pos..q] == wire[..q - pos];
    assert buf[q] == wire[q - pos];
  }

  /** Name round trip for `decode_name_simple`: a name with parts of 1..255 octets
      reads back from its encoding at any position, and the cursor stops just past
      the zero octet. */
  lemma SimpleDecodeEncodedName(name: Bytes, wire: Bytes, buf: Bytes, pos: nat)
    requires SimpleName(name) && EncodeName(name) == Some(wire)
    requires pos + |wire| <= |buf| && buf[pos..pos + |wire|] == wire
    ensures SimpleNameAt(buf, pos) == Some((name, pos + |wire|))
  {
    var parts := Split(name, DOT);
    var q := pos + |LabelsWire(parts)|;
    EncodedNameAt(name, wire, buf, pos);
    assert parts + [] == parts;
    assert SimpleLabelsAt(buf, pos) == Some((parts, q + 1)) by {
      TerminatorStep(buf, pos, q);
      WireRun(buf, pos, parts, q, 0x100);
      SimpleLabelsPrefix(buf, pos, parts, q, [], q + 1);
    }
    JoinSplit(name, DOT);
  }

  /** Name round trip for both decoders: a name with parts of 1..63 octets reads
      back from its encoding at any position, and the cursor stops just past the
      zero octet. */
  lemma DecodeEncodedName(name: Bytes, wire: Bytes, buf: Bytes, pos: nat)
    requires ValidName(name) && EncodeName(name) == Some(wire)
    requires pos + |wire| <= |buf| && buf[pos..pos + |wire|] == wire
    ensures SimpleNameAt(buf, pos) == Some((name, pos + |wire|))
    ensures DecodeNameAt(buf, pos) == Some((name, pos + |wire|))
  {
    var parts := Split(name, DOT);
    var q := pos + |LabelsWire(parts)|;
    EncodedNameAt(name, wire, buf, pos);
    assert parts + [] == parts;
    assert NameAt(buf, pos, pos) == Some((parts, q + 1)) by {
      TerminatorStep(buf, pos, q);
      WireRun(buf, pos, parts, q, 0x40);
      LabelsPrefix(buf, pos, pos, parts, q, [], q + 1);
    }
    JoinSplit(name, DOT);
    SimpleDecodeEncodedName(name, wire, buf, pos);
  }

  /** The empty name, whose only part is empty, encodes as two zero octets; either
      decoder stops at the first of them and leaves the second unread. */
  lemma EmptyNameStopsEarly(name: Bytes, buf: Bytes, pos: nat)
    requires name == [] && pos + 2 <= |buf| && buf[pos..pos + 2] == [0, 0]
    ensures EncodeName(name) == Some([0, 0])
    ensures SimpleNameAt(buf, pos) == Some(([], pos + 1))
    ensures DecodeNameAt(buf, pos) == Some(([], pos + 1))
  {
    var parts: seq<Bytes> := [[]];
    assert Split(name, DOT) == parts;
    assert LabelsFit(parts) && parts[1..] == [] && |parts[0]| == 0;
    assert LabelsWire(parts) == [|parts[0]|] + parts[0] + LabelsWire(parts[1..]) == [0];
    assert EncodeName(name) == Some(LabelsWire(parts) + [0]);
    assert LabelsWire(parts) + [0] == [0, 0];
    assert buf[pos] == buf[pos..pos + 2][0];
    TerminatorStep(buf, pos, pos);
  }

  /** A compressed name: labels followed by a pointer to an earlier offset decode
      as those labels and the name at the offset, joined by dots; the cursor stops
      right after the two pointer octets, not after the target. */
  lemma CompressedName(buf: Bytes, pos: nat, parts: seq<Bytes>, q: nat, offset: nat, target: Bytes, targetEnd: nat)
    requires LabelsBelow(parts, 0x40)
    requires q == pos + |LabelsWire(parts)| && q + 2 <= |buf|
    requires buf[pos..q] == LabelsWire(parts)
    requires IsPointer(buf[q]) && offset == PointerOffset(buf[q], buf[q + 1]) < pos
    requires DecodeNameAt(buf, offset) == Some((target, targetEnd))
    ensures DecodeNameAt(buf, pos) == Some((Join(parts + [target], DOT), q + 2))
  {
    PointerStep(buf, pos, q, offset, target, targetEnd);
    WireRun(buf, pos, parts, q, 0x40);
    LabelsPrefix(buf, pos, pos, parts, q, [target], q + 2);
  }

  /** `decode_name_simple` does not know pointers: it reads a pointer octet as a
      label length, so a pointer near the end of the message makes it fail. */
  lemma SimplePointerAsLength(buf: Bytes, pos: nat)
    requires pos < |buf| && IsPointer(buf[pos]) && pos + 1 + buf[pos] >= |buf|
    ensures SimpleLabelsAt(buf, pos) == None
  {
    assert SimpleLabelsAt(buf, |buf|) == None;
  }

  /** The same two octets end a question name and a record name differently. Where a
      pointer to an earlier name is the last thing in the message, `decode_name`
      follows it, but `decode_name_simple` reads its first octet as a length and
      fails. */
  lemma PointerOnlyInRecordNames(buf: Bytes, pos: nat, target: Bytes, targetEnd: nat)
    requires pos + 2 == |buf| && IsPointer(buf[pos])
    requires PointerOffset(buf[pos], buf[pos + 1]) < pos
    requires DecodeNameAt(buf, PointerOffset(buf[pos], buf[pos + 1])) == Some((target, targetEnd))
    ensures SimpleNameAt(buf, pos) == None
    ensures DecodeNameAt(buf, pos) == Some((target, |buf|))
  {
    SimplePointerAsLength(buf, pos);
    PointerStep(buf, pos, pos, PointerOffset(buf[pos], buf[pos + 1]), target, targetEnd);
  }

  /** The two octets `C0 0C` after offset 12 decode to the name at offset 12. */
  lemma PointerToOffsetTwelve(buf: Bytes, pos: nat)
    requires 12 < pos && pos + 2 <= |buf| && buf[pos] == 0xC0 && buf[pos + 1] == 0x0C
    requires DecodeNameAt(buf, 12).Some?
    ensures DecodeNameAt(buf, pos) == Some((DecodeNameAt(buf, 12).value.0, pos + 2))
  {
    PointerStep(buf, pos, pos, 12, DecodeNameAt(buf, 12).value.0, DecodeNameAt(buf, 12).value.1);
  }

  /** A pointer to the offset where the current name began, or to any later
      offset, makes `decode_name` fail instead of looping; in particular a pointer
      to itself. */
  lemma PointerNotBackwardFails(buf: Bytes, start: nat, pos: nat)
    requires start <= pos && pos + 2 <= |buf|
    requires IsPointer(buf[pos]) && PointerOffset(buf[pos], buf[pos + 1]) >= start
    ensures NameAt(buf, start, pos) == None
  {
  }

  lemma SelfPointerFails(buf: Bytes, pos: nat)
    requires pos + 2 <= |buf| && IsPointer(buf[pos]) && PointerOffset(buf[pos], buf[pos + 1]) == pos
    ensures DecodeNameAt(buf, pos) == None
  {
    PointerNotBackwardFails(buf, pos, pos);
  }
}
