/** The DNS wire format both stub resolvers speak (RFC 1035): the 12-byte header with
    its bit-packed flags word (section 4.1.1), length-prefixed names (section 3.1), the
    question (section 4.1.2) and the fixed 16-byte A answer record (section 4.1.3)
    that both clients assume. The C and the Python client are each proved against
    these definitions. */
module DnsFormat {
  import opened Common
  import opened Wire

  /** The label separator '.' of a dotted hostname. */
  const Dot: byte := 46

  /** QTYPE A and QCLASS IN, the only question the clients ask. */
  const TypeA: u16 := 1
  const ClassIn: u16 := 1

  const HeaderSize := 12

  /** Every answer record is read as a fixed 16-byte block. */
  const RecordSize := 16

  // ---------------------------------------------------------------- header

  /** The flags word: QR(1) Opcode(4) AA(1) TC(1) RD(1) RA(1) Z(3) RCODE(4), from the
      most significant bit down. */
  datatype Flags = Flags(qr: nat, opcode: nat, aa: nat, tc: nat, rd: nat, ra: nat, z: nat, rcode: nat)
  {
    predicate Valid() {
      qr < 2 && opcode < 16 && aa < 2 && tc < 2 && rd < 2 && ra < 2 && z < 8 && rcode < 16
    }
  }

  /** Place each field at its bit position: qr 15, opcode 11-14, aa 10, tc 9, rd 8,
      ra 7, z 4-6, rcode 0-3. */
  function PackFlags(f: Flags): u16
    requires f.Valid()
  {
    f.qr * 0x8000 + f.opcode * 0x800 + f.aa * 0x400 + f.tc * 0x200
      + f.rd * 0x100 + f.ra * 0x80 + f.z * 0x10 + f.rcode
  }

  /** Read each field back with a shift and a mask; on a non-negative word,
      (w >> k) & (2^n - 1) is (w / 2^k) % 2^n. */
  function UnpackFlags(w: u16): (f: Flags)
    ensures f.Valid()
  {
    Flags(qr := (w / 0x8000) % 2, opcode := (w / 0x800) % 0x10, aa := (w / 0x400) % 2,
          tc := (w / 0x200) % 2, rd := (w / 0x100) % 2, ra := (w / 0x80) % 2,
          z := (w / 0x10) % 8, rcode := w % 0x10)
  }

  /** Unpacking a packed flags record gives every field back. */
  lemma UnpackPackFlags(f: Flags)
    requires f.Valid()
    ensures UnpackFlags(PackFlags(f)) == f
  {
    var w := PackFlags(f);
    // the fields above each bit position
    var a11 := f.qr * 0x10 + f.opcode;
    var a10 := a11 * 2 + f.aa;
    var a9 := a10 * 2 + f.tc;
    var a8 := a9 * 2 + f.rd;
    var a7 := a8 * 2 + f.ra;
    var a4 := a7 * 8 + f.z;
    Field(w, 0, f.qr, w - f.qr * 0x8000, 0x8000, 2);
    Field(w, f.qr, f.opcode, w - a11 * 0x800, 0x800, 0x10);
    Field(w, a11, f.aa, w - a10 * 0x400, 0x400, 2);
    Field(w, a10, f.tc, w - a9 * 0x200, 0x200, 2);
    Field(w, a9, f.rd, w - a8 * 0x100, 0x100, 2);
    Field(w, a8, f.ra, w - a7 * 0x80, 0x80, 2);
    Field(w, a7, f.z, f.rcode, 0x10, 8);
    Field(w, a4, f.rcode, 0, 1, 0x10);
  }

  /** Packing the unpacked fields rebuilds the word. */
  lemma PackUnpackFlags(w: u16)
    ensures PackFlags(UnpackFlags(w)) == w
  {
    var a4, a7, a8, a9, a10, a11, a15 := w / 0x10, w / 0x80, w / 0x100, w / 0x200, w / 0x400, w / 0x800, w / 0x8000;
    assert w == a4 * 0x10 + w % 0x10;
    assert a4 / 8 == a7;
    assert a4 == a7 * 8 + (w / 0x10) % 8;
    assert a7 / 2 == a8;
    assert a7 == a8 * 2 + (w / 0x80) % 2;
    assert a8 / 2 == a9;
    assert a8 == a9 * 2 + (w / 0x100) % 2;
    assert a9 / 2 == a10;
    assert a9 == a10 * 2 + (w / 0x200) % 2;
    assert a10 / 2 == a11;
    assert a10 == a11 * 2 + (w / 0x400) % 2;
    assert a11 / 0x10 == a15;
    assert a11 == a15 * 0x10 + (w / 0x800) % 0x10;
    assert a15 < 2 && a15 % 2 == a15;
  }

  datatype Header = Header(id: u16, flags: Flags, qdCount: u16, anCount: u16, nsCount: u16, arCount: u16)
  {
    predicate Valid() { flags.Valid() }
  }

  /** Six big-endian 16-bit words: id, flags, and the four section counts. */
  function EncodeHeader(h: Header): (r: seq<byte>)
    requires h.Valid()
    ensures |r| == HeaderSize
  {
    BE16(h.id) + BE16(PackFlags(h.flags)) + BE16(h.qdCount)
      + BE16(h.anCount) + BE16(h.nsCount) + BE16(h.arCount)
  }

  /** The header held by the first 12 bytes of a message. */
  function DecodeHeader(s: seq<byte>): (h: Header)
    requires |s| >= HeaderSize
    ensures h.Valid() && EncodeHeader(h) == s[..HeaderSize]
  {
    var h := Header(ReadBE16(s, 0), UnpackFlags(ReadBE16(s, 2)), ReadBE16(s, 4),
                    ReadBE16(s, 6), ReadBE16(s, 8), ReadBE16(s, 10));
    PackUnpackFlags(ReadBE16(s, 2));
    assert s[..HeaderSize] == s[0..2] + s[2..4] + s[4..6] + s[6..8] + s[8..10] + s[10..12];
    h
  }

  /** The header's six fields are the six big-endian words, the second unpacked. */
  lemma DecodeHeaderWords(s: seq<byte>)
    requires |s| >= HeaderSize
    ensures DecodeHeader(s) == Header(ReadBE16(s, 0), UnpackFlags(ReadBE16(s, 2)), ReadBE16(s, 4),
                                      ReadBE16(s, 6), ReadBE16(s, 8), ReadBE16(s, 10))
  {
  }

  /** Only the first twelve bytes of a message make its header. */
  lemma DecodeHeaderPrefix(s: seq<byte>)
    requires |s| >= HeaderSize
    ensures DecodeHeader(s[..HeaderSize]) == DecodeHeader(s)
  {
    var p := s[..HeaderSize];
    DecodeHeaderWords(p);
    DecodeHeaderWords(s);
    assert ReadBE16(p, 0) == ReadBE16(s, 0) && ReadBE16(p, 2) == ReadBE16(s, 2);
    assert ReadBE16(p, 4) == ReadBE16(s, 4) && ReadBE16(p, 6) == ReadBE16(s, 6);
    assert ReadBE16(p, 8) == ReadBE16(s, 8) && ReadBE16(p, 10) == ReadBE16(s, 10);
  }

  /** Decoding an encoded header returns every field unchanged. */
  lemma {:induction false} HeaderRoundTrip(h: Header)
    requires h.Valid()
    ensures DecodeHeader(EncodeHeader(h)) == h
  {
    var s := EncodeHeader(h);
    ReadWritten(s, 0, h.id);
    ReadWritten(s, 2, PackFlags(h.flags));
    ReadWritten(s, 4, h.qdCount);
    ReadWritten(s, 6, h.anCount);
    ReadWritten(s, 8, h.nsCount);
    ReadWritten(s, 10, h.arCount);
    UnpackPackFlags(h.flags);
  }

  /** The request header: id 1, a standard query (qr 0, opcode 0) with recursion
      desired, every other flag clear, one question and no other records. */
  const RequestFlags := Flags(qr := 0, opcode := 0, aa := 0, tc := 0, rd := 1, ra := 0, z := 0, rcode := 0)
  const RequestHeader := Header(1, RequestFlags, 1, 0, 0, 0)

  /** The request flags word is 0x0100 and the header bytes are 00 01 01 00 00 01 00 00 00 00 00 00. */
  lemma RequestHeaderBytes()
    ensures PackFlags(RequestFlags) == 0x0100
    ensures EncodeHeader(RequestHeader) == [0, 1, 1, 0, 0, 1, 0, 0, 0, 0, 0, 0]
  {
  }

  // ---------------------------------------------------------------- names

  /** Every label has a length that one length byte can carry. */
  predicate LengthsFit(labels: seq<seq<byte>>) {
    forall i :: 0 <= i < |labels| ==> |labels[i]| < 0x100
  }

  /** Labels of a well-formed uncompressed name: 1 to 63 bytes each. */
  predicate ValidLabels(labels: seq<seq<byte>>) {
    forall i :: 0 <= i < |labels| ==> 1 <= |labels[i]| < 0x40
  }

  /** Labels as they come out of a hostname given as a C string: well-formed, without
      NUL bytes and without dots. */
  predicate HostnameLabels(labels: seq<seq<byte>>) {
    ValidLabels(labels) && forall i :: 0 <= i < |labels| ==> 0 !in labels[i] && Dot !in labels[i]
  }

  /** Each label as a length byte followed by its bytes. */
  function EncodeLabels(labels: seq<seq<byte>>): seq<byte>
    requires LengthsFit(labels)
  {
    if labels == [] then [] else [|labels[0]| as byte] + labels[0] + EncodeLabels(labels[1..])
  }

  /** Each label takes its bytes and its length byte. */
  lemma {:induction false} EncodeLength(labels: seq<seq<byte>>)
    requires LengthsFit(labels)
    ensures |EncodeLabels(labels)| == TotalLength(labels) + |labels|
  {
    if labels != [] {
      EncodeLength(labels[1..]);
    }
  }

  /** QNAME: the encoded labels closed by the zero-length root label. */
  function QName(labels: seq<seq<byte>>): seq<byte>
    requires LengthsFit(labels)
  {
    EncodeLabels(labels) + [0]
  }

  /** The reference name decoder: length-prefixed labels up to the zero byte. A length
      byte of 64 or more (a compression pointer or a reserved label type) or a label
      that runs past the end is refused. */
  function ParseLabels(s: seq<byte>): (r: Option<seq<seq<byte>>>)
    ensures r.Some? ==> ValidLabels(r.value) && |QName(r.value)| <= |s| && QName(r.value) == s[..|QName(r.value)|]
    decreases |s|
  {
    if |s| == 0 || s[0] >= 0x40 then None
    else if s[0] == 0 then Some([])
    else if |s| < 1 + s[0] then None
    else match ParseLabels(s[1 + s[0]..])
      case None => None
      case Some(rest) =>
        ParsedPrefix(s, rest);
        Some([s[1..1 + s[0]]] + rest)
  }

  /** One more label in front of a name read from the rest of the input: the longer
      name is read from the whole input. */
  lemma ParsedPrefix(s: seq<byte>, rest: seq<seq<byte>>)
    requires |s| > 0 && 0 < s[0] < 0x40 && 1 + s[0] <= |s|
    requires ValidLabels(rest) && |QName(rest)| <= |s| - 1 - s[0]
    requires QName(rest) == s[1 + s[0]..][..|QName(rest)|]
    ensures ValidLabels([s[1..1 + s[0]]] + rest)
    ensures |QName([s[1..1 + s[0]]] + rest)| <= |s|
    ensures QName([s[1..1 + s[0]]] + rest) == s[..|QName([s[1..1 + s[0]]] + rest)|]
  {
    var n := s[0] as int;
    var labels := [s[1..1 + n]] + rest;
    assert labels[0] == s[1..1 + n] && labels[1..] == rest;
    assert EncodeLabels(labels) == [n as byte] + s[1..1 + n] + EncodeLabels(rest);
    assert QName(labels) == [s[0]] + s[1..1 + n] + QName(rest);
    assert s[..|QName(labels)|] == [s[0]] + s[1..1 + n] + s[1 + n..][..|QName(rest)|];
  }

  /** The decoder inverts the encoder on well-formed labels, whatever follows the name. */
  lemma {:induction false} ParseQName(labels: seq<seq<byte>>, rest: seq<byte>)
    requires ValidLabels(labels)
    ensures ParseLabels(QName(labels) + rest) == Some(labels)
  {
    var s := QName(labels) + rest;
    if labels != [] {
      var n := |labels[0]|;
      assert s == [n as byte] + labels[0] + (QName(labels[1..]) + rest);
      assert s[1 + n..] == QName(labels[1..]) + rest;
      assert s[1..1 + n] == labels[0];
      ParseQName(labels[1..], rest);
      assert [labels[0]] + labels[1..] == labels;
    }
  }

  /** For the correct hostname the name takes strlen(host) + 2 bytes: one length byte
      per label in place of each dot, one more for the first label, and the terminator. */
  lemma QNameOfHostLength(host: seq<byte>)
    requires LengthsFit(Split(host, Dot))
    ensures |QName(Split(host, Dot))| == |host| + 2
  {
    JoinSplit(host, Dot);
    JoinLength(Split(host, Dot), Dot);
    EncodeLength(Split(host, Dot));
  }

  /** Name codec round trip: a hostname of well-formed labels encodes to a name that
      decodes to the same labels, and joining them with dots gives the hostname. */
  lemma NameRoundTrip(host: seq<byte>, rest: seq<byte>)
    requires ValidLabels(Split(host, Dot))
    ensures ParseLabels(QName(Split(host, Dot)) + rest) == Some(Split(host, Dot))
    ensures Join(Split(host, Dot), Dot) == host
  {
    ParseQName(Split(host, Dot), rest);
    JoinSplit(host, Dot);
  }

  /** A name shown as text is two bytes shorter than its encoding. */
  lemma {:induction false} NameTextLength(labels: seq<seq<byte>>)
    requires |labels| >= 1 && LengthsFit(labels)
    ensures |Join(labels, Dot)| + 2 == |QName(labels)|
  {
    JoinLength(labels, Dot);
    EncodeLength(labels);
  }

  /** The index of the first zero byte, or the length when there is none: strlen. */
  function FirstZero(s: seq<byte>): (n: nat)
    ensures n <= |s| && (n < |s| ==> s[n] == 0)
    ensures forall j :: 0 <= j < n ==> s[j] != 0
  {
    if s == [] || s[0] == 0 then 0 else 1 + FirstZero(s[1..])
  }

  /** A zero byte after a run without one: the run is what strlen measures. */
  lemma {:induction false} FirstZeroAfter(e: seq<byte>, rest: seq<byte>)
    requires 0 !in e
    ensures FirstZero(e + [0] + rest) == |e|
  {
    if e != [] {
      assert (e + [0] + rest)[1..] == e[1..] + [0] + rest;
      FirstZeroAfter(e[1..], rest);
    }
  }

  /** Every label byte of a name as a C string: none is zero. */
  predicate NoZeroBytes(labels: seq<seq<byte>>) {
    forall p :: p in labels ==> 0 !in p
  }

  /** An encoded name of non-empty labels without zero bytes holds no zero byte before
      its terminator, so strlen measures it. */
  lemma {:induction false} EncodedHasNoZero(labels: seq<seq<byte>>)
    requires ValidLabels(labels) && NoZeroBytes(labels)
    ensures 0 !in EncodeLabels(labels)
  {
    if labels != [] {
      assert labels[0] in labels;
      EncodedHasNoZero(labels[1..]);
    }
  }

  // ---------------------------------------------------------------- messages

  /** The query: header, QNAME, QTYPE A and QCLASS IN. */
  function RequestMessage(qname: seq<byte>): seq<byte>
  {
    EncodeHeader(RequestHeader) + qname + BE16(TypeA) + BE16(ClassIn)
  }

  datatype ResourceRecord = ResourceRecord(offset: u16, rtype: u16, rclass: u16, ttl: u32, rdLength: u16, rdata: seq<byte>)

  /** An A answer read as a fixed block: the name word keeps only its low 14 bits (the
      offset of a compression pointer, never followed), then TYPE, CLASS, TTL and
      RDLENGTH big-endian and 4 bytes of RDATA. */
  function DecodeARecord(s: seq<byte>, at: nat): (r: ResourceRecord)
    requires at + RecordSize <= |s|
    ensures r.offset < 0x4000 && |r.rdata| == 4
  {
    ResourceRecord(ReadBE16(s, at) % 0x4000, ReadBE16(s, at + 2), ReadBE16(s, at + 4),
                   ReadBE32(s, at + 6), ReadBE16(s, at + 10), s[at + 12..at + 16])
  }

  /** The 16 bytes of an A answer whose name field holds nameWord. */
  function EncodeARecord(nameWord: u16, r: ResourceRecord): seq<byte>
    requires |r.rdata| == 4
  {
    BE16(nameWord) + BE16(r.rtype) + BE16(r.rclass) + BE32(r.ttl) + BE16(r.rdLength) + r.rdata
  }

  /** Reading an encoded record back gives its fields, with the name word masked. */
  lemma ARecordRoundTrip(nameWord: u16, r: ResourceRecord)
    requires |r.rdata| == 4
    ensures |EncodeARecord(nameWord, r)| == RecordSize
    ensures DecodeARecord(EncodeARecord(nameWord, r), 0) == r.(offset := nameWord % 0x4000)
  {
    var s := EncodeARecord(nameWord, r);
    ReadWritten(s, 0, nameWord);
    ReadWritten(s, 2, r.rtype);
    ReadWritten(s, 4, r.rclass);
    assert s[6..10] == BE32(r.ttl);
    ReadWritten32(s, 6, r.ttl);
    ReadWritten(s, 10, r.rdLength);
    assert s[12..16] == r.rdata;
  }

  /** A record is decoded from its own 16 bytes alone. */
  lemma DecodeAt(s: seq<byte>, at: nat, t: seq<byte>)
    requires at + RecordSize <= |s| && s[at..at + RecordSize] == t
    ensures DecodeARecord(s, at) == DecodeARecord(t, 0)
  {
    assert s[at..at + 2] == t[0..2] && s[at + 2..at + 4] == t[2..4] && s[at + 4..at + 6] == t[4..6];
    assert s[at + 6..at + 10] == t[6..10] && s[at + 10..at + 12] == t[10..12] && s[at + 12..at + 16] == t[12..16];
  }

  /** Where answer i starts: after the header, the QNAME, QTYPE and QCLASS, at a fixed
      stride of 16 bytes per earlier answer. */
  function AnswerStart(qnameLength: nat, i: nat): nat
  {
    HeaderSize + qnameLength + 4 + RecordSize * i
  }

  /** The request message reads back as the request header, the question's labels,
      QTYPE A and QCLASS IN. */
  lemma RequestRoundTrip(labels: seq<seq<byte>>)
    requires ValidLabels(labels)
    ensures |RequestMessage(QName(labels))| == HeaderSize + |QName(labels)| + 4
    ensures DecodeHeader(RequestMessage(QName(labels))) == RequestHeader
    ensures ParseLabels(RequestMessage(QName(labels))[HeaderSize..]) == Some(labels)
    ensures ReadBE16(RequestMessage(QName(labels)), HeaderSize + |QName(labels)|) == TypeA
    ensures ReadBE16(RequestMessage(QName(labels)), HeaderSize + |QName(labels)| + 2) == ClassIn
  {
    var q := QName(labels);
    var m := RequestMessage(q);
    var tail := BE16(TypeA) + BE16(ClassIn);
    assert m == EncodeHeader(RequestHeader) + (q + tail);
    assert m[..HeaderSize] == EncodeHeader(RequestHeader);
    DecodeHeaderPrefix(m);
    HeaderRoundTrip(RequestHeader);
    assert m[HeaderSize..] == q + tail;
    ParseQName(labels, tail);
    assert m[HeaderSize + |q|..HeaderSize + |q| + 2] == BE16(TypeA);
    assert m[HeaderSize + |q| + 2..HeaderSize + |q| + 4] == BE16(ClassIn);
  }

  /** A run of A answers, each a name word and a record. */
  function EncodeAnswers(words: seq<u16>, records: seq<ResourceRecord>): (r: seq<byte>)
    requires |words| == |records| && forall i :: 0 <= i < |records| ==> |records[i].rdata| == 4
    ensures |r| == RecordSize * |records|
  {
    if records == [] then []
    else EncodeARecord(words[0], records[0]) + EncodeAnswers(words[1..], records[1..])
  }

  /** Answer i of a run occupies the 16 bytes from 16 i. */
  lemma {:induction false} AnswerBytes(words: seq<u16>, records: seq<ResourceRecord>, i: nat)
    requires |words| == |records| && forall j :: 0 <= j < |records| ==> |records[j].rdata| == 4
    requires i < |records|
    ensures EncodeAnswers(words, records)[RecordSize * i..RecordSize * i + RecordSize] == EncodeARecord(words[i], records[i])
    decreases i
  {
    var first := EncodeARecord(words[0], records[0]);
    var rest := EncodeAnswers(words[1..], records[1..]);
    assert EncodeAnswers(words, records) == first + rest;
    ARecordRoundTrip(words[0], records[0]);
    if i > 0 {
      AnswerBytes(words[1..], records[1..], i - 1);
      assert records[1..][i - 1] == records[i] && words[1..][i - 1] == words[i];
      assert (first + rest)[RecordSize * i..RecordSize * i + RecordSize]
          == rest[RecordSize * (i - 1)..RecordSize * (i - 1) + RecordSize];
    }
  }

  /** Answer i of a run sits 16 bytes per earlier answer after whatever precedes the run. */
  lemma AnswerInPlace(before: seq<byte>, words: seq<u16>, records: seq<ResourceRecord>, after: seq<byte>, i: nat)
    requires |words| == |records| && forall j :: 0 <= j < |records| ==> |records[j].rdata| == 4
    requires i < |records|
    ensures |before| + RecordSize * i + RecordSize <= |before + EncodeAnswers(words, records) + after|
    ensures (before + EncodeAnswers(words, records) + after)[|before| + RecordSize * i..|before| + RecordSize * i + RecordSize]
         == EncodeARecord(words[i], records[i])
  {
    AnswerBytes(words, records, i);
    MiddleSlice(before, EncodeAnswers(words, records), after, RecordSize * i, RecordSize * i + RecordSize);
  }

  /** Answer i of a run is read back from its place at 16 bytes per earlier answer,
      whatever precedes and follows the run. */
  lemma AnswersRoundTrip(before: seq<byte>, words: seq<u16>, records: seq<ResourceRecord>, after: seq<byte>, i: nat)
    requires |words| == |records| && forall j :: 0 <= j < |records| ==> |records[j].rdata| == 4
    requires i < |records|
    ensures |before| + RecordSize * i + RecordSize <= |before + EncodeAnswers(words, records) + after|
    ensures DecodeARecord(before + EncodeAnswers(words, records) + after, |before| + RecordSize * i)
         == records[i].(offset := words[i] % 0x4000)
  {
    AnswerInPlace(before, words, records, after, i);
    DecodeAt(before + EncodeAnswers(words, records) + after, |before| + RecordSize * i, EncodeARecord(words[i], records[i]));
    ARecordRoundTrip(words[i], records[i]);
  }

  /** A reply made of a header, the question and a run of A answers decodes to that
      header, those labels and those answers, each at AnswerStart. */
  lemma ResponseRoundTrip(h: Header, labels: seq<seq<byte>>, qtype: u16, qclass: u16,
                          words: seq<u16>, records: seq<ResourceRecord>, after: seq<byte>, i: nat)
    requires h.Valid() && ValidLabels(labels)
    requires |words| == |records| && forall j :: 0 <= j < |records| ==> |records[j].rdata| == 4
    requires i < |records|
    ensures var s := EncodeHeader(h) + QName(labels) + BE16(qtype) + BE16(qclass) + EncodeAnswers(words, records) + after;
            && DecodeHeader(s) == h
            && ParseLabels(s[HeaderSize..]) == Some(labels)
            && AnswerStart(|QName(labels)|, i) + RecordSize <= |s|
            && DecodeARecord(s, AnswerStart(|QName(labels)|, i)) == records[i].(offset := words[i] % 0x4000)
  {
    var s := EncodeHeader(h) + QName(labels) + BE16(qtype) + BE16(qclass) + EncodeAnswers(words, records) + after;
    var tail := BE16(qtype) + BE16(qclass) + EncodeAnswers(words, records) + after;
    Regroup(EncodeHeader(h), QName(labels), BE16(qtype), BE16(qclass), EncodeAnswers(words, records), after);
    HeaderAndName(h, labels, tail);
    var before := EncodeHeader(h) + QName(labels) + BE16(qtype) + BE16(qclass);
    assert AnswerStart(|QName(labels)|, i) == |before| + RecordSize * i;
    AnswersRoundTrip(before, words, records, after, i);
    var e := EncodeAnswers(words, records);
    assert s == before + e + after;
    var d := DecodeARecord(before + e + after, |before| + RecordSize * i);
    assert d == records[i].(offset := words[i] % 0x4000);
    assert DecodeARecord(s, AnswerStart(|QName(labels)|, i)) == d;
  }

  /** A header and a name decode back, whatever follows them. */
  lemma HeaderAndName(h: Header, labels: seq<seq<byte>>, tail: seq<byte>)
    requires h.Valid() && ValidLabels(labels)
    ensures var s := EncodeHeader(h) + QName(labels) + tail;
            && DecodeHeader(s) == h
            && ParseLabels(s[HeaderSize..]) == Some(labels)
  {
    var s := EncodeHeader(h) + QName(labels) + tail;
    assert s == EncodeHeader(h) + (QName(labels) + tail);
    HeaderFirst(h, QName(labels) + tail);
    assert s[HeaderSize..] == QName(labels) + tail;
    ParseQName(labels, tail);
  }

  /** A message starting with an encoded header decodes to that header. */
  lemma HeaderFirst(h: Header, body: seq<byte>)
    requires h.Valid()
    ensures DecodeHeader(EncodeHeader(h) + body) == h
  {
    var s := EncodeHeader(h) + body;
    DecodeHeaderPrefix(s);
    assert s[..HeaderSize] == EncodeHeader(h);
    HeaderRoundTrip(h);
  }

  /** An IPv4 address as text, as inet_ntoa and the Python client print it: four
      decimal fields separated by dots. */
  function IpText(address: seq<byte>): (r: seq<char>)
    requires |address| == 4
  {
    Decimal(address[0]) + ['.'] + Decimal(address[1]) + ['.'] + Decimal(address[2]) + ['.'] + Decimal(address[3])
  }
}
