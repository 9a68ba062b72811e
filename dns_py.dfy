/** The Python DNS stub resolver of dns_client.py, against the wire format of
    DnsFormat. The encoders are byte-string expressions; the question decoder is a
    byte-at-a-time state machine whose length counter is never reset, so only some
    names come back unchanged. Hostnames and label text are modelled as ASCII bytes. */
module DnsPy {
  import opened Common
  import opened Wire
  import opened DnsFormat

  /** The exceptions that escape: int.to_bytes on a length over 255, and struct.unpack
      on too few bytes. */
  datatype PyError = OverflowError | StructError

  // ---------------------------------------------------------------- request

  /** calculate_qname: every piece of domain.split('.') as a length byte and its bytes,
      then the zero byte. Nothing is validated: an empty piece becomes a zero length
      byte, and a piece of 256 or more bytes raises. */
  function CalculateQname(domain: seq<byte>): (r: Result<seq<byte>, PyError>)
    ensures r.Err? <==> !LengthsFit(Split(domain, Dot))
    ensures r.Ok? ==> |r.value| == |domain| + 2
    ensures r.Ok? && ValidLabels(Split(domain, Dot)) ==> ParseLabels(r.value) == Some(Split(domain, Dot))
  {
    var labels := Split(domain, Dot);
    if !LengthsFit(labels) then Err(OverflowError)
    else
      QNameOfHostLength(domain);
      var qname := EncodeLabels(labels) + [0];
      if ValidLabels(labels) then
        ParseQName(labels, []);
        assert QName(labels) + [] == qname;
        Ok(qname)
      else Ok(qname)
  }

  /** An empty piece (an empty name, a leading, trailing or doubled dot) puts a zero
      byte inside the name, so a reader stops before the terminator. */
  lemma EmptyPieceCutsName(domain: seq<byte>)
    requires LengthsFit(Split(domain, Dot)) && [] in Split(domain, Dot)
    ensures FirstZero(CalculateQname(domain).value) < |CalculateQname(domain).value| - 1
  {
    var labels := Split(domain, Dot);
    var e := EncodeLabels(labels);
    assert CalculateQname(domain).value == e + [0];
    EmptyLabelEncodesZero(labels);
    var j :| 0 <= j < |e| && e[j] == 0;
    assert (e + [0])[j] == 0;
  }

  lemma {:induction false} EmptyLabelEncodesZero(labels: seq<seq<byte>>)
    requires LengthsFit(labels) && [] in labels
    ensures 0 in EncodeLabels(labels)
  {
    if labels[0] != [] {
      assert [] in labels[1..];
      EmptyLabelEncodesZero(labels[1..]);
    }
  }

  /** make_dns_request_message: the literal header bytes, the name, QTYPE A and
      QCLASS IN. It is the request of the shared format, and it reads back as the
      request header and the host's labels. */
  function MakeDnsRequestMessage(host: seq<byte>): (r: Result<seq<byte>, PyError>)
    ensures r.Err? <==> !LengthsFit(Split(host, Dot))
    ensures r.Ok? ==> r.value == RequestMessage(QName(Split(host, Dot)))
    ensures r.Ok? && ValidLabels(Split(host, Dot)) ==>
              DecodeHeader(r.value) == RequestHeader
              && ParseLabels(r.value[HeaderSize..]) == Some(Split(host, Dot))
  {
    match CalculateQname(host)
    case Err(e) => Err(e)
    case Ok(qname) =>
      RequestHeaderBytes();
      var message := [0, 1, 1, 0, 0, 1, 0, 0, 0, 0, 0, 0] + qname + [0, 1] + [0, 1];
      if ValidLabels(Split(host, Dot)) then RequestRoundTrip(Split(host, Dot)); Ok(message)
      else Ok(message)
  }

  // ---------------------------------------------------------------- header

  /** extract_header: six big-endian words from the first 12 bytes, the flags taken
      apart by shifts and masks; fewer than 12 bytes raise. */
  function ExtractHeader(msg: seq<byte>): (r: Result<Header, PyError>)
    ensures r.Err? <==> |msg| < HeaderSize
    ensures r.Ok? ==> r.value.Valid() && EncodeHeader(r.value) == msg[..HeaderSize]
  {
    if |msg| < HeaderSize then Err(StructError)
    else
      var codes := ReadBE16(msg, 2);
      var h := Header(ReadBE16(msg, 0), UnpackFlags(codes), ReadBE16(msg, 4), ReadBE16(msg, 6), ReadBE16(msg, 8), ReadBE16(msg, 10));
      assert h == DecodeHeader(msg);
      Ok(h)
  }

  /** Every header comes back from its encoding, whatever follows it. */
  lemma HeaderRoundTripPy(h: Header, rest: seq<byte>)
    requires h.Valid()
    ensures ExtractHeader(EncodeHeader(h) + rest) == Ok(h)
  {
    HeaderFirst(h, rest);
  }

  // ---------------------------------------------------------------- question

  /** The variables of extract_question's loop. */
  datatype Scanner = Scanner(labels: seq<seq<byte>>, length: nat, labCounter: nat, lenCounter: nat)

  const Start := Scanner([], 0, 0, 0)

  /** One pass of the loop body on a non-zero byte: a length byte when no label is open,
      otherwise one more character of the open label, which ends when len_counter
      reaches the length. As written len_counter keeps counting across labels; with
      corrected it starts again at 0 for each label. A step adds at most one label and
      moves the label counter on by at most one. */
  function Step(s: Scanner, b: byte, corrected: bool): (r: Scanner)
    ensures |s.labels| <= |r.labels| <= |s.labels| + 1
    ensures s.labCounter <= r.labCounter <= s.labCounter + 1
  {
    if s.length == 0 then s.(length := b)
    else
      var lenCounter := s.lenCounter + 1;
      var labels :=
        if |s.labels| > s.labCounter then s.labels[s.labCounter := s.labels[s.labCounter] + [b]]
        else s.labels + [[b]];
      if lenCounter == s.length then Scanner(labels, 0, s.labCounter + 1, if corrected then 0 else lenCounter)
      else Scanner(labels, s.length, s.labCounter, lenCounter)
  }

  /** The loop run over a sequence of non-zero bytes. */
  function Run(s: Scanner, bs: seq<byte>, corrected: bool): Scanner
    decreases |bs|
  {
    if bs == [] then s else Step(Run(s, bs[..|bs| - 1], corrected), bs[|bs| - 1], corrected)
  }

  datatype Question = Question(name: seq<byte>, qtype: u16, qclass: u16, answerOffset: nat)

  /** What extract_question returns for a message: the labels the loop collects before
      the first zero byte of msg[12:] joined by dots, the two words after that byte,
      and the offset of the answers within msg[12:]; too few bytes after the zero byte
      (or no zero byte) raise. The answers start five bytes after that zero byte,
      inside the message, and QTYPE and QCLASS are the two words just before them. It
      succeeds exactly when msg[12:] holds a zero byte with four more bytes after it. */
  function QuestionOf(msg: seq<byte>, corrected: bool): (r: Result<Question, PyError>)
    ensures r.Ok? <==> |msg| >= HeaderSize && FirstZero(msg[HeaderSize..]) + 5 <= |msg| - HeaderSize
    ensures r.Ok? ==> |msg| >= HeaderSize && 5 <= r.value.answerOffset && HeaderSize + r.value.answerOffset <= |msg|
    ensures r.Ok? ==> msg[HeaderSize + r.value.answerOffset - 5] == 0
                      && 0 !in msg[HeaderSize..HeaderSize + r.value.answerOffset - 5]
    ensures r.Ok? ==> r.value.qtype == ReadBE16(msg, HeaderSize + r.value.answerOffset - 4)
                      && r.value.qclass == ReadBE16(msg, HeaderSize + r.value.answerOffset - 2)
  {
    var buf := if |msg| >= HeaderSize then msg[HeaderSize..] else [];
    var cur := FirstZero(buf);
    if cur + 3 > |buf| || cur + 5 > |buf| then Err(StructError)
    else Ok(Question(Join(Run(Start, buf[..cur], corrected).labels, Dot),
                     ReadBE16(buf, cur + 1), ReadBE16(buf, cur + 3), cur + 5))
  }

  /** extract_question: the while loop over msg[12:], as written when corrected is false. */
  method ExtractQuestion(msg: seq<byte>, corrected: bool) returns (r: Result<Question, PyError>)
    ensures r == QuestionOf(msg, corrected)
  {
    var buf := if |msg| >= HeaderSize then msg[HeaderSize..] else [];
    var labels: seq<seq<byte>> := [];
    var length, cur, labCounter, lenCounter := 0, 0, 0, 0;
    while cur < |buf|
      invariant cur <= |buf| && forall j :: 0 <= j < cur ==> buf[j] != 0
      invariant Scanner(labels, length, labCounter, lenCounter) == Scanned(buf, cur, corrected)
    {
      if buf[cur] == 0 {
        break;
      }
      ScannedNext(buf, cur, corrected);
      labels, length, labCounter, lenCounter := ScanByte(labels, length, labCounter, lenCounter, buf[cur], corrected);
      cur := cur + 1;
    }
    assert cur == FirstZero(buf);
    if cur + 3 > |buf| {
      return Err(StructError);
    }
    var qtype := ReadBE16(buf, cur + 1);
    if cur + 5 > |buf| {
      return Err(StructError);
    }
    var qclass := ReadBE16(buf, cur + 3);
    r := Ok(Question(Join(labels, Dot), qtype, qclass, cur + 5));
  }

  /** The body of the while loop for one non-zero byte: a length byte when no label
      is open, otherwise one more character of the open label. */
  method ScanByte(labels: seq<seq<byte>>, length: nat, labCounter: nat, lenCounter: nat, b: byte, corrected: bool)
    returns (labels': seq<seq<byte>>, length': nat, labCounter': nat, lenCounter': nat)
    ensures Scanner(labels', length', labCounter', lenCounter') == Step(Scanner(labels, length, labCounter, lenCounter), b, corrected)
  {
    labels', length', labCounter', lenCounter' := labels, length, labCounter, lenCounter;
    if length' == 0 {
      length' := b;
    } else {
      lenCounter' := lenCounter' + 1;
      if |labels'| > labCounter' {
        labels' := labels'[labCounter' := labels'[labCounter'] + [b]];
      } else {
        labels' := labels' + [[b]];
      }
      if lenCounter' == length' {
        length' := 0;
        labCounter' := labCounter' + 1;
        if corrected {
          lenCounter' := 0;
        }
      }
    }
  }

  // ---------------------------------------------------------------- scanner lemmas

  /** Running over two pieces is running over the first, then the second. */
  lemma {:induction false} RunAppend(s: Scanner, a: seq<byte>, b: seq<byte>, corrected: bool)
    ensures Run(s, a + b, corrected) == Run(Run(s, a, corrected), b, corrected)
    decreases |b|
  {
    if b == [] {
      assert a + b == a;
    } else {
      assert (a + b)[..|a + b| - 1] == a + b[..|b| - 1];
      RunAppend(s, a, b[..|b| - 1], corrected);
    }
  }

  /** Bytes read into a fresh label that does not end among them: they make up the label. */
  lemma {:induction false} OpenRun(ls: seq<seq<byte>>, n: nat, c: nat, bs: seq<byte>, corrected: bool)
    requires 1 <= |bs| && 1 <= n && (n <= c || c + |bs| < n)
    ensures Run(Scanner(ls, n, |ls|, c), bs, corrected) == Scanner(ls + [bs], n, |ls|, c + |bs|)
    decreases |bs|
  {
    var init := bs[..|bs| - 1];
    if |bs| == 1 {
      assert init == [] && [bs[0]] == bs;
    } else {
      OpenRun(ls, n, c, init, corrected);
      assert init + [bs[|bs| - 1]] == bs;
      assert (ls + [init])[|ls| := bs] == ls + [bs];
    }
  }

  /** Bytes that end a fresh label: the label is complete and the next byte is a length. */
  lemma CloseRun(ls: seq<seq<byte>>, n: nat, c: nat, bs: seq<byte>, corrected: bool)
    requires c < n && |bs| == n - c
    ensures Run(Scanner(ls, n, |ls|, c), bs, corrected) == Scanner(ls + [bs], 0, |ls| + 1, if corrected then 0 else n)
  {
    var init := bs[..|bs| - 1];
    if |bs| == 1 {
      assert init == [] && [bs[0]] == bs;
    } else {
      OpenRun(ls, n, c, init, corrected);
      assert init + [bs[|bs| - 1]] == bs;
      assert (ls + [init])[|ls| := bs] == ls + [bs];
    }
  }

  /** A label read while the length counter is at zero comes out whole. */
  lemma LabelRun(ls: seq<seq<byte>>, l: seq<byte>, corrected: bool)
    requires 1 <= |l| < 0x100
    ensures Run(Scanner(ls, 0, |ls|, 0), [|l| as byte] + l, corrected)
         == Scanner(ls + [l], 0, |ls| + 1, if corrected then 0 else |l|)
  {
    var s := Scanner(ls, 0, |ls|, 0);
    RunAppend(s, [|l| as byte], l, corrected);
    assert [|l| as byte][..0] == [];
    assert Run(s, [|l| as byte], corrected) == Scanner(ls, |l|, |ls|, 0);
    CloseRun(ls, |l|, 0, l, corrected);
  }

  /** With the counter reset, every label comes out whole. */
  lemma {:induction false} CorrectedRun(ls: seq<seq<byte>>, labels: seq<seq<byte>>)
    requires ValidLabels(labels)
    ensures Run(Scanner(ls, 0, |ls|, 0), EncodeLabels(labels), true) == Scanner(ls + labels, 0, |ls| + |labels|, 0)
    decreases labels
  {
    if labels == [] {
      assert ls + labels == ls;
    } else {
      var l := labels[0];
      assert EncodeLabels(labels) == ([|l| as byte] + l) + EncodeLabels(labels[1..]);
      RunAppend(Scanner(ls, 0, |ls|, 0), [|l| as byte] + l, EncodeLabels(labels[1..]), true);
      LabelRun(ls, l, true);
      CorrectedRun(ls + [l], labels[1..]);
      assert ls + [l] + labels[1..] == ls + labels;
    }
  }

  /** The labels before the label counter are never touched again. */
  predicate Tidy(s: Scanner) {
    s.labCounter <= |s.labels| <= s.labCounter + 1
  }

  lemma {:induction false} RunKeepsPrefix(s: Scanner, bs: seq<byte>, corrected: bool)
    requires Tidy(s)
    ensures Tidy(Run(s, bs, corrected)) && Run(s, bs, corrected).labCounter >= s.labCounter
    ensures Run(s, bs, corrected).labels[..s.labCounter] == s.labels[..s.labCounter]
    decreases |bs|
  {
    if bs != [] {
      var t := Run(s, bs[..|bs| - 1], corrected);
      RunKeepsPrefix(s, bs[..|bs| - 1], corrected);
      var b := bs[|bs| - 1];
      if t.length != 0 && |t.labels| > t.labCounter {
        var u := t.labels[t.labCounter := t.labels[t.labCounter] + [b]];
        assert u[..s.labCounter] == t.labels[..s.labCounter];
      } else if t.length != 0 {
        assert (t.labels + [[b]])[..s.labCounter] == t.labels[..s.labCounter];
      }
    }
  }

  /** The message parts up to the answers: extract_question reads the labels the loop
      makes of the encoded name, QTYPE and QCLASS after the terminator, and the answers
      start right after them. */
  lemma QuestionLayout(hdr: seq<byte>, labels: seq<seq<byte>>, rest: seq<byte>, corrected: bool)
    requires |hdr| == HeaderSize && ValidLabels(labels) && NoZeroBytes(labels) && |rest| >= 4
    ensures QuestionOf(hdr + QName(labels) + rest, corrected)
         == Ok(Question(Join(Run(Start, EncodeLabels(labels), corrected).labels, Dot),
                        ReadBE16(rest, 0), ReadBE16(rest, 2), |QName(labels)| + 4))
  {
    var e := EncodeLabels(labels);
    var msg := hdr + QName(labels) + rest;
    var buf := msg[HeaderSize..];
    assert buf == e + [0] + rest;
    EncodedHasNoZero(labels);
    FirstZeroAfter(e, rest);
    assert buf[..|e|] == e;
    WordsAfterZero(e, rest);
  }

  /** The two words after a zero byte are the first two words of what follows it. */
  lemma WordsAfterZero(e: seq<byte>, rest: seq<byte>)
    requires |rest| >= 4
    ensures ReadBE16(e + [0] + rest, |e| + 1) == ReadBE16(rest, 0)
    ensures ReadBE16(e + [0] + rest, |e| + 3) == ReadBE16(rest, 2)
  {
    var buf := e + [0] + rest;
    assert buf[|e| + 1] == rest[0] && buf[|e| + 2] == rest[1];
    assert buf[|e| + 3] == rest[2] && buf[|e| + 4] == rest[3];
  }

  /** Corrected, the decoder inverts the encoder for every well-formed name. */
  lemma CorrectedRoundTrip(hdr: seq<byte>, labels: seq<seq<byte>>, rest: seq<byte>)
    requires |hdr| == HeaderSize && ValidLabels(labels) && NoZeroBytes(labels) && |rest| >= 4
    ensures QuestionOf(hdr + QName(labels) + rest, true)
         == Ok(Question(Join(labels, Dot), ReadBE16(rest, 0), ReadBE16(rest, 2), |QName(labels)| + 4))
  {
    QuestionLayout(hdr, labels, rest, true);
    CorrectedRun([], labels);
    assert [] + labels == labels;
  }

  /** The question of the request for a hostname: QTYPE A and QCLASS IN, the answers
      at strlen(host) + 6, and the hostname itself exactly when the decoder recovers
      it, which with the counter reset it always does. */
  lemma HostRoundTrip(host: seq<byte>, corrected: bool)
    requires HostnameLabels(Split(host, Dot))
    ensures MakeDnsRequestMessage(host).Ok?
    ensures HostQuestionRead(QuestionOf(MakeDnsRequestMessage(host).value, corrected), host, corrected)
  {
    RequestOfHost(host);
    QuestionOfRequest(host, corrected);
  }

  /** The question read back from the request's bytes. */
  lemma QuestionOfRequest(host: seq<byte>, corrected: bool)
    requires HostnameLabels(Split(host, Dot))
    ensures HostQuestionRead(QuestionOf(EncodeHeader(RequestHeader) + QName(Split(host, Dot)) + (BE16(TypeA) + BE16(ClassIn)), corrected),
                             host, corrected)
  {
    TypeClassPrefix();
    QuestionOfHost(EncodeHeader(RequestHeader), host, BE16(TypeA) + BE16(ClassIn), corrected);
  }

  /** The request for a hostname: the request header, the encoded name, QTYPE A and
      QCLASS IN. */
  lemma RequestOfHost(host: seq<byte>)
    requires HostnameLabels(Split(host, Dot))
    ensures MakeDnsRequestMessage(host)
         == Ok(EncodeHeader(RequestHeader) + QName(Split(host, Dot)) + (BE16(TypeA) + BE16(ClassIn)))
  {
    HostnameFits(Split(host, Dot));
    RequestParts(QName(Split(host, Dot)));
  }

  /** Hostname labels are well-formed, so each fits a length byte. */
  lemma HostnameFits(labels: seq<seq<byte>>)
    requires HostnameLabels(labels)
    ensures ValidLabels(labels) && LengthsFit(labels)
  {
  }

  /** The request split after its name. */
  lemma RequestParts(qname: seq<byte>)
    ensures RequestMessage(qname) == EncodeHeader(RequestHeader) + qname + (BE16(TypeA) + BE16(ClassIn))
  {
  }

  lemma TypeClassPrefix()
    ensures (BE16(TypeA) + BE16(ClassIn))[..4] == BE16(TypeA) + BE16(ClassIn)
  {
    var rest := BE16(TypeA) + BE16(ClassIn);
    assert rest[..|rest|] == rest;
  }

  lemma HostnameHasNoZero(labels: seq<seq<byte>>)
    requires HostnameLabels(labels)
    ensures NoZeroBytes(labels)
  {
    forall p | p in labels
      ensures 0 !in p
    {
      var i :| 0 <= i < |labels| && labels[i] == p;
      assert forall j :: 0 <= j < |p| ==> p[j] == labels[i][j];
    }
  }

  /** The encoding of labels reads as dot-joined text exactly when every label is 46
      bytes long, so that its length byte is the character '.'. */
  function DotJoin(labels: seq<seq<byte>>): seq<byte>
  {
    if labels == [] then [] else [Dot] + Join(labels, Dot)
  }

  lemma {:induction false} EncodedAsText(more: seq<seq<byte>>)
    requires ValidLabels(more)
    ensures EncodeLabels(more) == DotJoin(more) <==> forall i :: 0 <= i < |more| ==> |more[i]| == Dot as int
  {
    if more != [] {
      var m0, tail := more[0], more[1..];
      EncodedAsText(tail);
      TextFront(more);
      Cancel([|m0| as byte], m0 + EncodeLabels(tail), m0 + DotJoin(tail));
      Cancel(m0, EncodeLabels(tail), DotJoin(tail));
      if |m0| != Dot as int {
        FirstDiffers(|m0| as byte, Dot, m0 + EncodeLabels(tail), m0 + DotJoin(tail));
      }
      AllDotLength(more);
    }
  }

  /** The encoding and the dotted text of labels, each split after its first label. */
  lemma TextFront(more: seq<seq<byte>>)
    requires ValidLabels(more) && more != []
    ensures EncodeLabels(more) == [|more[0]| as byte] + (more[0] + EncodeLabels(more[1..]))
    ensures DotJoin(more) == [Dot] + (more[0] + DotJoin(more[1..]))
  {
    JoinFront(more, Dot);
  }

  /** Sequences that start with different elements differ. */
  lemma FirstDiffers<T>(x: T, y: T, a: seq<T>, b: seq<T>)
    requires x != y
    ensures [x] + a != [y] + b
  {
    assert ([x] + a)[0] == x;
  }

  /** Every label is 46 long exactly when the first is and every later one is. */
  lemma AllDotLength(more: seq<seq<byte>>)
    requires more != []
    ensures (forall i :: 0 <= i < |more| ==> |more[i]| == Dot as int)
        <==> |more[0]| == Dot as int && forall i :: 0 <= i < |more[1..]| ==> |more[1..][i]| == Dot as int
  {
    if |more[0]| == Dot as int && forall i :: 0 <= i < |more[1..]| ==> |more[1..][i]| == Dot as int {
      forall i | 0 <= i < |more|
        ensures |more[i]| == Dot as int
      {
        if i > 0 {
          assert more[i] == more[1..][i - 1];
        }
      }
    }
  }

  /** As written, a name of hostname labels comes back unchanged exactly when it has one
      label, or its second label is no longer than its first and every later label is
      46 bytes long: the counter never meets the second label's length again, so
      everything after it, length bytes included, is read into the second label. */
  lemma AsWrittenRoundTrip(hdr: seq<byte>, labels: seq<seq<byte>>, rest: seq<byte>)
    requires |hdr| == HeaderSize && HostnameLabels(labels) && |labels| >= 1 && |rest| >= 4
    ensures QuestionOf(hdr + QName(labels) + rest, false).Ok?
    ensures QuestionOf(hdr + QName(labels) + rest, false).value.name == Join(labels, Dot)
        <==> |labels| == 1
             || (|labels[1]| <= |labels[0]| && forall i :: 2 <= i < |labels| ==> |labels[i]| == Dot as int)
  {
    HostnameHasNoZero(labels);
    QuestionLayout(hdr, labels, rest, false);
    FirstLabel(labels);
    if |labels| > 1 {
      SecondLabel(labels, Scanner([labels[0]], 0, 1, |labels[0]|));
    }
  }

  /** As written, the first label comes out whole and leaves the counter at its length;
      a single label is the whole name. */
  lemma FirstLabel(labels: seq<seq<byte>>)
    requires ValidLabels(labels) && |labels| >= 1
    ensures Run(Start, EncodeLabels(labels), false) == Run(Scanner([labels[0]], 0, 1, |labels[0]|), EncodeLabels(labels[1..]), false)
    ensures |labels| == 1 ==> Join(Run(Start, EncodeLabels(labels), false).labels, Dot) == Join(labels, Dot)
  {
    var l0 := labels[0];
    var r0 := EncodeLabels(labels[1..]);
    var len := [|l0| as byte] + l0;
    var s1 := Scanner([l0], 0, 1, |l0|);
    assert EncodeLabels(labels) == len + r0;
    RunAppend(Start, len, r0, false);
    LabelRun([], l0, false);
    assert [] + [l0] == [l0];
    assert Run(Start, len, false) == s1;
    assert Run(Start, EncodeLabels(labels), false) == Run(s1, r0, false);
    if |labels| == 1 {
      assert r0 == [] && labels == [l0];
      assert Run(s1, r0, false) == s1;
    }
  }

  /** The part of AsWrittenRoundTrip after the first label. */
  lemma SecondLabel(labels: seq<seq<byte>>, s1: Scanner)
    requires HostnameLabels(labels) && |labels| >= 2 && s1 == Scanner([labels[0]], 0, 1, |labels[0]|)
    ensures Join(Run(s1, EncodeLabels(labels[1..]), false).labels, Dot) == Join(labels, Dot)
        <==> |labels[1]| <= |labels[0]| && forall i :: 2 <= i < |labels| ==> |labels[i]| == Dot as int
  {
    var l0, l1, more := labels[0], labels[1], labels[2..];
    assert labels[1..][0] == l1 && labels[1..][1..] == more;
    var r1 := l1 + EncodeLabels(more);
    assert EncodeLabels(labels[1..]) == [|l1| as byte] + r1;
    RunAppend(s1, [|l1| as byte], r1, false);
    assert [|l1| as byte][..0] == [];
    var s2 := Scanner([l0], |l1|, 1, |l0|);
    assert Run(s1, [|l1| as byte], false) == s2;
    JoinFront(labels, Dot);
    JoinFront(labels[1..], Dot);
    assert Join(labels, Dot) == l0 + [Dot] + (l1 + DotJoin(more));
    if |l1| <= |l0| {
      OpenRun([l0], |l1|, |l0|, r1, false);
      var names := [l0] + [r1];
      JoinFront(names, Dot);
      assert names[1..] == [r1];
      assert Join(names, Dot) == l0 + [Dot] + r1;
      EncodedAsText(more);
      Cancel(l0 + [Dot], r1, l1 + DotJoin(more));
      Cancel(l1, EncodeLabels(more), DotJoin(more));
      assert (forall i :: 0 <= i < |more| ==> |more[i]| == Dot as int)
         <==> forall i :: 2 <= i < |labels| ==> |labels[i]| == Dot as int;
    } else {
      LongSecondLabel(labels, s2);
    }
  }

  /** a + x == a + y exactly when x == y. */
  lemma Cancel<T>(a: seq<T>, x: seq<T>, y: seq<T>)
    ensures a + x == a + y <==> x == y
  {
    if a + x == a + y {
      assert x == (a + x)[|a|..] && y == (a + y)[|a|..];
    }
  }

  /** A second label longer than the first ends too early: the name read back has a dot,
      or ends, where the second label still has a character. */
  lemma LongSecondLabel(labels: seq<seq<byte>>, s2: Scanner)
    requires HostnameLabels(labels) && |labels| >= 2 && |labels[1]| > |labels[0]|
    requires s2 == Scanner([labels[0]], |labels[1]|, 1, |labels[0]|)
    ensures Join(Run(s2, labels[1] + EncodeLabels(labels[2..]), false).labels, Dot) != Join(labels, Dot)
  {
    var k := |labels[1]| - |labels[0]|;
    LongSecondScan(labels[0], labels[1], EncodeLabels(labels[2..]));
    assert labels[1][k] != Dot;
    CutSecondPiece(Run(s2, labels[1] + EncodeLabels(labels[2..]), false).labels, labels, k, Dot);
  }

  /** As written, the counter stops the second label after as many bytes as the second
      length exceeds the first. */
  lemma LongSecondScan(l0: seq<byte>, l1: seq<byte>, tail: seq<byte>)
    requires 1 <= |l0| < |l1|
    ensures var names := Run(Scanner([l0], |l1|, 1, |l0|), l1 + tail, false).labels;
            |names| >= 2 && names[0] == l0 && names[1] == l1[..|l1| - |l0|]
  {
    var k := |l1| - |l0|;
    var s2 := Scanner([l0], |l1|, 1, |l0|);
    var r2 := l1[k..] + tail;
    assert l1 + tail == l1[..k] + r2;
    RunAppend(s2, l1[..k], r2, false);
    CloseRun([l0], |l1|, |l0|, l1[..k], false);
    var s3 := Scanner([l0, l1[..k]], 0, 2, |l1|);
    assert [l0] + [l1[..k]] == [l0, l1[..k]];
    assert Run(s2, l1[..k], false) == s3;
    assert Run(s2, l1 + tail, false) == Run(s3, r2, false);
    RunKeepsPrefix(s3, r2, false);
    var names := Run(s3, r2, false).labels;
    assert names[..2] == [l0, l1[..k]];
    assert names[0] == names[..2][0] && names[1] == names[..2][1];
  }

  /** Pieces that agree on the first and cut the second short before a non-separator
      join to something else. */
  lemma CutSecondPiece<T>(names: seq<seq<T>>, parts: seq<seq<T>>, k: nat, sep: T)
    requires |names| >= 2 && |parts| >= 2 && names[0] == parts[0]
    requires k < |parts[1]| && names[1] == parts[1][..k] && parts[1][k] != sep
    ensures Join(names, sep) != Join(parts, sep)
  {
    var at := |parts[0]| + 1 + k;
    JoinTwoFront(parts, sep);
    JoinTwoFront(names, sep);
    assert Join(parts, sep)[at] == parts[1][k];
    if |names| > 2 {
      assert Join(names, sep)[at] == sep;
    } else {
      assert |Join(names, sep)| == at;
    }
  }

  /** The as-written scan of the encoded "a.bc": the counter reaches 2 on 'b', so 'c'
      is left as the length of a third label. */
  lemma MisSplitRun()
    ensures Run(Start, EncodeLabels([[97], [98, 99]]), false) == Scanner([[97], [98]], 99, 2, 2)
  {
    var head: seq<byte> := [1, 97];
    var tail: seq<byte> := [2, 98, 99];
    assert EncodeLabels([[97], [98, 99]]) == head + tail;
    RunAppend(Start, head, tail, false);
    MisSplitHead();
    MisSplitTail();
  }

  /** The scan of "\x01a" closes the label "a" with the counter at 1. */
  lemma MisSplitHead()
    ensures Run(Start, [1, 97], false) == Scanner([[97]], 0, 1, 1)
  {
    LabelRun([], [97], false);
    assert [1 as byte] + [97] == [1, 97];
    assert [] + [[97 as byte]] == [[97]];
  }

  /** Then "\x02bc": 'b' brings the counter to 2, the second length, and 'c' opens a label. */
  lemma MisSplitTail()
    ensures Run(Scanner([[97]], 0, 1, 1), [2, 98, 99], false) == Scanner([[97], [98]], 99, 2, 2)
  {
    var s1 := Scanner([[97]], 0, 1, 1);
    var s2 := Scanner([[97]], 2, 1, 1);
    var s3 := Scanner([[97], [98]], 0, 2, 2);
    RunOne(s1, 2, false);
    RunOne(s2, 98, false);
    RunOne(s3, 99, false);
    RunAppend(s1, [2], [98], false);
    assert Run(s1, [2, 98], false) == s3;
    RunAppend(s1, [2, 98], [99], false);
  }

  /** The scanner state after the first n bytes of buf. */
  ghost function Scanned(buf: seq<byte>, n: nat, corrected: bool): Scanner
    requires n <= |buf|
  {
    Run(Start, buf[..n], corrected)
  }

  /** One more byte of the prefix: one more step of the loop. */
  lemma ScannedNext(buf: seq<byte>, n: nat, corrected: bool)
    requires n < |buf|
    ensures Scanned(buf, n + 1, corrected) == Step(Scanned(buf, n, corrected), buf[n], corrected)
  {
    RunPrefix(Start, buf, n, corrected);
  }

  /** Running over one more byte is one more step. */
  lemma RunPrefix(s: Scanner, bs: seq<byte>, i: nat, corrected: bool)
    requires i < |bs|
    ensures Run(s, bs[..i + 1], corrected) == Step(Run(s, bs[..i], corrected), bs[i], corrected)
  {
    assert bs[..i + 1][..i] == bs[..i];
  }

  /** Running over one byte is one step. */
  lemma RunOne(s: Scanner, b: byte, corrected: bool)
    ensures Run(s, [b], corrected) == Step(s, b, corrected)
  {
    assert [b][..0] == [];
  }

  /** The texts of "a.b" and "a.bc". */
  lemma MisSplitNames()
    ensures Join([[97], [98]], Dot) == [97, Dot, 98]
    ensures Join([[97], [98, 99]], Dot) == [97, Dot, 98, 99]
  {
    JoinPair([97], [98], Dot);
    JoinPair([97], [98, 99], Dot);
  }

  /** The smallest case the finding turns on: "a.bc" is read back as "a.b" followed by
      nothing, because the byte 'c' is taken for a length. */
  lemma MisSplitExample()
    ensures QuestionOf([0, 0, 0, 0, 0, 0, 0, 0, 0, 0, 0, 0] + QName([[97], [98, 99]]) + [0, 1, 0, 1], false).Ok?
    ensures QuestionOf([0, 0, 0, 0, 0, 0, 0, 0, 0, 0, 0, 0] + QName([[97], [98, 99]]) + [0, 1, 0, 1], false).value.name
         == [97, Dot, 98]
    ensures QuestionOf([0, 0, 0, 0, 0, 0, 0, 0, 0, 0, 0, 0] + QName([[97], [98, 99]]) + [0, 1, 0, 1], true).value.name
         == [97, Dot, 98, 99]
  {
    var labels: seq<seq<byte>> := [[97], [98, 99]];
    var hdr: seq<byte> := [0, 0, 0, 0, 0, 0, 0, 0, 0, 0, 0, 0];
    var rest: seq<byte> := [0, 1, 0, 1];
    var msg := hdr + QName(labels) + rest;
    assert HostnameLabels(labels);
    HostnameHasNoZero(labels);
    QuestionLayout(hdr, labels, rest, false);
    MisSplitRun();
    var read: seq<seq<byte>> := [[97], [98]];
    assert Run(Start, EncodeLabels(labels), false).labels == read;
    MisSplitNames();
    assert QuestionOf(msg, false).value.name == Join(read, Dot);
    CorrectedRoundTrip(hdr, labels, rest);
    assert QuestionOf(msg, true).value.name == Join(labels, Dot);
  }

  // ---------------------------------------------------------------- answers

  /** The record extract_resource_record returns. */
  datatype PyRecord = PyRecord(offset: u16, rtype: u16, rclass: u16, ttl: u32, rdLength: u16, ip: seq<char>)

  /** ".".join(str(b) for b in bs) */
  function DottedDecimal(bs: seq<byte>): seq<char>
  {
    Join(seq(|bs|, i requires 0 <= i < |bs| => Decimal(bs[i])), '.')
  }

  /** Four address bytes print as the dotted quad. */
  lemma DottedQuad(bs: seq<byte>)
    requires |bs| == 4
    ensures DottedDecimal(bs) == IpText(bs)
  {
    var fields := seq(|bs|, i requires 0 <= i < |bs| => Decimal(bs[i]));
    JoinFront(fields, '.');
    JoinFront(fields[1..], '.');
    JoinFront(fields[2..], '.');
    JoinFront(fields[3..], '.');
    assert fields[1..][1..] == fields[2..] && fields[2..][1..] == fields[3..];
  }

  /** extract_resource_record: the 12 fixed bytes at offset (fewer raise), the name word
      masked to its low 14 bits, and as ip the next rd_length bytes, as many as the
      message still has, in dotted decimal. For a complete A answer it agrees with the
      shared record decoder, the address printed as the dotted quad. */
  function ExtractResourceRecord(msg: seq<byte>, offset: nat): (r: Result<PyRecord, PyError>)
    ensures r.Err? <==> |msg| < offset + 12
    ensures r.Ok? ==> var n := ReadBE16(msg, offset + 10);
              && r.value.rdLength == n
              && r.value.ip == DottedDecimal(msg[offset + 12..if offset + 12 + n <= |msg| then offset + 12 + n else |msg|])
    ensures r.Ok? && offset + RecordSize <= |msg| && r.value.rdLength == 4 ==>
              var a := DecodeARecord(msg, offset);
              r.value == PyRecord(a.offset, a.rtype, a.rclass, a.ttl, a.rdLength, IpText(a.rdata))
  {
    if |msg| < offset + 12 then Err(StructError)
    else
      var rdLength := ReadBE16(msg, offset + 10);
      var end := if offset + 12 + rdLength <= |msg| then offset + 12 + rdLength else |msg|;
      var record := PyRecord(ReadBE16(msg, offset) % 0x4000, ReadBE16(msg, offset + 2), ReadBE16(msg, offset + 4),
                             ReadBE32(msg, offset + 6), rdLength, DottedDecimal(msg[offset + 12..end]));
      if offset + RecordSize <= |msg| && rdLength == 4 then DottedQuad(msg[offset + 12..offset + 16]); Ok(record)
      else Ok(record)
  }

  /** Every answer's 12 fixed bytes are inside the message. */
  predicate AnswersFit(msg: seq<byte>, answerOffset: nat, anCount: nat) {
    anCount == 0 || HeaderSize + answerOffset + RecordSize * (anCount - 1) + 12 <= |msg|
  }

  /** lookup after the reply is in: the header, the question, and an_count answers at
      12 + answer_offset + 16 i. It fails exactly when one of those reads runs out of
      bytes. The program is Lookup(msg, false); Lookup(msg, true) resets the label
      counter. */
  method Lookup(msg: seq<byte>, corrected: bool) returns (r: Result<(Header, Question, seq<PyRecord>), PyError>)
    ensures r.Ok? <==> |msg| >= HeaderSize && QuestionOf(msg, corrected).Ok?
                       && AnswersFit(msg, QuestionOf(msg, corrected).value.answerOffset, DecodeHeader(msg).anCount)
    ensures r.Ok? ==> r.value.0 == DecodeHeader(msg) && r.value.1 == QuestionOf(msg, corrected).value
    ensures r.Ok? ==> |r.value.2| == r.value.0.anCount && RecordsAt(msg, r.value.1.answerOffset, r.value.2)
  {
    var header := ExtractHeader(msg);
    if header.Err? {
      return Err(header.error);
    }
    HeaderIsDecoded(msg);
    var question := ExtractQuestion(msg, corrected);
    if question.Err? {
      return Err(question.error);
    }
    var records := ExtractAnswers(msg, question.value.answerOffset, header.value.anCount);
    if records.Err? {
      return Err(records.error);
    }
    r := Ok((header.value, question.value, records.value));
  }

  /** What extract_header returns is the decoded header. */
  lemma HeaderIsDecoded(msg: seq<byte>)
    requires |msg| >= HeaderSize
    ensures ExtractHeader(msg) == Ok(DecodeHeader(msg))
  {
    HeaderRoundTrip(DecodeHeader(msg));
  }

  /** The loop over an_count answers, the i-th at 12 + answer_offset + 16 i; the first
      record that runs out of bytes raises. */
  method ExtractAnswers(msg: seq<byte>, answerOffset: nat, anCount: nat) returns (r: Result<seq<PyRecord>, PyError>)
    ensures r.Ok? <==> AnswersFit(msg, answerOffset, anCount)
    ensures r.Ok? ==> |r.value| == anCount && RecordsAt(msg, answerOffset, r.value)
  {
    var offsetBase := HeaderSize + answerOffset;
    var records: seq<PyRecord> := [];
    var i := 0;
    while i < anCount
      invariant 0 <= i <= anCount && |records| == i
      invariant RecordsAt(msg, answerOffset, records)
      invariant i > 0 ==> offsetBase + RecordSize * (i - 1) + 12 <= |msg|
    {
      var record := ExtractResourceRecord(msg, offsetBase + RecordSize * i);
      if record.Err? {
        ShortAnswer(msg, answerOffset, anCount, i);
        return Err(record.error);
      }
      RecordsAtSnoc(msg, answerOffset, records, record.value);
      records := records + [record.value];
      i := i + 1;
    }
    r := Ok(records);
  }

  /** Record i of records is what extract_resource_record returns at 12 + answer_offset + 16 i. */
  predicate RecordsAt(msg: seq<byte>, answerOffset: nat, records: seq<PyRecord>) {
    forall i :: 0 <= i < |records| ==>
      ExtractResourceRecord(msg, HeaderSize + answerOffset + RecordSize * i) == Ok(records[i])
  }

  /** One more record read at the next place. */
  lemma RecordsAtSnoc(msg: seq<byte>, answerOffset: nat, records: seq<PyRecord>, next: PyRecord)
    requires RecordsAt(msg, answerOffset, records)
    requires ExtractResourceRecord(msg, HeaderSize + answerOffset + RecordSize * |records|) == Ok(next)
    ensures RecordsAt(msg, answerOffset, records + [next])
  {
    forall i | 0 <= i < |records| + 1
      ensures ExtractResourceRecord(msg, HeaderSize + answerOffset + RecordSize * i) == Ok((records + [next])[i])
    {
      RecordAfterSnoc(msg, answerOffset, records, next, i);
    }
  }

  /** Record i of records + [next], one index at a time. */
  lemma RecordAfterSnoc(msg: seq<byte>, answerOffset: nat, records: seq<PyRecord>, next: PyRecord, i: nat)
    requires RecordsAt(msg, answerOffset, records)
    requires ExtractResourceRecord(msg, HeaderSize + answerOffset + RecordSize * |records|) == Ok(next)
    requires i < |records| + 1
    ensures ExtractResourceRecord(msg, HeaderSize + answerOffset + RecordSize * i) == Ok((records + [next])[i])
  {
    if i < |records| {
      assert (records + [next])[i] == records[i];
    } else {
      assert (records + [next])[i] == next;
    }
  }

  /** An answer before the last that runs out of bytes means the answers do not fit. */
  lemma ShortAnswer(msg: seq<byte>, answerOffset: nat, anCount: nat, i: nat)
    requires i < anCount && |msg| < HeaderSize + answerOffset + RecordSize * i + 12
    ensures !AnswersFit(msg, answerOffset, anCount)
  {
    assert RecordSize * i <= RecordSize * (anCount - 1);
  }



  /** Names the question decoder gives back unchanged: every one with the counter
      reset; as written, a single label, or a second label no longer than the first
      followed only by labels of 46 bytes. */
  predicate Recovered(labels: seq<seq<byte>>, corrected: bool) {
    corrected || |labels| <= 1
    || (|labels[1]| <= |labels[0]| && forall i :: 2 <= i < |labels| ==> |labels[i]| == Dot as int)
  }

  /** The question read from a reply to host: QTYPE A, QCLASS IN, the answers at
      strlen(host) + 6, and as name the hostname itself exactly when it is recovered. */
  predicate HostQuestionRead(q: Result<Question, PyError>, host: seq<byte>, corrected: bool) {
    && q.Ok? && q.value.qtype == TypeA && q.value.qclass == ClassIn && q.value.answerOffset == |host| + 6
    && (q.value.name == host <==> Recovered(Split(host, Dot), corrected))
  }

  /** A reply of the request's header fields, its question and a run of A answers:
      lookup reads back the header and every answer, each address printed as a dotted
      quad, and the question's type, class and answer offset; the host name comes back
      exactly when the decoder recovers it. */
  lemma ReplyRoundTrip(h: Header, host: seq<byte>, words: seq<u16>, records: seq<ResourceRecord>, after: seq<byte>,
                       i: nat, corrected: bool)
    requires h.Valid() && HostnameLabels(Split(host, Dot))
    requires |words| == |records| && forall j :: 0 <= j < |records| ==> |records[j].rdata| == 4 && records[j].rdLength == 4
    requires i < |records|
    ensures var msg := EncodeHeader(h) + QName(Split(host, Dot)) + BE16(TypeA) + BE16(ClassIn) + EncodeAnswers(words, records) + after;
            && ExtractHeader(msg) == Ok(h)
            && HostQuestionRead(QuestionOf(msg, corrected), host, corrected)
            && ExtractResourceRecord(msg, HeaderSize + |host| + 6 + RecordSize * i)
               == Ok(PyRecord(words[i] % 0x4000, records[i].rtype, records[i].rclass, records[i].ttl, 4, IpText(records[i].rdata)))
  {
    var labels := Split(host, Dot);
    var msg := EncodeHeader(h) + QName(Split(host, Dot)) + BE16(TypeA) + BE16(ClassIn) + EncodeAnswers(words, records) + after;
    ReplyQuestion(h, host, BE16(TypeA) + BE16(ClassIn) + EncodeAnswers(words, records) + after, corrected);
    Regroup(EncodeHeader(h), QName(labels), BE16(TypeA), BE16(ClassIn), EncodeAnswers(words, records), after);
    ReplyAnswer(h, host, words, records, after, i);
  }

  /** The header and the question of a reply, whatever follows the name. */
  lemma ReplyQuestion(h: Header, host: seq<byte>, rest: seq<byte>, corrected: bool)
    requires h.Valid() && HostnameLabels(Split(host, Dot))
    requires |rest| >= 4 && rest[..4] == BE16(TypeA) + BE16(ClassIn)
    ensures var msg := EncodeHeader(h) + QName(Split(host, Dot)) + rest;
            && ExtractHeader(msg) == Ok(h)
            && HostQuestionRead(QuestionOf(msg, corrected), host, corrected)
  {
    HeaderOfReply(h, QName(Split(host, Dot)), rest);
    QuestionOfHost(EncodeHeader(h), host, rest, corrected);
  }

  /** The question after any 12 header bytes, for a hostname followed by type A and
      class IN. */
  lemma QuestionOfHost(hdr: seq<byte>, host: seq<byte>, rest: seq<byte>, corrected: bool)
    requires |hdr| == HeaderSize && HostnameLabels(Split(host, Dot))
    requires |rest| >= 4 && rest[..4] == BE16(TypeA) + BE16(ClassIn)
    ensures HostQuestionRead(QuestionOf(hdr + QName(Split(host, Dot)) + rest, corrected), host, corrected)
  {
    HostQuestion(hdr, host, rest, corrected);
    HostName(hdr, host, rest, corrected);
    TypeAndClass(rest);
  }

  /** The question of a hostname's name: the two words after it and the answers at
      strlen(host) + 6. */
  lemma HostQuestion(hdr: seq<byte>, host: seq<byte>, rest: seq<byte>, corrected: bool)
    requires |hdr| == HeaderSize && HostnameLabels(Split(host, Dot)) && |rest| >= 4
    ensures var q := QuestionOf(hdr + QName(Split(host, Dot)) + rest, corrected);
            && q.Ok? && q.value.qtype == ReadBE16(rest, 0) && q.value.qclass == ReadBE16(rest, 2)
            && q.value.answerOffset == |host| + 6
  {
    HostText(host);
    NameRecovered(hdr, Split(host, Dot), rest, corrected);
  }

  /** The name read back is the hostname exactly when the decoder recovers it. */
  lemma HostName(hdr: seq<byte>, host: seq<byte>, rest: seq<byte>, corrected: bool)
    requires |hdr| == HeaderSize && HostnameLabels(Split(host, Dot)) && |rest| >= 4
    ensures var q := QuestionOf(hdr + QName(Split(host, Dot)) + rest, corrected);
            q.Ok? && (q.value.name == host <==> Recovered(Split(host, Dot), corrected))
  {
    HostText(host);
    NameRecovered(hdr, Split(host, Dot), rest, corrected);
  }

  /** The question of any name of hostname labels, and which names come back. */
  lemma NameRecovered(hdr: seq<byte>, labels: seq<seq<byte>>, rest: seq<byte>, corrected: bool)
    requires |hdr| == HeaderSize && HostnameLabels(labels) && |labels| >= 1 && |rest| >= 4
    ensures var q := QuestionOf(hdr + QName(labels) + rest, corrected);
            && q.Ok? && q.value.qtype == ReadBE16(rest, 0) && q.value.qclass == ReadBE16(rest, 2)
            && q.value.answerOffset == |QName(labels)| + 4
            && (q.value.name == Join(labels, Dot) <==> Recovered(labels, corrected))
  {
    HostnameHasNoZero(labels);
    QuestionLayout(hdr, labels, rest, corrected);
    if corrected {
      CorrectedRoundTrip(hdr, labels, rest);
    } else {
      AsWrittenRoundTrip(hdr, labels, rest);
    }
  }

  /** A hostname's labels join back to it, and its name is two bytes longer. */
  lemma HostText(host: seq<byte>)
    requires HostnameLabels(Split(host, Dot))
    ensures Join(Split(host, Dot), Dot) == host && |QName(Split(host, Dot))| == |host| + 2
  {
    JoinSplit(host, Dot);
    QNameOfHostLength(host);
  }

  lemma TypeAndClass(rest: seq<byte>)
    requires |rest| >= 4 && rest[..4] == BE16(TypeA) + BE16(ClassIn)
    ensures ReadBE16(rest, 0) == TypeA && ReadBE16(rest, 2) == ClassIn
  {
    assert rest[0..2] == BE16(TypeA) && rest[2..4] == BE16(ClassIn);
  }

  lemma HeaderOfReply(h: Header, qname: seq<byte>, rest: seq<byte>)
    requires h.Valid()
    ensures ExtractHeader(EncodeHeader(h) + qname + rest) == Ok(h)
  {
    HeaderRoundTripPy(h, qname + rest);
    assert EncodeHeader(h) + qname + rest == EncodeHeader(h) + (qname + rest);
  }

  /** Answer i of a reply reads back as that record, its address as a dotted quad. */
  lemma ReplyAnswer(h: Header, host: seq<byte>, words: seq<u16>, records: seq<ResourceRecord>, after: seq<byte>, i: nat)
    requires h.Valid() && HostnameLabels(Split(host, Dot))
    requires |words| == |records| && forall j :: 0 <= j < |records| ==> |records[j].rdata| == 4 && records[j].rdLength == 4
    requires i < |records|
    ensures var msg := EncodeHeader(h) + QName(Split(host, Dot)) + BE16(TypeA) + BE16(ClassIn) + EncodeAnswers(words, records) + after;
            ExtractResourceRecord(msg, HeaderSize + |host| + 6 + RecordSize * i)
            == Ok(PyRecord(words[i] % 0x4000, records[i].rtype, records[i].rclass, records[i].ttl, 4, IpText(records[i].rdata)))
  {
    var labels := Split(host, Dot);
    var msg := EncodeHeader(h) + QName(Split(host, Dot)) + BE16(TypeA) + BE16(ClassIn) + EncodeAnswers(words, records) + after;
    var before := EncodeHeader(h) + QName(labels) + BE16(TypeA) + BE16(ClassIn);
    QNameOfHostLength(host);
    assert |before| == HeaderSize + |host| + 6;
    AnswersRoundTrip(before, words, records, after, i);
    var at := HeaderSize + |host| + 6 + RecordSize * i;
    RecordRead(msg, at, records[i], words[i]);
  }

  /** A record that decodes in full reads back as the Python tuple. */
  lemma RecordRead(msg: seq<byte>, at: nat, rec: ResourceRecord, word: u16)
    requires at + RecordSize <= |msg| && rec.rdLength == 4
    requires DecodeARecord(msg, at) == rec.(offset := word % 0x4000)
    ensures ExtractResourceRecord(msg, at) == Ok(PyRecord(word % 0x4000, rec.rtype, rec.rclass, rec.ttl, 4, IpText(rec.rdata)))
  {
    var a := DecodeARecord(msg, at);
    var r := ExtractResourceRecord(msg, at);
    assert r.value == PyRecord(a.offset, a.rtype, a.rclass, a.ttl, a.rdLength, IpText(a.rdata));
  }

}
