/** The C stub resolver (dns_client.c) on a little-endian host: it turns a dotted
    hostname into a QNAME with strtok, overlays a struct on the message buffer to
    write the header, byte-swaps with htons/ntohs, and reads the reply's question and
    fixed-size A answers back out of a 2048-byte buffer. */
module DnsC {
  import opened Common
  import opened Wire
  import opened DnsFormat

  /** Size of the buffer the reply is received into. */
  const BufferSize := 2048

  /** Size of the text buffer inet_ntoa needs for a dotted quad: fifteen characters
      and the terminator (INET_ADDRSTRLEN). */
  const IpTextSize := 16

  // ---------------------------------------------------------------- C strings

  /** A C short holding the low 16 bits of x, read as two's complement. */
  function ToShort(x: int): (r: int)
    ensures -0x8000 <= r < 0x8000 && (r - x) % 0x1_0000 == 0
    ensures -0x8000 <= x < 0x8000 ==> r == x
  {
    (x + 0x8000) % 0x1_0000 - 0x8000
  }

  /** strlen: count the bytes before the terminator. */
  method StrLen(a: array<byte>, at: nat) returns (n: nat)
    requires at <= a.Length && 0 in a[at..]
    ensures at + n < a.Length && n == FirstZero(a[at..])
  {
    n := 0;
    while a[at + n] != 0
      invariant at + n < a.Length && 0 in a[at + n..]
      invariant forall j :: at <= j < at + n ==> a[j] != 0
      decreases a.Length - at - n
    {
      assert a[at + n..][0] != 0;
      assert 0 in a[at + n + 1..] by {
        var z :| z in a[at + n..] && z == 0;
        assert a[at + n..] == [a[at + n]] + a[at + n + 1..];
      }
      n := n + 1;
    }
    ghost var s := a[at..];
    assert s[n] == 0 && forall j :: 0 <= j < n ==> s[j] != 0;
  }

  /** strcpy/memcpy: the bytes of src are written into dst from offset at; the rest
      of dst keeps its contents. */
  method CopyInto(dst: array<byte>, at: nat, src: seq<byte>)
    requires at + |src| <= dst.Length
    modifies dst
    ensures dst[..at] == old(dst[..at]) && dst[at..at + |src|] == src
    ensures dst[at + |src|..] == old(dst[at + |src|..])
  {
    var i := 0;
    while i < |src|
      invariant 0 <= i <= |src|
      invariant forall j :: 0 <= j < dst.Length ==> dst[j] == (if at <= j < at + i then src[j - at] else old(dst[j]))
    {
      dst[at + i] := src[i];
      i := i + 1;
    }
    assert dst[at..at + |src|] == src;
  }

  // ---------------------------------------------------------------- hostname to QNAME

  /** get_qname_len: strlen(host) + 2 cast to a short. For a hostname whose labels
      are all non-empty and fit a length byte that is the size of its QNAME. */
  function GetQnameLen(host: seq<byte>): (n: int)
    ensures -0x8000 <= n < 0x8000
  {
    ToShort(|host| + 2)
  }

  /** The length get_qname_len reports is the encoded name's length, for hostnames
      whose labels fit a length byte. */
  lemma QnameLenOfHost(host: seq<byte>)
    requires |host| + 2 < 0x8000 && LengthsFit(Split(host, Dot))
    ensures GetQnameLen(host) == |QName(Split(host, Dot))|
  {
    QNameOfHostLength(host);
  }

  /** The pieces that are not empty, in order. */
  function NonEmpty(parts: seq<seq<byte>>): (r: seq<seq<byte>>)
    ensures forall p :: p in r ==> p in parts && p != []
    ensures forall p :: p in parts && p != [] ==> p in r
  {
    if parts == [] then []
    else if parts[0] == [] then NonEmpty(parts[1..])
    else [parts[0]] + NonEmpty(parts[1..])
  }

  /** The successive tokens strtok(host, ".") returns: the non-empty runs of bytes
      between dots. Every token is non-empty and holds no dot, and every non-empty
      piece between dots is a token. */
  function Tokens(host: seq<byte>): (r: seq<seq<byte>>)
    ensures forall i :: 0 <= i < |r| ==> r[i] != [] && Dot !in r[i]
    ensures forall p :: p in Split(host, Dot) && p != [] ==> p in r
  {
    var parts := Split(host, Dot);
    var r := NonEmpty(parts);
    assert forall i :: 0 <= i < |r| ==> r[i] in parts && Dot !in r[i] by {
      forall i | 0 <= i < |r|
        ensures r[i] in parts && Dot !in r[i]
      {
        assert r[i] in r;
        var j :| 0 <= j < |parts| && parts[j] == r[i];
      }
    }
    r
  }

  /** Dropping the empty pieces keeps every byte; it keeps every piece exactly when
      none is empty. */
  lemma {:induction false} NonEmptyLength(parts: seq<seq<byte>>)
    ensures TotalLength(NonEmpty(parts)) == TotalLength(parts)
    ensures |NonEmpty(parts)| <= |parts|
    ensures |NonEmpty(parts)| == |parts| <==> forall i :: 0 <= i < |parts| ==> parts[i] != []
    ensures (forall i :: 0 <= i < |parts| ==> parts[i] != []) ==> NonEmpty(parts) == parts
  {
    if parts != [] {
      NonEmptyLength(parts[1..]);
      assert [parts[0]] + parts[1..] == parts;
      if parts[0] != [] {
        assert (forall i :: 0 <= i < |parts| ==> parts[i] != [])
           <==> (forall i :: 0 <= i < |parts[1..]| ==> parts[1..][i] != []);
      }
    }
  }

  /** The labels as hostname_to_qname writes them: each as a byte holding its length
      truncated to a char, then its bytes. */
  function Wrapped(labels: seq<seq<byte>>): seq<byte>
  {
    if labels == [] then [] else [|labels[0]| % 0x100] + labels[0] + Wrapped(labels[1..])
  }

  /** Each label takes its bytes and one length byte. */
  lemma {:induction false} WrappedLength(labels: seq<seq<byte>>)
    ensures |Wrapped(labels)| == TotalLength(labels) + |labels|
  {
    if labels != [] {
      WrappedLength(labels[1..]);
    }
  }

  /** When every length fits its byte, the written labels are the RFC 1035 encoding. */
  lemma {:induction false} WrappedIsEncoded(labels: seq<seq<byte>>)
    requires LengthsFit(labels)
    ensures Wrapped(labels) == EncodeLabels(labels)
  {
    if labels != [] {
      WrappedIsEncoded(labels[1..]);
    }
  }

  /** Labels without zero bytes are written without a zero byte exactly when no label
      length is a multiple of 256. */
  lemma {:induction false} ZeroInWrapped(labels: seq<seq<byte>>)
    requires forall p :: p in labels ==> 0 !in p
    ensures 0 in Wrapped(labels) <==> exists i :: 0 <= i < |labels| && |labels[i]| % 0x100 == 0
  {
    if labels != [] {
      ZeroInWrapped(labels[1..]);
      var w := Wrapped(labels);
      assert w == [|labels[0]| % 0x100] + (labels[0] + Wrapped(labels[1..]));
      if exists i :: 0 <= i < |labels[1..]| && |labels[1..][i]| % 0x100 == 0 {
        var i :| 0 <= i < |labels[1..]| && |labels[1..][i]| % 0x100 == 0;
        assert |labels[i + 1]| % 0x100 == 0;
      }
      if exists i :: 0 <= i < |labels| && |labels[i]| % 0x100 == 0 {
        var i :| 0 <= i < |labels| && |labels[i]| % 0x100 == 0;
        if i > 0 {
          assert |labels[1..][i - 1]| % 0x100 == 0;
        }
      }
    }
  }

  /** A piece of a split holds only bytes of the split sequence. */
  lemma {:induction false} SplitKeepsOut(s: seq<byte>, x: byte)
    requires x !in s
    ensures forall p :: p in Split(s, Dot) ==> x !in p
  {
    if s != [] {
      SplitKeepsOut(s[1..], x);
      var rest := Split(s[1..], Dot);
      if s[0] != Dot {
        assert rest[0] in rest;
        forall p | p in Split(s, Dot)
          ensures x !in p
        {
          if p != [s[0]] + rest[0] {
            assert p in rest[1..];
          }
        }
      }
    }
  }

  /** What strtok leaves to write: at most strlen(host) + 1 bytes before the
      terminator, exactly that many when no piece between dots is empty, and then the
      tokens are all the pieces. */
  lemma TokensLayout(host: seq<byte>)
    ensures |Wrapped(Tokens(host))| <= |host| + 1
    ensures |Wrapped(Tokens(host))| == |host| + 1 <==> forall i :: 0 <= i < |Split(host, Dot)| ==> Split(host, Dot)[i] != []
    ensures (forall i :: 0 <= i < |Split(host, Dot)| ==> Split(host, Dot)[i] != []) ==> Tokens(host) == Split(host, Dot)
  {
    NonEmptyLength(Split(host, Dot));
    WrappedLength(Tokens(host));
    JoinSplit(host, Dot);
    JoinLength(Split(host, Dot), Dot);
  }

  /** A hostname is refused exactly when one of its dot-separated pieces has a length
      that is a multiple of 256: an empty piece (a leading, trailing or doubled dot,
      or the empty hostname) or a label whose truncated length byte is zero. */
  predicate Refused(host: seq<byte>) {
    exists i :: 0 <= i < |Split(host, Dot)| && |Split(host, Dot)[i]| % 0x100 == 0
  }

  /** A token of the hostname whose length is a multiple of 256 is one of its pieces. */
  lemma RefusedByToken(host: seq<byte>)
    ensures (exists i :: 0 <= i < |Tokens(host)| && |Tokens(host)[i]| % 0x100 == 0) ==> Refused(host)
    ensures (forall i :: 0 <= i < |Split(host, Dot)| ==> Split(host, Dot)[i] != []) && Refused(host)
            ==> exists i :: 0 <= i < |Tokens(host)| && |Tokens(host)[i]| % 0x100 == 0
  {
    var ps := Split(host, Dot);
    var ts := Tokens(host);
    if exists i :: 0 <= i < |ts| && |ts[i]| % 0x100 == 0 {
      var i :| 0 <= i < |ts| && |ts[i]| % 0x100 == 0;
      assert ts[i] in ts;
      var j :| 0 <= j < |ps| && ps[j] == ts[i];
    }
    if (forall i :: 0 <= i < |ps| ==> ps[i] != []) && Refused(host) {
      var j :| 0 <= j < |ps| && |ps[j]| % 0x100 == 0;
      assert ps[j] in ps;
      var i :| 0 <= i < |ts| && ts[i] == ps[j];
    }
  }

  /** hostname_to_qname: a zeroed buffer of get_qname_len(host) bytes receives each
      strtok token as a truncated length byte and its bytes, then a zero; NULL is
      returned when strlen of the result plus one falls short of the buffer size. */
  method HostnameToQname(host: seq<byte>) returns (qname: array?<byte>)
    requires 0 !in host && |host| + 2 < 0x8000
    ensures qname == null <==> Refused(host)
    ensures qname != null ==> (fresh(qname) && qname.Length == |host| + 2
                               && qname[..] == Wrapped(Split(host, Dot)) + [0])
    ensures qname != null && LengthsFit(Split(host, Dot)) ==> qname[..] == QName(Split(host, Dot))
  {
    var qnameLen := GetQnameLen(host);
    var buf := new byte[qnameLen](_ => 0);
    TokensLayout(host);
    var pos := WriteTokens(buf, Tokens(host));
    buf[pos] := 0;
    var n := StrLen(buf, 0);
    assert buf[0..] == buf[..];
    QnameOutcome(host, buf[..]);
    if n + 1 < qnameLen {
      qname := null;
    } else {
      qname := buf;
      if LengthsFit(Split(host, Dot)) {
        WrappedIsEncoded(Split(host, Dot));
      }
    }
  }

  /** The strtok loop of hostname_to_qname: each token is written as its truncated
      length byte followed by its bytes, into a zeroed buffer with room for them and a
      terminator. */
  method WriteTokens(buf: array<byte>, toks: seq<seq<byte>>) returns (pos: nat)
    requires |Wrapped(toks)| < buf.Length
    requires forall j :: 0 <= j < buf.Length ==> buf[j] == 0
    modifies buf
    ensures pos == |Wrapped(toks)| && buf[..pos] == Wrapped(toks)
    ensures forall j :: pos <= j < buf.Length ==> buf[j] == 0
  {
    pos := 0;
    var k := 0;
    while k < |toks|
      invariant 0 <= k <= |toks| && pos == |Wrapped(toks[..k])|
      invariant |Wrapped(toks[..k])| <= |Wrapped(toks)|
      invariant buf[..pos] == Wrapped(toks[..k])
      invariant forall j :: pos <= j < buf.Length ==> buf[j] == 0
    {
      var t := toks[k];
      WrappedStep(toks, k);
      WriteToken(buf, pos, t);
      pos := pos + 1 + |t|;
      k := k + 1;
    }
    assert toks[..k] == toks;
  }

  /** One pass of the strtok loop: the truncated length byte, then the token's bytes
      with strcpy, at pos; the bytes after them stay zero. */
  method WriteToken(buf: array<byte>, pos: nat, t: seq<byte>)
    requires pos + 1 + |t| <= buf.Length
    modifies buf
    ensures buf[..pos + 1 + |t|] == old(buf[..pos]) + [|t| % 0x100] + t
    ensures buf[pos + 1 + |t|..] == old(buf[pos + 1 + |t|..])
  {
    buf[pos] := |t| % 0x100;
    ghost var written := buf[..pos + 1];
    CopyInto(buf, pos + 1, t);
    assert buf[..pos + 1 + |t|] == written + t;
  }

  /** The labels written after k tokens, then after one more. */
  lemma WrappedStep(toks: seq<seq<byte>>, k: nat)
    requires k < |toks|
    ensures Wrapped(toks[..k + 1]) == Wrapped(toks[..k]) + [|toks[k]| % 0x100] + toks[k]
    ensures |Wrapped(toks[..k + 1])| <= |Wrapped(toks)|
  {
    WrappedAppend(toks[..k], [toks[k]]);
    WrappedAppend(toks[..k + 1], toks[k + 1..]);
    assert toks[..k + 1] == toks[..k] + [toks[k]];
    assert toks == toks[..k + 1] + toks[k + 1..];
    assert Wrapped([toks[k]]) == [|toks[k]| % 0x100] + toks[k] + Wrapped([]);
  }

  /** Writing two lists of labels one after the other. */
  lemma {:induction false} WrappedAppend(a: seq<seq<byte>>, b: seq<seq<byte>>)
    ensures Wrapped(a + b) == Wrapped(a) + Wrapped(b)
  {
    if a == [] {
      assert a + b == b;
    } else {
      var ab := a + b;
      assert ab[1..] == a[1..] + b;
      assert ab[0] == a[0];
      WrappedAppend(a[1..], b);
      var head := [|a[0]| % 0x100] + a[0];
      calc {
        Wrapped(ab);
        head + Wrapped(a[1..] + b);
        head + (Wrapped(a[1..]) + Wrapped(b));
        (head + Wrapped(a[1..])) + Wrapped(b);
      }
    }
  }

  /** The check at the end of hostname_to_qname: with the tokens written and the rest
      of the buffer zero, strlen(qname) + 1 falls short of the buffer exactly when the
      hostname is refused, and otherwise the buffer holds every piece. */
  lemma QnameOutcome(host: seq<byte>, b: seq<byte>)
    requires 0 !in host && |b| == |host| + 2
    requires |Wrapped(Tokens(host))| < |b| && b[..|Wrapped(Tokens(host))|] == Wrapped(Tokens(host))
    requires forall j :: |Wrapped(Tokens(host))| <= j < |b| ==> b[j] == 0
    ensures FirstZero(b) + 1 < |b| <==> Refused(host)
    ensures !Refused(host) ==> b == Wrapped(Split(host, Dot)) + [0]
  {
    var w := Wrapped(Tokens(host));
    TokensLayout(host);
    SplitKeepsOut(host, 0);
    ZeroInWrapped(Tokens(host));
    RefusedByToken(host);
    if 0 !in w {
      assert b[|w|] == 0;
      assert forall j :: 0 <= j < |w| ==> b[j] == w[j];
    } else {
      var z :| 0 <= z < |w| && w[z] == 0;
      assert b[z] == 0;
    }
    if !Refused(host) {
      assert forall i :: 0 <= i < |Split(host, Dot)| ==> Split(host, Dot)[i] != [];
      assert b == b[..|w|] + [b[|w|]];
    }
  }

  // ---------------------------------------------------------------- the header struct

  /** struct dns_header: six unsigned shorts laid out without gaps. The flags word is
      also read through struct dns_header_flags, whose bit-fields a little-endian
      compiler allocates from the least significant bit: rcode, z, ra, rd, tc, aa,
      opcode, qr. That is the layout UnpackFlags reads. */
  class DnsHeader {
    var messageId: u16
    var flags: u16
    var qdCount: u16
    var anCount: u16
    var nsCount: u16
    var asCount: u16

    /** The struct's twelve bytes in little-endian memory. */
    function Image(): (r: seq<byte>)
      reads this
      ensures |r| == HeaderSize
    {
      WordsImage(messageId, flags, qdCount, anCount, nsCount, asCount)
    }

    /** The header the fields hold when they are in host order. */
    function Logical(): (h: Header)
      reads this
      ensures h.Valid()
    {
      Header(messageId, UnpackFlags(flags), qdCount, anCount, nsCount, asCount)
    }

    /** The struct laid over the first twelve bytes of a buffer. */
    constructor Overlay(buf: array<byte>)
      requires buf.Length >= HeaderSize
      ensures Image() == buf[..HeaderSize]
    {
      var s := buf[..];
      messageId := LoadLE16(s, 0);
      flags := LoadLE16(s, 2);
      qdCount := LoadLE16(s, 4);
      anCount := LoadLE16(s, 6);
      nsCount := LoadLE16(s, 8);
      asCount := LoadLE16(s, 10);
      new;
      assert buf[..HeaderSize] == s[0..2] + s[2..4] + s[4..6] + s[6..8] + s[8..10] + s[10..12];
    }

    /** hydrate_dns_header: id 1, every flag bit-field cleared but rd, one question. */
    method Hydrate()
      modifies this
      ensures messageId == RequestHeader.id && flags == PackFlags(RequestHeader.flags)
      ensures qdCount == RequestHeader.qdCount && anCount == RequestHeader.anCount
      ensures nsCount == RequestHeader.nsCount && asCount == RequestHeader.arCount
    {
      messageId := 1;
      flags := PackFlags(RequestFlags);
      qdCount := 1;
      anCount := 0;
      nsCount := 0;
      asCount := 0;
    }

    /** flip_dns_header: htons on every word. Host-order fields become the header's
        network encoding in memory, and network-order fields read from a buffer
        become the decoded header. */
    method Flip()
      modifies this
      ensures messageId == Swap16(old(messageId)) && flags == Swap16(old(flags))
      ensures qdCount == Swap16(old(qdCount)) && anCount == Swap16(old(anCount))
      ensures nsCount == Swap16(old(nsCount)) && asCount == Swap16(old(asCount))
      ensures Image() == EncodeHeader(old(Logical()))
      ensures Logical() == DecodeHeader(old(Image()))
    {
      messageId := Swap16(messageId);
      flags := Swap16(flags);
      qdCount := Swap16(qdCount);
      anCount := Swap16(anCount);
      nsCount := Swap16(nsCount);
      asCount := Swap16(asCount);
      SwappedImage(old(messageId), old(flags), old(qdCount), old(anCount), old(nsCount), old(asCount));
      LoadedImage(old(messageId), old(flags), old(qdCount), old(anCount), old(nsCount), old(asCount));
    }

    /** extract_header: ntohs on every word of a header read from the network. */
    method Extract()
      modifies this
      ensures messageId == Swap16(old(messageId)) && flags == Swap16(old(flags))
      ensures qdCount == Swap16(old(qdCount)) && anCount == Swap16(old(anCount))
      ensures nsCount == Swap16(old(nsCount)) && asCount == Swap16(old(asCount))
      ensures Logical() == DecodeHeader(old(Image()))
    {
      messageId := Swap16(messageId);
      flags := Swap16(flags);
      qdCount := Swap16(qdCount);
      anCount := Swap16(anCount);
      nsCount := Swap16(nsCount);
      asCount := Swap16(asCount);
      LoadedImage(old(messageId), old(flags), old(qdCount), old(anCount), old(nsCount), old(asCount));
    }
  }

  /** The six words of the struct in memory. */
  function WordsImage(a: u16, b: u16, c: u16, d: u16, e: u16, f: u16): seq<byte>
  {
    StoreLE16(a) + StoreLE16(b) + StoreLE16(c) + StoreLE16(d) + StoreLE16(e) + StoreLE16(f)
  }

  /** Host-order words swapped by htons lie in memory as the header's network encoding. */
  lemma SwappedImage(a: u16, b: u16, c: u16, d: u16, e: u16, f: u16)
    ensures WordsImage(Swap16(a), Swap16(b), Swap16(c), Swap16(d), Swap16(e), Swap16(f))
         == EncodeHeader(Header(a, UnpackFlags(b), c, d, e, f))
  {
    PackUnpackFlags(b);
    StoreSwapped(a);
    StoreSwapped(b);
    StoreSwapped(c);
    StoreSwapped(d);
    StoreSwapped(e);
    StoreSwapped(f);
  }

  /** Words loaded from a network-order buffer and swapped by ntohs are the decoded
      header. */
  lemma LoadedImage(a: u16, b: u16, c: u16, d: u16, e: u16, f: u16)
    ensures DecodeHeader(WordsImage(a, b, c, d, e, f))
         == Header(Swap16(a), UnpackFlags(Swap16(b)), Swap16(c), Swap16(d), Swap16(e), Swap16(f))
  {
    var image := WordsImage(a, b, c, d, e, f);
    assert image[0..2] == StoreLE16(a) && image[2..4] == StoreLE16(b) && image[4..6] == StoreLE16(c);
    assert image[6..8] == StoreLE16(d) && image[8..10] == StoreLE16(e) && image[10..12] == StoreLE16(f);
    ReadStored(image, 0, a);
    ReadStored(image, 2, b);
    ReadStored(image, 4, c);
    ReadStored(image, 6, d);
    ReadStored(image, 8, e);
    ReadStored(image, 10, f);
    DecodeHeaderWords(image);
  }

  // ---------------------------------------------------------------- the request

  /** The header part of hydrate_message: the struct laid over the start of the
      message is filled and flipped, which leaves the request header's network
      encoding in the message's first twelve bytes. */
  method WriteRequestHeader(message: array<byte>)
    requires message.Length >= HeaderSize
    modifies message
    ensures message[..HeaderSize] == EncodeHeader(RequestHeader)
    ensures message[HeaderSize..] == old(message[HeaderSize..])
  {
    var header := new DnsHeader.Overlay(message);
    header.Hydrate();
    header.Flip();
    var image := header.Image();
    RequestHeaderBytes();
    assert image == EncodeHeader(RequestHeader);
    CopyInto(message, 0, image);
  }

  /** hydrate_message: the header struct is laid over the message, filled and
      flipped to network order; the QNAME is copied behind it with strcpy, and QTYPE
      and QCLASS are stored as htons(1) after its terminator. */
  method HydrateMessage(message: array<byte>, qname: seq<byte>)
    requires |qname| >= 1 && FirstZero(qname) == |qname| - 1
    requires message.Length == HeaderSize + |qname| + 4
    modifies message
    ensures message[..] == RequestMessage(qname)
  {
    WriteRequestHeader(message);
    ghost var image := message[..HeaderSize];
    var q := qname[..FirstZero(qname) + 1];
    var pos := HeaderSize + |q|;
    var qtype, qclass := StoreLE16(Swap16(TypeA)), StoreLE16(Swap16(ClassIn));
    StoreSwapped(TypeA);
    CopyInto(message, HeaderSize, q);
    ghost var m2 := message[..];
    assert m2[..pos] == image + q;
    CopyInto(message, pos, qtype);
    ghost var m3 := message[..];
    assert m3[..pos] == m2[..pos];
    assert m3[..pos + 2] == image + q + qtype;
    CopyInto(message, pos + 2, qclass);
    assert message[..pos + 2] == m3[..pos + 2];
    assert message[..] == message[..pos + 2] + qclass;
  }

  /** The request half of main: build the QNAME, refuse the hostname when that fails,
      allocate message_len bytes and hydrate the message. message_len is a short: for
      a hostname of 0x7FEE bytes or more it is negative, malloc gets no buffer and
      hydrate_message would write through NULL, which gives no message here. */
  method BuildRequest(host: seq<byte>) returns (message: array?<byte>)
    requires 0 !in host && |host| + 2 < 0x8000
    ensures message == null <==> Refused(host) || |host| + 18 >= 0x8000
    ensures message != null ==> fresh(message) && message[..] == RequestMessage(Wrapped(Split(host, Dot)) + [0])
    ensures message != null && LengthsFit(Split(host, Dot)) ==> message[..] == RequestMessage(QName(Split(host, Dot)))
  {
    var qname := HostnameToQname(host);
    if qname == null {
      return null;
    }
    var len := StrLen(qname, 0);
    ghost var w := Wrapped(Split(host, Dot));
    assert qname[..] == w + [0] && qname[0..] == qname[..];
    assert len == |w| by {
      ZeroInWrapped(Split(host, Dot)) by { SplitKeepsOut(host, 0); }
      assert forall j :: 0 <= j < |w| ==> qname[..][j] != 0;
    }
    var messageLen := ToShort(HeaderSize + len + 1 + 4);
    if messageLen < 0 {
      return null;
    }
    message := new byte[messageLen];
    assert FirstZero(qname[..]) == |qname[..]| - 1;
    HydrateMessage(message, qname[..]);
  }

  // ---------------------------------------------------------------- the reply

  /** Encoding a longer list of labels extends the encoding of a shorter one. */
  lemma {:induction false} EncodeAppend(a: seq<seq<byte>>, b: seq<seq<byte>>)
    requires LengthsFit(a) && LengthsFit(b)
    ensures LengthsFit(a + b) && EncodeLabels(a + b) == EncodeLabels(a) + EncodeLabels(b)
  {
    assert LengthsFit(a + b) by {
      forall i | 0 <= i < |a + b|
        ensures |(a + b)[i]| < 0x100
      {
        if i >= |a| {
          assert (a + b)[i] == b[i - |a|];
        }
      }
    }
    if a == [] {
      assert a + b == b;
    } else {
      EncodeAppend(a[1..], b);
      assert (a + b)[1..] == a[1..] + b;
      assert (a + b)[0] == a[0];
    }
  }

  /** The encoding of the first k + 1 labels: that of the first k, a length byte and
      label k. */
  lemma EncodePrefix(labels: seq<seq<byte>>, k: nat)
    requires ValidLabels(labels) && k < |labels|
    ensures EncodeLabels(labels[..k + 1]) == EncodeLabels(labels[..k]) + [|labels[k]|] + labels[k]
    ensures EncodeLabels(labels) == EncodeLabels(labels[..k + 1]) + EncodeLabels(labels[k + 1..])
  {
    assert labels[..k + 1] == labels[..k] + [labels[k]];
    EncodeAppend(labels[..k], [labels[k]]);
    assert labels == labels[..k + 1] + labels[k + 1..];
    EncodeAppend(labels[..k + 1], labels[k + 1..]);
  }

  /** The size of the buffer extract_question allocates for the dotted name, as
      written: malloc(qname_len - 1), where qname_len is strlen of the encoded name. */
  function NameAllocationAsWritten(qnameLen: int): int
  {
    qnameLen - 1
  }

  /** The allocation is one byte short of the dotted name and its terminator for every
      name: for "\x01a\x00" it is one byte, and "a" with its terminator needs two. */
  lemma NameAllocationShort(labels: seq<seq<byte>>)
    requires ValidLabels(labels)
    ensures NameAllocationAsWritten(|EncodeLabels(labels)|) < |Join(labels, Dot)| + 1
  {
    if labels != [] {
      NameTextLength(labels);
    }
  }

  /** Without zero bytes in the labels, strlen measures the whole encoded name and the
      loop writes exactly the dotted name, as ExtractName does. */
  lemma NameCopied(buf: seq<byte>, start: nat, labels: seq<seq<byte>>)
    requires start <= |buf| && ParseLabels(buf[start..]) == Some(labels) && NoZeroBytes(labels)
    ensures FirstZero(buf[start..]) == |EncodeLabels(labels)|
    ensures CopiedText(buf, start, start + FirstZero(buf[start..])) == Join(labels, Dot)
  {
    ParsedAt(buf, start, labels);
    NameCopiedAt(buf, start, labels);
  }

  lemma NameCopiedAt(buf: seq<byte>, start: nat, labels: seq<seq<byte>>)
    requires ValidLabels(labels) && 0 !in EncodeLabels(labels)
    requires start + |QName(labels)| <= |buf| && buf[start..start + |QName(labels)|] == QName(labels)
    ensures FirstZero(buf[start..]) == |EncodeLabels(labels)|
    ensures CopiedText(buf, start, start + FirstZero(buf[start..])) == Join(labels, Dot)
  {
    NameEnd(buf, start, EncodeLabels(labels));
    WholeNameCopied(buf, start, FirstZero(buf[start..]), labels);
  }

  /** The loop's text when strlen measured the whole encoded name. */
  lemma WholeNameCopied(s: seq<byte>, pos: nat, n: nat, labels: seq<seq<byte>>)
    requires ValidLabels(labels) && n == |EncodeLabels(labels)|
    requires pos + n <= |s| && s[pos..pos + n] == EncodeLabels(labels)
    ensures CopiedText(s, pos, pos + n) == Join(labels, Dot)
  {
    LoopCopiesAll(s, pos, labels);
  }

  /** The labels extract_question's loop copies from s: while pos is before end, the
      length byte at pos and that many bytes after it, then a step over them. It stops
      early where the bytes run out. */
  ghost function LoopLabels(s: seq<byte>, pos: nat, end: nat): seq<seq<byte>>
    decreases |s| - pos
  {
    if pos >= end || pos >= |s| || pos + 1 + s[pos] > |s| then []
    else [s[pos + 1..pos + 1 + s[pos]]] + LoopLabels(s, pos + 1 + s[pos], end)
  }

  /** The dotted text the loop writes into the name buffer, before its terminator. */
  ghost function CopiedText(s: seq<byte>, pos: nat, end: nat): seq<byte> {
    Join(LoopLabels(s, pos, end), Dot)
  }

  /** When strlen ends exactly at the terminator, the loop copies every label. */
  lemma {:induction false} LoopCopiesAll(s: seq<byte>, pos: nat, labels: seq<seq<byte>>)
    requires ValidLabels(labels)
    requires pos + |EncodeLabels(labels)| <= |s| && s[pos..pos + |EncodeLabels(labels)|] == EncodeLabels(labels)
    ensures LoopLabels(s, pos, pos + |EncodeLabels(labels)|) == labels
    decreases |labels|
  {
    var e := EncodeLabels(labels);
    if labels != [] {
      var l := labels[0];
      var next := pos + 1 + |l|;
      assert e == [|l|] + l + EncodeLabels(labels[1..]);
      LabelAtFront(s, pos, l, EncodeLabels(labels[1..]));
      LoopCopiesAll(s, next, labels[1..]);
    }
  }

  /** When a zero byte inside label k stops strlen at end, the loop still copies all
      of label k: the dotted text it writes and its terminator take more than the
      end - pos bytes strlen measured. */
  lemma {:induction false} LoopOverruns(s: seq<byte>, pos: nat, end: nat, labels: seq<seq<byte>>)
    requires ValidLabels(labels)
    requires pos + |EncodeLabels(labels)| <= |s| && s[pos..pos + |EncodeLabels(labels)|] == EncodeLabels(labels)
    requires pos < end < pos + |EncodeLabels(labels)| && s[end] == 0
    ensures LoopLabels(s, pos, end) != []
    ensures |Join(LoopLabels(s, pos, end), Dot)| + 1 > end - pos
    decreases |labels|
  {
    var e := EncodeLabels(labels);
    var l := labels[0];
    var next := pos + 1 + |l|;
    var rest := EncodeLabels(labels[1..]);
    assert e == [|l|] + l + rest;
    LabelAtFront(s, pos, l, rest);
    var copied := LoopLabels(s, next, end);
    assert LoopLabels(s, pos, end) == [l] + copied;
    if |labels| > 1 {
      assert s[next] == rest[0] == |labels[1]|;
    }
    if end <= next {
      assert copied == [];
      assert [l] + copied == [l];
    } else {
      LoopOverruns(s, next, end, labels[1..]);
      JoinFront([l] + copied, Dot);
      assert ([l] + copied)[1..] == copied;
    }
  }

  /** A label's length byte, its bytes and the rest of the encoding, read back from s. */
  lemma LabelAtFront(s: seq<byte>, pos: nat, l: seq<byte>, rest: seq<byte>)
    requires |l| < 0x100 && pos + 1 + |l| + |rest| <= |s| && s[pos..pos + 1 + |l| + |rest|] == [|l|] + l + rest
    ensures s[pos] == |l| && s[pos + 1..pos + 1 + |l|] == l
    ensures s[pos + 1 + |l|..pos + 1 + |l| + |rest|] == rest
  {
    var w := s[pos..pos + 1 + |l| + |rest|];
    assert s[pos] == w[0];
    forall i | 0 <= i < |l|
      ensures s[pos + 1 + i] == l[i]
    {
      assert s[pos + 1 + i] == w[1 + i];
    }
    forall i | 0 <= i < |rest|
      ensures s[pos + 1 + |l| + i] == rest[i]
    {
      assert s[pos + 1 + |l| + i] == w[1 + |l| + i];
    }
  }

  /** strlen over a buffer that starts with an encoded name holding a zero byte stops
      inside the encoding, after its first length byte. */
  lemma StrlenInsideName(t: seq<byte>, labels: seq<seq<byte>>)
    requires ValidLabels(labels) && labels != [] && 0 in EncodeLabels(labels)
    requires |EncodeLabels(labels)| <= |t| && t[..|EncodeLabels(labels)|] == EncodeLabels(labels)
    ensures 0 < FirstZero(t) < |EncodeLabels(labels)| && t[FirstZero(t)] == 0
  {
    var e := EncodeLabels(labels);
    var z :| 0 <= z < |e| && e[z] == 0;
    assert t[z] == e[z];
    assert e[0] == |labels[0]|;
    assert t[0] == e[0];
  }

  /** A zero byte in a label puts a zero byte in its encoding. */
  lemma {:induction false} ZeroInEncoding(labels: seq<seq<byte>>)
    requires ValidLabels(labels) && !NoZeroBytes(labels)
    ensures 0 in EncodeLabels(labels)
  {
    var l := labels[0];
    assert EncodeLabels(labels) == [|l| as byte] + l + EncodeLabels(labels[1..]);
    if 0 !in l {
      ZeroInEncoding(labels[1..]);
    }
  }

  /** extract_question on a name one of whose labels holds a zero byte: strlen stops
      inside the name, at a byte after the first length byte, and the loop writes
      more than qname_len bytes into the name buffer, so even a buffer of qname_len
      bytes overflows (malloc(qname_len - 1) all the more). */
  lemma ZeroByteOverruns(buf: seq<byte>, start: nat, labels: seq<seq<byte>>)
    requires start <= |buf| && ParseLabels(buf[start..]) == Some(labels) && !NoZeroBytes(labels)
    ensures 0 < FirstZero(buf[start..]) < |EncodeLabels(labels)|
    ensures |CopiedText(buf, start, start + FirstZero(buf[start..]))| + 1 > FirstZero(buf[start..])
  {
    var q := QName(labels);
    assert buf[start..start + |q|] == buf[start..][..|q|];
    ZeroLabelOverruns(buf, start, labels);
  }

  /** The same for an encoded name with a zero byte in a label at start. */
  lemma ZeroLabelOverruns(buf: seq<byte>, start: nat, labels: seq<seq<byte>>)
    requires ValidLabels(labels) && !NoZeroBytes(labels)
    requires start + |QName(labels)| <= |buf| && buf[start..start + |QName(labels)|] == QName(labels)
    ensures 0 < FirstZero(buf[start..]) < |EncodeLabels(labels)|
    ensures |CopiedText(buf, start, start + FirstZero(buf[start..]))| + 1 > FirstZero(buf[start..])
  {
    StrlenCut(buf, start, labels);
    CutOverruns(buf, start, FirstZero(buf[start..]), labels);
  }

  /** Where strlen stops in a name with a zero byte in a label. */
  lemma StrlenCut(buf: seq<byte>, start: nat, labels: seq<seq<byte>>)
    requires ValidLabels(labels) && !NoZeroBytes(labels)
    requires start + |QName(labels)| <= |buf| && buf[start..start + |QName(labels)|] == QName(labels)
    ensures var n := FirstZero(buf[start..]);
            && 0 < n < |EncodeLabels(labels)| && buf[start + n] == 0
            && buf[start..start + |EncodeLabels(labels)|] == EncodeLabels(labels)
  {
    var e := EncodeLabels(labels);
    var t := buf[start..];
    ZeroInEncoding(labels);
    NamePrefix(buf, start, e);
    StrlenInsideName(t, labels);
    assert buf[start + FirstZero(t)] == t[FirstZero(t)];
  }

  /** The loop's overrun for a cut n bytes into the encoded name. */
  lemma CutOverruns(s: seq<byte>, pos: nat, n: nat, labels: seq<seq<byte>>)
    requires ValidLabels(labels)
    requires pos + |EncodeLabels(labels)| <= |s| && s[pos..pos + |EncodeLabels(labels)|] == EncodeLabels(labels)
    requires 0 < n < |EncodeLabels(labels)| && s[pos + n] == 0
    ensures |CopiedText(s, pos, pos + n)| + 1 > n
  {
    LoopOverruns(s, pos, pos + n, labels);
  }

  /** The bytes of an encoded name before its terminator, from the buffer and from
      the buffer's suffix at start. */
  lemma NamePrefix(buf: seq<byte>, start: nat, e: seq<byte>)
    requires start + |e| + 1 <= |buf| && buf[start..start + |e| + 1] == e + [0]
    ensures buf[start..start + |e|] == e && buf[start..][..|e|] == e
  {
    forall i | 0 <= i < |e|
      ensures buf[start + i] == e[i]
    {
      assert buf[start + i] == buf[start..start + |e| + 1][i];
    }
  }


  /** extract_question: strlen over the encoded name, then label by label a dot
      (except before the first), the label's bytes and a step over them, and a
      terminator; QTYPE and QCLASS are the ntohs of the two words after the name's
      zero byte. The name buffer is sized for the dotted name and its terminator. */
  method ExtractQuestion(buf: array<byte>, start: nat, ghost labels: seq<seq<byte>>)
    returns (name: array<byte>, qtype: u16, qclass: u16)
    requires start <= buf.Length && ParseLabels(buf[start..]) == Some(labels) && NoZeroBytes(labels)
    requires start + |QName(labels)| + 4 <= buf.Length
    ensures fresh(name) && name[..] == Join(labels, Dot) + [0]
    ensures qtype == ReadBE16(buf[..], start + |QName(labels)|)
    ensures qclass == ReadBE16(buf[..], start + |QName(labels)| + 2)
  {
    ParsedAt(buf[..], start, labels);
    var qnameLen;
    qnameLen, name := ExtractName(buf, start, labels);
    qtype, qclass := QuestionWords(buf[..], start + qnameLen + 1);
  }

  /** The name half of extract_question: strlen of the encoded name, the name buffer,
      the loop that writes the dotted text into it, and the terminator. */
  method ExtractName(buf: array<byte>, start: nat, ghost labels: seq<seq<byte>>)
    returns (qnameLen: nat, name: array<byte>)
    requires ValidLabels(labels) && 0 !in EncodeLabels(labels)
    requires start + |QName(labels)| <= buf.Length && buf[start..start + |QName(labels)|] == QName(labels)
    ensures qnameLen + 1 == |QName(labels)|
    ensures fresh(name) && name[..] == Join(labels, Dot) + [0]
  {
    NameEnd(buf[..], start, EncodeLabels(labels));
    qnameLen := StrLen(buf, start);
    var bytes := buf[..];
    NameEnd(bytes, start, EncodeLabels(labels));
    name := NewName(bytes, start, qnameLen, labels);
  }

  /** malloc of the name buffer, the copy loop and the terminator. */
  method NewName(bytes: seq<byte>, start: nat, qnameLen: nat, ghost labels: seq<seq<byte>>) returns (name: array<byte>)
    requires ValidLabels(labels)
    requires start + qnameLen <= |bytes| && bytes[start..start + qnameLen] == EncodeLabels(labels)
    ensures fresh(name) && name[..] == Join(labels, Dot) + [0]
  {
    NameBufferFits(labels);
    name := new byte[if qnameLen == 0 then 1 else qnameLen];
    var namePos := CopyName(bytes, start, qnameLen, name, labels);
    Terminate(name, namePos);
  }

  /** The terminator after the dotted name, in the last byte of the name buffer. */
  method Terminate(name: array<byte>, namePos: nat)
    requires namePos + 1 == name.Length
    modifies name
    ensures name[..] == old(name[..namePos]) + [0]
  {
    name[namePos] := 0;
    assert name[..] == name[..namePos] + [name[namePos]];
  }

  /** QTYPE and QCLASS: the two 16-bit words at at, each loaded from the buffer and
      passed through ntohs. */
  method QuestionWords(s: seq<byte>, at: nat) returns (qtype: u16, qclass: u16)
    requires at + 4 <= |s|
    ensures qtype == ReadBE16(s, at) && qclass == ReadBE16(s, at + 2)
  {
    qtype := Swap16(LoadLE16(s, at));
    qclass := Swap16(LoadLE16(s, at + 2));
    LoadSwapped(s, at);
    LoadSwapped(s, at + 2);
  }

  /** The dotted name and its terminator take exactly qname_len bytes, or one byte for
      the root name. */
  lemma NameBufferFits(labels: seq<seq<byte>>)
    requires ValidLabels(labels)
    ensures |Join(labels, Dot)| + 1 == (if |EncodeLabels(labels)| == 0 then 1 else |EncodeLabels(labels)|)
  {
    if labels != [] {
      NameTextLength(labels);
    }
  }

  /** The loop of extract_question: label by label from the encoded name at start,
      the dotted text is written to the front of name. */
  method CopyName(buf: seq<byte>, start: nat, qnameLen: nat, name: array<byte>, ghost labels: seq<seq<byte>>)
    returns (namePos: nat)
    requires ValidLabels(labels)
    requires start + qnameLen <= |buf| && buf[start..start + qnameLen] == EncodeLabels(labels)
    requires |Join(labels, Dot)| < name.Length
    modifies name
    ensures namePos == |Join(labels, Dot)| && name[..namePos] == Join(labels, Dot)
  {
    var sectionPos: nat := start;
    namePos := 0;
    ghost var k := 0;
    assert labels[0..] == labels;
    while sectionPos < start + qnameLen
      invariant Copying(buf, start + qnameLen, labels, k, sectionPos, namePos)
      invariant name[..namePos] == Join(labels[..k], Dot)
      decreases |labels| - k
    {
      LabelHere(buf, start + qnameLen, labels, k, sectionPos, namePos);
      var len := buf[sectionPos];
      var piece := buf[sectionPos + 1..sectionPos + 1 + len];
      ghost var text := Join(labels[..k], Dot);
      ghost var sep := if namePos > 0 then [Dot] else [];
      ghost var k0, sectionPos0, namePos0 := k, sectionPos, namePos;
      namePos := AppendLabel(name, namePos, piece);
      assert name[..namePos] == text + sep + piece;
      sectionPos := sectionPos + len + 1;
      k := k + 1;
      CopyingStep(buf, start + qnameLen, labels, k0, sectionPos0, namePos0, k, sectionPos, namePos);
    }
    assert labels[..k] == labels;
  }

  /** Where extract_question's loop stands after k labels: the encoding of the labels
      still to copy runs from sectionPos to end, and namePos is the length of the
      dotted text of the k labels copied. */
  ghost predicate Copying(buf: seq<byte>, end: nat, labels: seq<seq<byte>>, k: nat, sectionPos: nat, namePos: nat) {
    && ValidLabels(labels) && k <= |labels| && sectionPos <= end <= |buf|
    && buf[sectionPos..end] == EncodeLabels(labels[k..])
    && (k < |labels| <==> sectionPos < end)
    && namePos == |Join(labels[..k], Dot)| && (namePos > 0 <==> k > 0)
    && namePos <= |Join(labels, Dot)|
  }

  /** The length byte and the label's bytes at sectionPos, and the text after the
      label is copied. */
  lemma LabelHere(buf: seq<byte>, end: nat, labels: seq<seq<byte>>, k: nat, sectionPos: nat, namePos: nat)
    requires Copying(buf, end, labels, k, sectionPos, namePos) && sectionPos < end
    ensures k < |labels| && buf[sectionPos] as int == |labels[k]|
    ensures sectionPos + 1 + |labels[k]| <= end
    ensures buf[sectionPos + 1..sectionPos + 1 + buf[sectionPos]] == labels[k]
    ensures namePos + (if namePos > 0 then 1 else 0) + |labels[k]| <= |Join(labels, Dot)|
    ensures Join(labels[..k + 1], Dot) == Join(labels[..k], Dot) + (if namePos > 0 then [Dot] else []) + labels[k]
  {
    assert sectionPos + |EncodeLabels(labels[k..])| == end;
    LabelAt(buf, sectionPos, labels, k);
    JoinStep(labels, k);
  }

  /** The loop state after copying the label at sectionPos. */
  lemma CopyingStep(buf: seq<byte>, end: nat, labels: seq<seq<byte>>, k: nat, sectionPos: nat, namePos: nat,
                    nextK: nat, nextSection: nat, nextPos: nat)
    requires Copying(buf, end, labels, k, sectionPos, namePos) && sectionPos < end
    requires k < |labels| && nextK == k + 1 && nextSection == sectionPos + |labels[k]| + 1
    requires nextPos == namePos + (if namePos > 0 then 1 else 0) + |labels[k]|
    ensures Copying(buf, end, labels, nextK, nextSection, nextPos)
  {
    assert sectionPos + |EncodeLabels(labels[k..])| == end;
    LabelAt(buf, sectionPos, labels, k);
    JoinStep(labels, k);
  }

  /** One pass of extract_question's loop on the dotted name: a dot unless this is the
      first label, then the label's bytes with memcpy. */
  method AppendLabel(name: array<byte>, namePos: nat, piece: seq<byte>) returns (next: nat)
    requires namePos + (if namePos > 0 then 1 else 0) + |piece| <= name.Length
    modifies name
    ensures next == namePos + (if namePos > 0 then 1 else 0) + |piece|
    ensures name[..next] == old(name[..namePos]) + (if namePos > 0 then [Dot] else []) + piece
  {
    next := namePos;
    if namePos > 0 {
      name[next] := Dot;
      next := next + 1;
    }
    ghost var text := name[..next];
    CopyInto(name, next, piece);
    assert name[..next + |piece|] == text + piece;
    next := next + |piece|;
  }

  /** A name that parses at start is its own encoding there, and has no zero byte
      before its terminator. */
  lemma ParsedAt(s: seq<byte>, start: nat, labels: seq<seq<byte>>)
    requires start <= |s| && ParseLabels(s[start..]) == Some(labels) && NoZeroBytes(labels)
    ensures ValidLabels(labels) && 0 !in EncodeLabels(labels)
    ensures start + |QName(labels)| <= |s| && s[start..start + |QName(labels)|] == QName(labels)
  {
    EncodedHasNoZero(labels);
    assert s[start..start + |QName(labels)|] == s[start..][..|QName(labels)|];
  }

  /** A run without zero bytes, then a zero byte, at start: strlen from start is the
      length of the run. */
  lemma NameEnd(s: seq<byte>, start: nat, e: seq<byte>)
    requires 0 !in e && start + |e| + 1 <= |s| && s[start..start + |e| + 1] == e + [0]
    ensures s[start..start + |e|] == e
    ensures 0 in s[start..] && FirstZero(s[start..]) == |e|
  {
    var t := s[start..];
    assert t[..|e| + 1] == e + [0];
    assert t == e + [0] + t[|e| + 1..];
    assert s[start..start + |e|] == t[..|e| + 1][..|e|];
    FirstZeroAfter(e, t[|e| + 1..]);
  }


  /** The encoding of labels k onwards, read at a cursor: label k's length byte, its
      bytes, then the encoding of the labels after it. */
  lemma LabelAt(s: seq<byte>, at: nat, labels: seq<seq<byte>>, k: nat)
    requires ValidLabels(labels) && k < |labels|
    requires at + |EncodeLabels(labels[k..])| <= |s| && s[at..at + |EncodeLabels(labels[k..])|] == EncodeLabels(labels[k..])
    ensures s[at] == |labels[k]| && s[at + 1..at + 1 + |labels[k]|] == labels[k]
    ensures s[at + 1 + |labels[k]|..at + |EncodeLabels(labels[k..])|] == EncodeLabels(labels[k + 1..])
  {
    assert labels[k..][1..] == labels[k + 1..] && labels[k..][0] == labels[k];
    var here, after := [|labels[k]| as byte] + labels[k], EncodeLabels(labels[k + 1..]);
    assert EncodeLabels(labels[k..]) == [] + ([|labels[k]| as byte] + labels[k]) + after;
    Middle(s, at, [], [|labels[k]| as byte], labels[k] + after);
    Middle(s, at, [|labels[k]| as byte], labels[k], after);
    Middle(s, at, here, after, []);
  }

  /** A buffer holding a + b + c from start holds b from start + |a|. */
  lemma Middle(s: seq<byte>, start: nat, a: seq<byte>, b: seq<byte>, c: seq<byte>)
    requires start + |a + b + c| <= |s| && s[start..start + |a + b + c|] == a + b + c
    ensures s[start + |a|..start + |a| + |b|] == b
  {
    forall i | 0 <= i < |b|
      ensures s[start + |a| + i] == b[i]
    {
      assert s[start + |a| + i] == s[start..start + |a + b + c|][|a| + i];
    }
  }

  /** The dotted text of the first k + 1 labels: that of the first k, a dot when k is
      not zero, and label k; it is empty only before the first label and never longer
      than the whole name. */
  lemma JoinStep(labels: seq<seq<byte>>, k: nat)
    requires ValidLabels(labels) && k < |labels|
    ensures Join(labels[..k + 1], Dot) == Join(labels[..k], Dot) + (if k > 0 then [Dot] else []) + labels[k]
    ensures |Join(labels[..k], Dot)| > 0 <==> k > 0
    ensures |Join(labels[..k + 1], Dot)| <= |Join(labels, Dot)|
  {
    if k > 0 {
      assert labels[..k + 1] == labels[..k] + [labels[k]];
      JoinSnoc(labels[..k], labels[k], Dot);
      JoinLength(labels[..k], Dot);
      assert labels[..k][0] == labels[0];
    } else {
      assert labels[..1] == [labels[0]];
    }
    JoinPrefixLength(labels, k + 1);
  }

  /** Joining a prefix of the labels gives no more text than joining them all. */
  lemma {:induction false} JoinPrefixLength(labels: seq<seq<byte>>, m: nat)
    requires 1 <= m <= |labels|
    ensures |Join(labels[..m], Dot)| <= |Join(labels, Dot)|
    decreases |labels| - m
  {
    if m < |labels| {
      JoinPrefixLength(labels, m + 1);
      assert labels[..m + 1] == labels[..m] + [labels[m]];
      JoinSnoc(labels[..m], labels[m], Dot);
    } else {
      assert labels[..m] == labels;
    }
  }

  /** The size of struct dns_resource_record's ip_addr field, as written. */
  const IpAddrSizeAsWritten := 4

  /** strcpy of inet_ntoa's text into ip_addr always overruns it: the shortest text,
      "0.0.0.0", already takes eight bytes with its terminator. Every text fits the
      sixteen bytes of INET_ADDRSTRLEN. */
  lemma IpTextOverflows(address: seq<byte>)
    requires |address| == 4
    ensures IpAddrSizeAsWritten < |IpText(address)| + 1 <= IpTextSize
  {
    DecimalLength(address[0]);
    DecimalLength(address[1]);
    DecimalLength(address[2]);
    DecimalLength(address[3]);
  }

  /** inet_ntoa of an address loaded from memory as an unsigned int: the bytes are
      printed in memory order, lowest address first. */
  function InetNtoa(addr: u32): (r: seq<char>)
    ensures 7 <= |r| < IpTextSize
  {
    var address := [addr % 0x100, (addr / 0x100) % 0x100, (addr / 0x1_0000) % 0x100, addr / 0x100_0000];
    IpTextOverflows(address);
    IpText(address)
  }

  /** An address loaded from memory as an unsigned int prints as its four bytes in
      memory order. */
  lemma NtoaOfLoad(s: seq<byte>, at: nat)
    requires at + 4 <= |s|
    ensures InetNtoa(LoadLE32(s, at)) == IpText(s[at..at + 4])
  {
    var x := LoadLE32(s, at);
    LoadBytes(s, at);
    assert [x % 0x100, (x / 0x100) % 0x100, (x / 0x1_0000) % 0x100, x / 0x100_0000] == s[at..at + 4];
  }

  /** extract_resource_record: five words read through ntohs/ntohl from the answer's
      memory, the name word masked to its 14-bit offset, and the RDATA's four bytes
      rendered by inet_ntoa into a buffer of INET_ADDRSTRLEN bytes. */
  method ExtractResourceRecord(buf: array<byte>, at: nat) returns (record: ResourceRecord, ip: seq<char>)
    requires at + RecordSize <= buf.Length
    ensures record == DecodeARecord(buf[..], at)
    ensures ip == IpText(record.rdata) && |ip| < IpTextSize
  {
    var s := buf[..];
    var offset := Swap16(LoadLE16(s, at)) % 0x4000;
    var rtype := Swap16(LoadLE16(s, at + 2));
    var rclass := Swap16(LoadLE16(s, at + 4));
    var ttl := Swap32(LoadLE32(s, at + 6));
    var rdLength := Swap16(LoadLE16(s, at + 10));
    var addr := LoadLE32(s, at + 12);
    ip := InetNtoa(addr);
    LoadSwapped(s, at);
    LoadSwapped(s, at + 2);
    LoadSwapped(s, at + 4);
    LoadSwapped32(s, at + 6);
    LoadSwapped(s, at + 10);
    record := ResourceRecord(offset, rtype, rclass, ttl, rdLength, s[at + 12..at + 16]);
    NtoaOfLoad(s, at + 12);
    IpTextOverflows(record.rdata);
  }

  /** The answer loop of main: answer i is read at the header size, plus
      get_qname_len of the dotted question name, plus QTYPE and QCLASS, plus sixteen
      bytes per earlier answer. */
  method ExtractAnswers(response: array<byte>, name: seq<byte>, anCount: u16)
    returns (records: seq<ResourceRecord>, ips: seq<seq<char>>)
    requires |name| + 2 < 0x8000 && AnswerStart(|name| + 2, anCount) <= response.Length
    ensures |records| == |ips| == anCount
    ensures forall i :: 0 <= i < anCount ==>
              records[i] == DecodeARecord(response[..], AnswerStart(|name| + 2, i)) && ips[i] == IpText(records[i].rdata)
  {
    records, ips := [], [];
    var i := 0;
    while i < anCount
      invariant 0 <= i <= anCount && |records| == |ips| == i
      invariant AnswersRead(response[..], |name| + 2, records, ips)
    {
      var source := HeaderSize + GetQnameLen(name) + 4 + i * RecordSize;
      assert source == AnswerStart(|name| + 2, i) && AnswerStart(|name| + 2, i + 1) <= response.Length;
      var record, ip := ExtractResourceRecord(response, source);
      AnswerReadNext(response[..], |name| + 2, records, ips, record, ip);
      records, ips := records + [record], ips + [ip];
      i := i + 1;
    }
  }

  /** Every answer read so far is the A record at its place after the question, and
      its address text. */
  ghost predicate AnswersRead(s: seq<byte>, qnameLength: nat, records: seq<ResourceRecord>, ips: seq<seq<char>>)
    requires |records| == |ips| && AnswerStart(qnameLength, |records|) <= |s|
  {
    forall j :: 0 <= j < |records| ==>
      records[j] == DecodeARecord(s, AnswerStart(qnameLength, j)) && ips[j] == IpText(records[j].rdata)
  }

  lemma AnswerReadNext(s: seq<byte>, qnameLength: nat, records: seq<ResourceRecord>, ips: seq<seq<char>>,
                       record: ResourceRecord, ip: seq<char>)
    requires |records| == |ips| && AnswerStart(qnameLength, |records| + 1) <= |s|
    requires AnswersRead(s, qnameLength, records, ips)
    requires record == DecodeARecord(s, AnswerStart(qnameLength, |records|)) && ip == IpText(record.rdata)
    ensures AnswersRead(s, qnameLength, records + [record], ips + [ip])
  {
  }

  /** The header of the reply: the struct laid over the buffer and flipped to host
      order with flip_dns_header. */
  method ReadHeader(response: array<byte>) returns (header: DnsHeader)
    requires response.Length >= HeaderSize
    ensures fresh(header) && header.Logical() == DecodeHeader(response[..])
    ensures header.anCount == ReadBE16(response[..], 6)
  {
    header := new DnsHeader.Overlay(response);
    header.Flip();
    DecodeHeaderPrefix(response[..]);
    LoadSwapped(response[..HeaderSize], 6);
    assert response[..HeaderSize][6..8] == response[..][6..8];
  }

  /** The reply half of main: the header struct laid over the 2048-byte buffer and
      flipped, the question read after it, and the A answers the header counts. */
  method DecodeResponse(response: array<byte>, ghost labels: seq<seq<byte>>)
    returns (header: Header, name: array<byte>, qtype: u16, qclass: u16,
             records: seq<ResourceRecord>, ips: seq<seq<char>>)
    requires response.Length == BufferSize
    requires ParseLabels(response[HeaderSize..]) == Some(labels) && NoZeroBytes(labels)
    requires HeaderSize + |QName(labels)| + 4 <= BufferSize
    requires AnswerStart(|Join(labels, Dot)| + 2, ReadBE16(response[..], 6)) <= BufferSize
    ensures header == DecodeHeader(response[..]) && header.anCount == ReadBE16(response[..], 6)
    ensures name[..] == Join(labels, Dot) + [0]
    ensures qtype == ReadBE16(response[..], HeaderSize + |QName(labels)|)
    ensures qclass == ReadBE16(response[..], HeaderSize + |QName(labels)| + 2)
    ensures |records| == |ips| == header.anCount
    ensures forall i :: 0 <= i < |records| ==>
              records[i] == DecodeARecord(response[..], AnswerStart(|Join(labels, Dot)| + 2, i)) && ips[i] == IpText(records[i].rdata)
  {
    var overlay := ReadHeader(response);
    header := overlay.Logical();
    var anCount := overlay.anCount;
    ghost var join := Join(labels, Dot);
    QNameWithinText(labels);
    name, qtype, qclass := ExtractQuestion(response, HeaderSize, labels);
    var text := name[..FirstZero(name[..])];
    JoinHasNoZero(labels);
    TextOfName(join, name[..]);
    records, ips := ExtractAnswers(response, text, anCount);
  }

  /** The encoded name is at most two bytes longer than its dotted text. */
  lemma QNameWithinText(labels: seq<seq<byte>>)
    requires ValidLabels(labels)
    ensures |QName(labels)| <= |Join(labels, Dot)| + 2
  {
    if labels != [] {
      NameTextLength(labels);
    }
  }

  /** strlen of a NUL-terminated copy of a string without zero bytes is that string. */
  lemma TextOfName(text: seq<byte>, buf: seq<byte>)
    requires buf == text + [0] && 0 !in text
    ensures buf[..FirstZero(buf)] == text
  {
    FirstZeroAfter(text, []);
    assert buf == text + [0] + [];
  }

  /** Joining labels without zero bytes with dots gives a string without zero bytes. */
  lemma {:induction false} JoinHasNoZero(labels: seq<seq<byte>>)
    requires NoZeroBytes(labels)
    ensures 0 !in Join(labels, Dot)
  {
    if |labels| > 1 {
      assert labels[0] in labels;
      JoinHasNoZero(labels[1..]);
    } else if |labels| == 1 {
      assert labels[0] in labels;
    }
  }
}
