/** The ICMP echo client of ping_client.py: the Internet checksum (RFC 1071), the Echo
    Request it sends (RFC 792), the parsers for the reply's IPv4 header (section 3.1 of
    RFC 791) and ICMP header, and the success test. The host byte order, which the
    source reads from sys.byteorder, is the parameter little. */
module Ping {
  import opened Common
  import opened Wire

  const EchoRequestType: byte := 8
  const EchoRequestCode: byte := 0
  const IcmpHeaderSize := 8
  const IpHeaderSize := 20

  /** The modulus of one's-complement 16-bit arithmetic. */
  const M := 0xFFFF

  /** struct.error: fewer bytes than the format needs. */
  datatype Error = StructError

  // ---------------------------------------------------------------- checksum

  /** The 16-bit word two consecutive bytes make in host memory. */
  function HostWord(little: bool, first: byte, second: byte): (w: u16)
    ensures little ==> w == second as int * 0x100 + first
    ensures !little ==> w == first as int * 0x100 + second
  {
    if little then second as int * 0x100 + first else first as int * 0x100 + second
  }

  /** The value a trailing odd byte adds: as written it is the byte itself; padded, it
      is the host word of the byte followed by a zero byte, as RFC 1071 prescribes. */
  function OddWord(little: bool, b: byte, padded: bool): nat
  {
    if padded then HostWord(little, b, 0) else b
  }

  /** The sum of the payload's host-order words plus the trailing odd byte. */
  function RawSum(little: bool, p: seq<byte>, padded: bool): nat
  {
    if |p| == 0 then 0
    else if |p| == 1 then OddWord(little, p[0], padded)
    else HostWord(little, p[0], p[1]) + RawSum(little, p[2..], padded)
  }

  /** One carry fold: the bits above 16 added back to the low 16 bits. */
  function Fold(x: nat): (r: nat)
    ensures x < 0x1_0000 ==> r == x
  {
    x / 0x1_0000 + x % 0x1_0000
  }

  /** Python's ~x & 0xFFFF: the one's complement cut to 16 bits. */
  function Complement(x: int): (r: u16)
    ensures 0 <= x <= 0xFFFF ==> r == 0xFFFF - x
  {
    (-x - 1) % 0x1_0000
  }

  /** socket.htons on a host of the given byte order. */
  function Htons(little: bool, x: u16): (r: u16)
    ensures !little ==> r == x
    ensures little ==> r == Swap16(x)
  {
    if little then Swap16(x) else x
  }

  /** The checksum's tail: two folds, the complement and htons. */
  function Finish(little: bool, sum: nat): u16
  {
    Htons(little, Complement(Fold(Fold(sum))))
  }

  /** The sum of the big-endian words of an even-length sequence. */
  function WordsBE(s: seq<byte>): nat
    requires |s| % 2 == 0
  {
    if s == [] then 0 else ReadBE16(s, 0) + WordsBE(s[2..])
  }

  /** The RFC 1071 sum: the data padded with a zero byte to an even length, read as
      big-endian words. */
  function Rfc1071Sum(p: seq<byte>): nat
  {
    if |p| % 2 == 0 then WordsBE(p) else WordsBE(p + [0])
  }

  /** The RFC 1071 checksum, the value the Checksum field holds (in network order). */
  function Rfc1071Checksum(p: seq<byte>): u16
  {
    Complement(Fold(Fold(Rfc1071Sum(p))))
  }

  /** checksum(payload) as written: the words in host order, the odd byte unshifted,
      two folds, complement, htons. On a little-endian host this is the RFC 1071
      checksum of the payload. */
  method Checksum(little: bool, payload: seq<byte>) returns (r: u16)
    ensures r == Finish(little, RawSum(little, payload, false))
    ensures little && |payload| <= 0xFFFF ==> r == Rfc1071Checksum(payload)
  {
    var resultSum := SumWords(little, payload);
    ghost var sum := resultSum;
    var carries := resultSum / 0x1_0000;
    var withoutCarries := resultSum % 0x1_0000;
    resultSum := withoutCarries + carries;
    assert resultSum == Fold(sum);
    resultSum := resultSum / 0x1_0000 + resultSum % 0x1_0000;
    assert resultSum == Fold(Fold(sum));
    var complement := Complement(resultSum);
    r := Htons(little, complement);
    if little && |payload| <= 0xFFFF {
      LittleEndianIsRfc1071(payload);
    }
  }

  /** The summing loop of checksum(): two bytes at a time while a pair is left, then the
      odd byte alone. */
  method SumWords(little: bool, payload: seq<byte>) returns (resultSum: nat)
    ensures resultSum == RawSum(little, payload, false)
  {
    var intSteps := (|payload| / 2) * 2;
    resultSum := 0;
    var step := 0;
    while step < intSteps
      invariant 0 <= step <= intSteps && step % 2 == 0
      invariant resultSum + RawSum(little, payload[step..], false) == RawSum(little, payload, false)
    {
      var lo, hi;
      if little {
        lo, hi := payload[step], payload[step + 1];
      } else {
        hi, lo := payload[step], payload[step + 1];
      }
      assert payload[step..][2..] == payload[step + 2..];
      assert HostWord(little, payload[step], payload[step + 1]) == hi as int * 256 + lo;
      resultSum := resultSum + hi as int * 256 + lo;
      step := step + 2;
    }
    if intSteps < |payload| {
      resultSum := resultSum + payload[|payload| - 1];
    }
  }

  /** The checksum with the odd byte padded as RFC 1071 prescribes: the RFC 1071
      checksum on either host byte order. */
  function CorrectedChecksum(little: bool, p: seq<byte>): (r: u16)
    ensures |p| <= 0xFFFF ==> r == Rfc1071Checksum(p)
  {
    var r := Finish(little, RawSum(little, p, true));
    if |p| > 0xFFFF then r
    else if little then LittleEndianIsRfc1071(p); LittlePadding(p); r
    else PaddedIsRfc1071(p); r
  }

  // ----------------------------------------------------------- checksum lemmas

  /** Every two bytes add at most 0xFFFF and an odd byte at most 0xFF00. */
  lemma {:induction false} SumBound(little: bool, p: seq<byte>, padded: bool)
    ensures RawSum(little, p, padded) <= 0x1_0000 * |p|
  {
    if |p| >= 2 {
      SumBound(little, p[2..], padded);
    }
  }

  /** A sum is zero exactly when every byte is zero. */
  lemma {:induction false} ZeroSum(little: bool, p: seq<byte>)
    ensures RawSum(little, p, true) == 0 <==> forall i :: 0 <= i < |p| ==> p[i] == 0
  {
    if |p| >= 2 {
      ZeroSum(little, p[2..]);
      assert forall i :: 2 <= i < |p| ==> p[i] == p[2..][i - 2];
    }
  }

  /** On a little-endian host the odd byte alone is already the padded word. */
  lemma {:induction false} LittlePadding(p: seq<byte>)
    ensures RawSum(true, p, false) == RawSum(true, p, true)
  {
    if |p| >= 2 {
      LittlePadding(p[2..]);
    }
  }

  /** On a big-endian host the padded sum is the RFC 1071 sum. */
  lemma {:induction false} PaddedIsRfc1071(p: seq<byte>)
    ensures RawSum(false, p, true) == Rfc1071Sum(p)
  {
    if |p| == 1 {
      assert (p + [0])[2..] == [];
    } else if |p| >= 2 {
      PaddedIsRfc1071(p[2..]);
      if |p| % 2 == 1 {
        assert (p + [0])[2..] == p[2..] + [0];
      }
    }
  }

  /** (M * q) is a multiple of M, and sums and multiples of multiples are multiples. */
  lemma Multiples(x: int, y: int)
    requires x % M == 0 && y % M == 0
    ensures (x + y) % M == 0 && (x - y) % M == 0 && (0x100 * x) % M == 0
  {
    var qx, qy := x / M, y / M;
    assert x == M * qx && y == M * qy;
    assert x + y == M * (qx + qy);
    assert x - y == M * (qx - qy);
    assert 0x100 * x == M * (0x100 * qx);
  }

  /** Swapping a word's bytes multiplies it by 256 modulo 0xFFFF. */
  lemma SwapCongruent(w: u16)
    ensures (Swap16(w) as int - 0x100 * (w as int)) % M == 0
  {
    var hi, lo := w / 0x100, w % 0x100;
    assert w == hi * 0x100 + lo;
    assert Swap16(w) as int - 0x100 * (w as int) == -M * hi;
  }

  /** The little-endian sum is 256 times the big-endian sum modulo 0xFFFF: the
      one's-complement sum does not depend on byte order (section 2(B) of RFC 1071). */
  lemma {:induction false} ByteOrderIndependent(p: seq<byte>)
    ensures SameModM(RawSum(true, p, true), 0x100 * RawSum(false, p, true))
  {
    if |p| == 1 {
      assert RawSum(true, p, true) - 0x100 * RawSum(false, p, true) == -M * p[0];
    } else if |p| >= 2 {
      ByteOrderIndependent(p[2..]);
      var w := HostWord(false, p[0], p[1]);
      assert HostWord(true, p[0], p[1]) == Swap16(w);
      SwapCongruent(w);
      Multiples(Swap16(w) as int - 0x100 * (w as int),
                RawSum(true, p[2..], true) - 0x100 * RawSum(false, p[2..], true));
    }
  }

  /** Below 2^32, two folds leave at most 0xFFFF, keep the value modulo 0xFFFF and
      give zero only for zero. */
  lemma FoldTwice(x: nat)
    requires x < 0x1_0000_0000
    ensures Fold(Fold(x)) <= 0xFFFF
    ensures SameModM(Fold(Fold(x)), x)
    ensures Fold(Fold(x)) == 0 <==> x == 0
  {
    FoldStep(x);
    FoldStep(Fold(x));
    Multiples(Fold(Fold(x)) - Fold(x), Fold(x) - x);
  }

  /** One fold subtracts a multiple of 0xFFFF. */
  lemma FoldStep(x: nat)
    ensures (Fold(x) - x) % M == 0
  {
    assert x == (x / 0x1_0000) * 0x1_0000 + x % 0x1_0000;
    assert Fold(x) - x == -M * (x / 0x1_0000);
  }

  /** Complementing and swapping commute. */
  lemma SwapComplement(x: u16)
    ensures Swap16(0xFFFF - Swap16(x)) == 0xFFFF - x
  {
    var hi, lo := x / 0x100, x % 0x100;
    assert Swap16(x) == lo * 0x100 + hi;
    assert 0xFFFF - Swap16(x) == (0xFF - lo) * 0x100 + (0xFF - hi);
  }

  /** On a little-endian host the checksum as written equals the RFC 1071 checksum. */
  lemma LittleEndianIsRfc1071(p: seq<byte>)
    requires |p| <= 0xFFFF
    ensures Finish(true, RawSum(true, p, false)) == Rfc1071Checksum(p)
  {
    var l, b := RawSum(true, p, true), RawSum(false, p, true);
    LittlePadding(p);
    assert Finish(true, RawSum(true, p, false)) == Finish(true, l);
    assert Htons(true, Complement(Fold(Fold(l)))) == Complement(Fold(Fold(b))) by {
      BothSums(p);
      SwappedSums(l, b);
    }
    PaddedIsRfc1071(p);
    assert Rfc1071Checksum(p) == Complement(Fold(Fold(b)));
  }

  /** x and y leave the same remainder modulo 0xFFFF. */
  predicate SameModM(x: int, y: int) {
    (x - y) % M == 0
  }

  /** The padded sums on the two byte orders fit in 32 bits, are zero together, and
      the little-endian one is 256 times the big-endian one modulo 0xFFFF. */
  lemma BothSums(p: seq<byte>)
    requires |p| <= 0xFFFF
    ensures RawSum(true, p, true) < 0x1_0000_0000 && RawSum(false, p, true) < 0x1_0000_0000
    ensures RawSum(true, p, true) == 0 <==> RawSum(false, p, true) == 0
    ensures SameModM(RawSum(true, p, true), 0x100 * RawSum(false, p, true))
  {
    SumBound(true, p, true);
    SumBound(false, p, true);
    ZeroSum(true, p);
    ZeroSum(false, p);
    ByteOrderIndependent(p);
  }

  /** Two sums below 2^32, zero together and the first 256 times the second modulo
      0xFFFF, fold to byte-swapped words, so their complements are byte-swapped too. */
  lemma SwappedSums(l: nat, b: nat)
    requires l < 0x1_0000_0000 && b < 0x1_0000_0000
    requires (l == 0 <==> b == 0) && SameModM(l, 0x100 * b)
    ensures Htons(true, Complement(Fold(Fold(l)))) == Complement(Fold(Fold(b)))
  {
    FoldTwice(l);
    FoldTwice(b);
    if b != 0 {
      SwappedFolds(l, b, Fold(Fold(l)), Fold(Fold(b)));
      SwapComplement(Fold(Fold(b)));
    }
  }

  /** Folded sums congruent to l and to b, where l is 256 b modulo 0xFFFF, are each
      other's byte swap when neither is zero. */
  lemma SwappedFolds(l: nat, b: nat, fl: nat, fb: nat)
    requires 1 <= fl <= 0xFFFF && 1 <= fb <= 0xFFFF
    requires SameModM(fl, l) && SameModM(fb, b) && SameModM(l, 0x100 * b)
    ensures fl == Swap16(fb)
  {
    var sw := Swap16(fb) as int;
    SwapCongruent(fb);
    Multiples(fb - b, 0);
    Multiples(sw - 0x100 * fb, 0x100 * (fb - b));
    Multiples(sw - 0x100 * b, l - 0x100 * b);
    Multiples(sw - l, fl - l);
    CongruentEqual(fl, sw);
  }

  /** Two values in 1..0xFFFF that agree modulo 0xFFFF are equal. */
  lemma CongruentEqual(x: int, y: int)
    requires 1 <= x <= M && 1 <= y <= M && (x - y) % M == 0
    ensures x == y
  {
    var q := (x - y) / M;
    assert x - y == M * q;
  }


  /** The checksum as written differs from RFC 1071 on a big-endian host for a payload
      of odd length: the byte 0x01 sums to 1 instead of 0x0100. */
  lemma BigEndianOddByte()
    ensures Finish(false, RawSum(false, [1], false)) == 0xFFFE
    ensures Rfc1071Checksum([1]) == 0xFEFF
  {
    assert [1 as byte] + [0] == [1, 0];
  }

  // ------------------------------------------------------------- ICMP header

  datatype IcmpHeader = IcmpHeader(icmpType: byte, code: byte, checksum: u16, packetId: u16, sequence: u16)

  /** struct.pack("!BBHHH", ...) */
  function PackIcmp(h: IcmpHeader): (r: seq<byte>)
    ensures |r| == IcmpHeaderSize
  {
    [h.icmpType, h.code] + BE16(h.checksum) + BE16(h.packetId) + BE16(h.sequence)
  }

  /** extract_icmp_header_and_data: the first 8 bytes unpacked as "!BBHHH" and the rest
      as data; fewer than 8 bytes raise. */
  function ExtractIcmpHeaderAndData(packet: seq<byte>): (r: Result<(IcmpHeader, seq<byte>), Error>)
    ensures r.Err? <==> |packet| < IcmpHeaderSize
    ensures r.Ok? ==> PackIcmp(r.value.0) + r.value.1 == packet
  {
    if |packet| < IcmpHeaderSize then Err(StructError)
    else
      var h := IcmpHeader(packet[0], packet[1], ReadBE16(packet, 2), ReadBE16(packet, 4), ReadBE16(packet, 6));
      assert PackIcmp(h) == packet[..IcmpHeaderSize];
      Ok((h, packet[IcmpHeaderSize..]))
  }

  /** Parsing a packed header followed by data gives both back. */
  lemma IcmpRoundTrip(h: IcmpHeader, data: seq<byte>)
    ensures ExtractIcmpHeaderAndData(PackIcmp(h) + data) == Ok((h, data))
  {
    var p := PackIcmp(h) + data;
    assert p[2..4] == BE16(h.checksum);
    assert p[4..6] == BE16(h.packetId);
    assert p[6..8] == BE16(h.sequence);
  }

  // --------------------------------------------------------------- the packet

  /** The ASCII bytes of a string of 7-bit characters. */
  function Ascii(s: string): (r: seq<byte>)
    requires forall i :: 0 <= i < |s| ==> s[i] as int < 0x80
    ensures |r| == |s| && forall i :: 0 <= i < |r| ==> r[i] == s[i] as int
  {
    if s == [] then [] else [s[0] as int] + Ascii(s[1..])
  }

  /** The data of the Echo Request. */
  const EchoData: seq<byte> := Ascii("Glory to Ukraine!")

  /** The greeting is 17 bytes long, so make_packet's packet is 25. */
  lemma EchoDataLength()
    ensures |EchoData| == 17
  {
  }

  /** An Echo Request: the header with a zero checksum is checksummed together with
      the data, by the sum as written or with the odd byte padded, and the header
      carrying that checksum goes before the data. It parses back as that header and
      the data, and re-checksums to 0 under the same sum (RFC 1071 verification). */
  function EchoRequest(little: bool, packetId: u16, sequence: u16, data: seq<byte>, padded: bool): (r: seq<byte>)
    ensures ExtractIcmpHeaderAndData(r)
         == Ok((IcmpHeader(EchoRequestType, EchoRequestCode,
                           Finish(little, RawSum(little, PackIcmp(IcmpHeader(EchoRequestType, EchoRequestCode, 0, packetId, sequence)) + data, padded)),
                           packetId, sequence), data))
    ensures |data| <= 0xFFFF - IcmpHeaderSize ==> Finish(little, RawSum(little, r, padded)) == 0
  {
    var blank := IcmpHeader(EchoRequestType, EchoRequestCode, 0, packetId, sequence);
    var c := Finish(little, RawSum(little, PackIcmp(blank) + data, padded));
    IcmpRoundTrip(blank.(checksum := c), data);
    if |data| <= 0xFFFF - IcmpHeaderSize then
      Recheck(little, blank, data, padded);
      PackIcmp(blank.(checksum := c)) + data
    else
      PackIcmp(blank.(checksum := c)) + data
  }

  /** The blank Echo Request header make_packet checksums: type 8, code 0, checksum 0,
      id 0, sequence 0. */
  const BlankHeader := IcmpHeader(EchoRequestType, EchoRequestCode, 0, 0, 0)

  /** make_packet: the Echo Request with id 0, sequence 0 and the greeting as data,
      checksummed by checksum() as written. The packet re-checksums to 0 under that
      checksum on either host; on a little-endian host the checksum it carries is the
      RFC 1071 checksum. */
  function MakePacket(little: bool): (r: seq<byte>)
    ensures |r| == IcmpHeaderSize + |EchoData|
    ensures ExtractIcmpHeaderAndData(r).Ok?
    ensures var (h, data) := ExtractIcmpHeaderAndData(r).value;
            h.icmpType == 8 && h.code == 0 && h.packetId == 0 && h.sequence == 0 && data == EchoData
    ensures Finish(little, RawSum(little, r, false)) == 0
    ensures little ==> ExtractIcmpHeaderAndData(r).value.0.checksum == Rfc1071Checksum(PackIcmp(BlankHeader) + EchoData)
  {
    EchoDataLength();
    LittleEndianIsRfc1071(PackIcmp(BlankHeader) + EchoData);
    EchoRequest(little, 0, 0, EchoData, false)
  }

  /** make_packet with the odd byte padded as RFC 1071 prescribes: on either host byte
      order the packet carries the RFC 1071 checksum of the blank header and the data. */
  function MakePacketCorrected(little: bool): (r: seq<byte>)
    ensures ExtractIcmpHeaderAndData(r)
         == Ok((BlankHeader.(checksum := Rfc1071Checksum(PackIcmp(BlankHeader) + EchoData)), EchoData))
  {
    var p := PackIcmp(BlankHeader) + EchoData;
    EchoDataLength();
    LittleEndianIsRfc1071(p);
    LittlePadding(p);
    PaddedIsRfc1071(p);
    EchoRequest(little, 0, 0, EchoData, true)
  }

  /** On a little-endian host the packet make_packet builds is the corrected one. */
  lemma MakePacketAsWritten()
    ensures MakePacket(true) == MakePacketCorrected(true)
  {
    LittlePadding(PackIcmp(BlankHeader) + EchoData);
    var r, c := MakePacket(true), MakePacketCorrected(true);
    assert ExtractIcmpHeaderAndData(r) == ExtractIcmpHeaderAndData(c);
  }

  /** Inserting the checksum makes the host-order sum grow by the complement of its
      own fold. */
  lemma InsertedWord(little: bool, blank: IcmpHeader, data: seq<byte>, padded: bool, c: u16)
    requires blank.checksum == 0 && c == Htons(little, Complement(Fold(Fold(RawSum(little, PackIcmp(blank) + data, padded)))))
    ensures RawSum(little, PackIcmp(blank.(checksum := c)) + data, padded)
         == RawSum(little, PackIcmp(blank) + data, padded) + Complement(Fold(Fold(RawSum(little, PackIcmp(blank) + data, padded))))
  {
    var rest := BE16(blank.packetId) + BE16(blank.sequence) + data;
    var p0 := PackIcmp(blank) + data;
    var w := BE16(c);
    PackedFront(blank, data);
    PackedFront(blank.(checksum := c), data);
    assert BE16(0) == [0, 0] && w == [w[0], w[1]];
    SumFront(little, blank.icmpType, blank.code, [0, 0] + rest, padded);
    SumFront(little, 0, 0, rest, padded);
    SumFront(little, blank.icmpType, blank.code, [w[0], w[1]] + rest, padded);
    SumFront(little, w[0], w[1], rest, padded);
    WordOfHtons(little, Complement(Fold(Fold(RawSum(little, p0, padded)))));
  }

  /** The bytes htons leaves in the packet read back, in host order, as the value. */
  lemma WordOfHtons(little: bool, v: u16)
    ensures HostWord(little, BE16(Htons(little, v))[0], BE16(Htons(little, v))[1]) == v
  {
    if little {
      assert Swap16(Swap16(v)) == v;
    }
  }

  /** A packed header and its data: type and code, the checksum's two bytes, the rest. */
  lemma PackedFront(h: IcmpHeader, data: seq<byte>)
    ensures PackIcmp(h) + data
         == [h.icmpType, h.code] + (BE16(h.checksum) + (BE16(h.packetId) + BE16(h.sequence) + data))
  {
  }

  /** The sum starts with the host word of the first two bytes. */
  lemma SumFront(little: bool, a: byte, b: byte, rest: seq<byte>, padded: bool)
    ensures RawSum(little, [a, b] + rest, padded) == HostWord(little, a, b) + RawSum(little, rest, padded)
  {
    assert ([a, b] + rest)[2..] == rest;
  }

  /** RFC 1071 verification: the checksum of a packet carrying its own checksum is 0,
      whichever sum (as written or padded) is used for both, on either host. */
  lemma Recheck(little: bool, blank: IcmpHeader, data: seq<byte>, padded: bool)
    requires blank.checksum == 0 && |data| <= 0xFFFF - IcmpHeaderSize
    ensures var c := Finish(little, RawSum(little, PackIcmp(blank) + data, padded));
            Finish(little, RawSum(little, PackIcmp(blank.(checksum := c)) + data, padded)) == 0
  {
    var s0 := RawSum(little, PackIcmp(blank) + data, padded);
    SumBound(little, PackIcmp(blank) + data, padded);
    InsertedWord(little, blank, data, padded, Finish(little, s0));
    SumWithComplement(s0);
  }

  /** A sum plus the complement of its folded value folds to 0xFFFF, whose complement
      is 0. */
  lemma SumWithComplement(s0: nat)
    requires s0 <= 0xFFFF_0000
    ensures Complement(Fold(Fold(s0 + Complement(Fold(Fold(s0)))))) == 0
  {
    FoldTwice(s0);
    var f0 := Fold(Fold(s0));
    var s1 := s0 + (0xFFFF - f0);
    ComplementAdded(s0, f0);
    FoldTwice(s1);
    SameModTrans(Fold(Fold(s1)), s1, M);
    CongruentEqual(Fold(Fold(s1)), M);
  }

  /** Adding the complement of a value congruent to s0 gives a multiple of 0xFFFF. */
  lemma ComplementAdded(s0: int, f0: int)
    requires SameModM(f0, s0)
    ensures SameModM(s0 + (0xFFFF - f0), M)
  {
    Multiples(0, f0 - s0);
  }

  lemma SameModTrans(x: int, y: int, z: int)
    requires SameModM(x, y) && SameModM(y, z)
    ensures SameModM(x, z)
  {
    Multiples(x - y, y - z);
  }

  /** The corrected packet is the same on both host byte orders and verifies under
      RFC 1071; on a little-endian host so does the packet make_packet builds. */
  lemma MakePacketRechecks(little: bool)
    ensures MakePacketCorrected(little) == MakePacketCorrected(false)
    ensures Rfc1071Checksum(MakePacketCorrected(little)) == 0
    ensures little ==> Rfc1071Checksum(MakePacket(little)) == 0
  {
    var r, b := MakePacketCorrected(little), MakePacketCorrected(false);
    assert ExtractIcmpHeaderAndData(r) == ExtractIcmpHeaderAndData(b);
    EchoDataLength();
    assert Finish(false, RawSum(false, b, true)) == 0;
    PaddedIsRfc1071(b);
    if little {
      MakePacketAsWritten();
    }
  }

  // --------------------------------------------------------------- IP header

  /** The fixed 20-byte IPv4 header as unpacked with "!BBHHHBBHII"; version holds the
      whole version/IHL byte and the destination address is read but not kept. */
  datatype IpHeader = IpHeader(version: byte, serviceType: byte, length: u16, id: u16, flags: u16,
                               ttl: byte, protocol: byte, checksum: u16, srcIp: u32)

  /** struct.pack("!BBHHHBBHII", ...) of a header and a destination address. */
  function PackIp(h: IpHeader, dstIp: u32): (r: seq<byte>)
    ensures |r| == IpHeaderSize
  {
    [h.version, h.serviceType] + BE16(h.length) + BE16(h.id) + BE16(h.flags)
      + [h.ttl, h.protocol] + BE16(h.checksum) + BE32(h.srcIp) + BE32(dstIp)
  }

  /** extract_ip_header_and_data: a fixed 20-byte header, options not looked at, the
      rest as data; fewer than 20 bytes raise. */
  function ExtractIpHeaderAndData(packet: seq<byte>): (r: Result<(IpHeader, seq<byte>), Error>)
    ensures r.Err? <==> |packet| < IpHeaderSize
    ensures r.Ok? ==> exists dst :: PackIp(r.value.0, dst) + r.value.1 == packet
  {
    if |packet| < IpHeaderSize then Err(StructError)
    else
      var h := IpHeader(packet[0], packet[1], ReadBE16(packet, 2), ReadBE16(packet, 4), ReadBE16(packet, 6),
                        packet[8], packet[9], ReadBE16(packet, 10), ReadBE32(packet, 12));
      var dst := ReadBE32(packet, 16);
      ReadBE32Bytes(packet, 12);
      ReadBE32Bytes(packet, 16);
      assert PackIp(h, dst) == packet[..IpHeaderSize];
      Ok((h, packet[IpHeaderSize..]))
  }

  /** Parsing a packed IPv4 header followed by data gives the header and data back. */
  lemma IpRoundTrip(h: IpHeader, dstIp: u32, data: seq<byte>)
    ensures ExtractIpHeaderAndData(PackIp(h, dstIp) + data) == Ok((h, data))
  {
    var p := PackIp(h, dstIp) + data;
    IpFields(h, dstIp, data);
    var read := IpHeader(p[0], p[1], ReadBE16(p, 2), ReadBE16(p, 4), ReadBE16(p, 6),
                         p[8], p[9], ReadBE16(p, 10), ReadBE32(p, 12));
    assert read == h;
    assert p[IpHeaderSize..] == data;
  }

  /** Each field of a packed header read back from its offset. */
  lemma IpFields(h: IpHeader, dstIp: u32, data: seq<byte>)
    ensures var p := PackIp(h, dstIp) + data;
            && p[0] == h.version && p[1] == h.serviceType && p[8] == h.ttl && p[9] == h.protocol
            && ReadBE16(p, 2) == h.length && ReadBE16(p, 4) == h.id && ReadBE16(p, 6) == h.flags
            && ReadBE16(p, 10) == h.checksum && ReadBE32(p, 12) == h.srcIp
  {
    var p := PackIp(h, dstIp) + data;
    assert p[2..4] == BE16(h.length);
    ReadWritten(p, 2, h.length);
    assert p[4..6] == BE16(h.id);
    ReadWritten(p, 4, h.id);
    assert p[6..8] == BE16(h.flags);
    ReadWritten(p, 6, h.flags);
    assert p[10..12] == BE16(h.checksum);
    ReadWritten(p, 10, h.checksum);
    assert p[12..16] == BE32(h.srcIp);
    ReadWritten32(p, 12, h.srcIp);
  }


  // ----------------------------------------------------------------- outcome

  /** The end of ping(): the request's ICMP data compared with the ICMP data inside the
      reply's IPv4 packet; true prints SUCCESS, false FAILED. */
  function PingOutcome(request: seq<byte>, reply: seq<byte>): (r: Result<bool, Error>)
    ensures r.Ok? <==> |request| >= IcmpHeaderSize && |reply| >= IpHeaderSize + IcmpHeaderSize
    ensures r.Ok? ==> (r.value <==> request[IcmpHeaderSize..] == reply[IpHeaderSize + IcmpHeaderSize..])
  {
    match ExtractIcmpHeaderAndData(request)
    case Err(e) => Err(e)
    case Ok((_, requestData)) =>
      match ExtractIpHeaderAndData(reply)
      case Err(e) => Err(e)
      case Ok((_, ipData)) =>
        match ExtractIcmpHeaderAndData(ipData)
        case Err(e) => Err(e)
        case Ok((_, data)) =>
          assert data == reply[IpHeaderSize + IcmpHeaderSize..];
          Ok(requestData == data)
  }

  /** A reply that echoes the greeting back succeeds, whatever its headers say. */
  lemma EchoSucceeds(little: bool, ip: IpHeader, dstIp: u32, icmp: IcmpHeader)
    ensures PingOutcome(MakePacket(little), PackIp(ip, dstIp) + PackIcmp(icmp) + EchoData) == Ok(true)
  {
    var reply := PackIp(ip, dstIp) + PackIcmp(icmp) + EchoData;
    assert reply[IpHeaderSize + IcmpHeaderSize..] == EchoData;
  }
}
