/** Bytes and fixed-width words on the wire. Network order is big-endian; the
    in-memory layout of a word on a little-endian host is low byte first, which is
    what the C client's struct overlays and htons/ntohs calls work with. */
module Wire {

  type byte = x: int | 0 <= x < 0x100
  type u16 = x: int | 0 <= x < 0x1_0000
  type u32 = x: int | 0 <= x < 0x1_0000_0000

  /** A 16-bit word in network byte order (struct format "!H"). */
  function BE16(x: u16): (r: seq<byte>)
    ensures |r| == 2 && r[0] as int * 0x100 + r[1] == x
  {
    [x / 0x100, x % 0x100]
  }

  /** Read the big-endian 16-bit word at offset at. */
  function ReadBE16(s: seq<byte>, at: nat): (x: u16)
    requires at + 2 <= |s|
    ensures BE16(x) == s[at..at + 2]
  {
    s[at] as int * 0x100 + s[at + 1]
  }

  /** A 32-bit word in network byte order (struct format "!I"): its high half, then
      its low half. */
  function BE32(x: u32): (r: seq<byte>)
    ensures |r| == 4
  {
    BE16(x / 0x1_0000) + BE16(x % 0x1_0000)
  }

  /** Read the big-endian 32-bit word at offset at. */
  function ReadBE32(s: seq<byte>, at: nat): (x: u32)
    requires at + 4 <= |s|
  {
    ReadBE16(s, at) * 0x1_0000 + ReadBE16(s, at + 2)
  }

  /** The word read at at is the one whose encoding sits there. */
  lemma ReadBE32Bytes(s: seq<byte>, at: nat)
    requires at + 4 <= |s|
    ensures BE32(ReadBE32(s, at)) == s[at..at + 4]
  {
    var hi, lo := ReadBE16(s, at), ReadBE16(s, at + 2);
    Place(hi, lo, 0x1_0000);
    assert s[at..at + 4] == s[at..at + 2] + s[at + 2..at + 4];
  }

  /** A value made of a high part above a low part below d: a division by d and a
      remainder by d take the two parts apart. */
  lemma Place(hi: nat, lo: nat, d: nat)
    requires 0 < d && lo < d
    ensures (hi * d + lo) / d == hi && (hi * d + lo) % d == lo
  {
    var x := hi * d + lo;
    var q, r := x / d, x % d;
    assert x == q * d + r;
    assert (hi - q) * d == r - lo;
    if hi > q {
      assert (hi - q) * d >= d by { AtLeastOnce(hi - q, d); }
    } else if hi < q {
      assert (q - hi) * d >= d by { AtLeastOnce(q - hi, d); }
    }
  }

  /** One or more copies of d add up to at least d. */
  lemma AtLeastOnce(k: int, d: nat)
    requires k >= 1
    ensures k * d >= d
  {
  }

  /** A field of width m sitting at d in a word: dividing by d and taking the
      remainder by m extracts it. */
  lemma Field(w: nat, hi: nat, mid: nat, lo: nat, d: nat, m: nat)
    requires 0 < d && 0 < m && lo < d && mid < m && w == (hi * m + mid) * d + lo
    ensures (w / d) % m == mid
  {
    Place(hi * m + mid, lo, d);
    Place(hi, mid, m);
  }

  /** Exchange the two bytes of a word: htons and ntohs on a little-endian host. */
  function Swap16(x: u16): (r: u16)
    ensures r / 0x100 == x % 0x100 && r % 0x100 == x / 0x100
  {
    (x % 0x100) * 0x100 + x / 0x100
  }

  /** Reverse the four bytes of a word: htonl and ntohl on a little-endian host. */
  function Swap32(x: u32): u32
  {
    var b0, b1, b2, b3 := x / 0x100_0000, (x / 0x1_0000) % 0x100, (x / 0x100) % 0x100, x % 0x100;
    ((b3 * 0x100 + b2) * 0x100 + b1) * 0x100 + b0
  }

  /** The two bytes a 16-bit value occupies in little-endian memory. */
  function StoreLE16(x: u16): (r: seq<byte>)
    ensures |r| == 2 && r[0] + r[1] as int * 0x100 == x
  {
    [x % 0x100, x / 0x100]
  }

  /** The 16-bit value stored in little-endian memory at offset at. */
  function LoadLE16(s: seq<byte>, at: nat): (x: u16)
    requires at + 2 <= |s|
    ensures StoreLE16(x) == s[at..at + 2]
  {
    s[at] + s[at + 1] as int * 0x100
  }

  /** The 32-bit value stored in little-endian memory at offset at. */
  function LoadLE32(s: seq<byte>, at: nat): u32
    requires at + 4 <= |s|
  {
    ((s[at + 3] as int * 0x100 + s[at + 2]) * 0x100 + s[at + 1]) * 0x100 + s[at]
  }

  /** htons then a store: the memory holds the value in network order. */
  lemma StoreSwapped(x: u16)
    ensures StoreLE16(Swap16(x)) == BE16(x)
  {
  }

  /** A load then ntohs: reads the network-order value. */
  lemma LoadSwapped(s: seq<byte>, at: nat)
    requires at + 2 <= |s|
    ensures Swap16(LoadLE16(s, at)) == ReadBE16(s, at)
  {
  }

  /** A word stored in host (little-endian) order reads back, in network order, as the
      word swapped. */
  lemma ReadStored(s: seq<byte>, at: nat, x: u16)
    requires at + 2 <= |s| && s[at..at + 2] == StoreLE16(x)
    ensures ReadBE16(s, at) == Swap16(x)
  {
    assert s[at] == StoreLE16(x)[0] && s[at + 1] == StoreLE16(x)[1];
  }

  /** The four bytes of a little-endian load, taken apart again. */
  lemma LoadBytes(s: seq<byte>, at: nat)
    requires at + 4 <= |s|
    ensures var x := LoadLE32(s, at);
            && x % 0x100 == s[at] && (x / 0x100) % 0x100 == s[at + 1]
            && (x / 0x1_0000) % 0x100 == s[at + 2] && x / 0x100_0000 == s[at + 3]
  {
    var x := LoadLE32(s, at);
    var b0, b1, b2, b3 := s[at] as int, s[at + 1] as int, s[at + 2] as int, s[at + 3] as int;
    Field(x, (b3 * 0x100 + b2) * 0x100 + b1, b0, 0, 1, 0x100);
    Field(x, b3 * 0x100 + b2, b1, b0, 0x100, 0x100);
    Field(x, b3, b2, b1 * 0x100 + b0, 0x1_0000, 0x100);
    Place(b3, (b2 * 0x100 + b1) * 0x100 + b0, 0x100_0000);
  }

  /** A 32-bit load then ntohl: reads the network-order value. */
  lemma LoadSwapped32(s: seq<byte>, at: nat)
    requires at + 4 <= |s|
    ensures Swap32(LoadLE32(s, at)) == ReadBE32(s, at)
  {
    LoadBytes(s, at);
  }

  /** Reading back a written big-endian 32-bit word gives the word. */
  lemma ReadWritten32(s: seq<byte>, at: nat, x: u32)
    requires at + 4 <= |s| && s[at..at + 4] == BE32(x)
    ensures ReadBE32(s, at) == x
  {
    assert s[at..at + 2] == BE32(x)[..2] && s[at + 2..at + 4] == BE32(x)[2..];
    ReadWritten(s, at, x / 0x1_0000);
    ReadWritten(s, at + 2, x % 0x1_0000);
  }

  /** Swapping twice restores the word. */
  lemma SwapTwice(x: u16)
    ensures Swap16(Swap16(x)) == x
  {
  }

  /** The load of a big-endian encoding, as seen in little-endian memory, is the swapped value. */
  lemma LoadOfBE16(x: u16)
    ensures LoadLE16(BE16(x), 0) == Swap16(x)
  {
  }

  /** Reading back a written big-endian word gives the word. */
  lemma ReadWritten(s: seq<byte>, at: nat, x: u16)
    requires at + 2 <= |s| && s[at..at + 2] == BE16(x)
    ensures ReadBE16(s, at) == x
  {
    assert s[at] == BE16(x)[0] && s[at + 1] == BE16(x)[1];
  }
}
