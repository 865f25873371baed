/** Machine words, flow identifiers and packets shared by every part of the detector. */
module Base {
  const TWO_TO_THE_32: int := 0x1_0000_0000
  const TWO_TO_THE_64: int := 0x1_0000_0000_0000_0000

  /** Largest stage threshold for which a counter not above it plus a packet size stays below 2^64. */
  const MAX_SAFE_THRESHOLD: int := TWO_TO_THE_64 - TWO_TO_THE_32

  /** Size in bytes of the packed flow identifier, the key the stage hash functions read. */
  const KEY_LEN: nat := 13

  type byte = x: int | 0 <= x < 0x100
  type u16 = x: int | 0 <= x < 0x1_0000
  type u32 = x: int | 0 <= x < TWO_TO_THE_32
  type u64 = x: int | 0 <= x < TWO_TO_THE_64

  const MAX_U64: u64 := TWO_TO_THE_64 - 1

  /** Unsigned additions, with the wrap-around of the machine. */
  function Add32(x: u32, y: u32): u32 {
    (x + y) % TWO_TO_THE_32
  }

  function Add64(x: u64, y: u64): u64 {
    (x + y) % TWO_TO_THE_64
  }

  function Min(x: u64, y: u64): u64 {
    if x < y then x else y
  }

  function Max(x: u64, y: u64): u64 {
    if x < y then y else x
  }

  datatype Option<+T> = None | Some(value: T)

  /** The n low bytes of x, least significant first. */
  function Bytes(x: nat, n: nat): (b: seq<byte>)
    ensures |b| == n
  {
    if n == 0 then [] else [x % 0x100] + Bytes(x / 0x100, n - 1)
  }

  /** What Bytes(x, n) leaves out: the bytes above the n lowest. */
  function Above(x: nat, n: nat): nat {
    if n == 0 then x else Above(x / 0x100, n - 1)
  }

  /** The 5-tuple that identifies a flow. */
  datatype FlowId = FlowId(srcaddr: u32, dstaddr: u32, srcport: u16, dstport: u16, prot: byte) {
    /** The packed memory image (no padding, little endian) that is handed to the hash functions. */
    function Key(): (k: seq<byte>)
      ensures |k| == KEY_LEN
    {
      Bytes(srcaddr, 4) + Bytes(dstaddr, 4) + Bytes(srcport, 2) + Bytes(dstport, 2) + [prot]
    }
  }

  /** What a packet contributes to its flow. */
  datatype FlowUpdate = FlowUpdate(fid: FlowId, dOctets: u32)

  lemma {:induction false} BytesInjective(x: nat, y: nat, n: nat)
    requires Bytes(x, n) == Bytes(y, n) && Above(x, n) == Above(y, n)
    ensures x == y
  {
    if n > 0 {
      assert Bytes(x, n)[0] == Bytes(y, n)[0];
      assert Bytes(x, n)[1..] == Bytes(x / 0x100, n - 1) && Bytes(y, n)[1..] == Bytes(y / 0x100, n - 1);
      BytesInjective(x / 0x100, y / 0x100, n - 1);
    }
  }

  lemma NothingAbove(x: u32)
    ensures Above(x, 4) == 0
    ensures x < 0x1_0000 ==> Above(x, 2) == 0
  {
    var x1 := x / 0x100;
    var x2 := x1 / 0x100;
    var x3 := x2 / 0x100;
    assert x1 < 0x100_0000 && x2 < 0x1_0000 && x3 < 0x100;
    assert Above(x, 4) == Above(x1, 3) == Above(x2, 2) == Above(x3, 1) == Above(x3 / 0x100, 0);
    assert Above(x, 2) == Above(x1, 1) == Above(x2, 0);
  }

  /** Distinct flows have distinct keys: the packed image loses nothing of the 5-tuple. */
  lemma KeyInjective(f: FlowId, g: FlowId)
    ensures f.Key() == g.Key() <==> f == g
  {
    if f.Key() == g.Key() {
      var x, y := f.Key(), g.Key();
      assert x[0..4] == Bytes(f.srcaddr, 4) && y[0..4] == Bytes(g.srcaddr, 4);
      assert x[4..8] == Bytes(f.dstaddr, 4) && y[4..8] == Bytes(g.dstaddr, 4);
      assert x[8..10] == Bytes(f.srcport, 2) && y[8..10] == Bytes(g.srcport, 2);
      assert x[10..12] == Bytes(f.dstport, 2) && y[10..12] == Bytes(g.dstport, 2);
      assert x[12] == f.prot && y[12] == g.prot;
      NothingAbove(f.srcaddr); NothingAbove(g.srcaddr);
      NothingAbove(f.dstaddr); NothingAbove(g.dstaddr);
      NothingAbove(f.srcport); NothingAbove(g.srcport);
      NothingAbove(f.dstport); NothingAbove(g.dstport);
      BytesInjective(f.srcaddr, g.srcaddr, 4);
      BytesInjective(f.dstaddr, g.dstaddr, 4);
      BytesInjective(f.srcport, g.srcport, 2);
      BytesInjective(f.dstport, g.dstport, 2);
    }
  }

  /** The number with these bytes, least significant first. */
  function Number(b: seq<byte>): nat {
    if b == [] then 0 else b[0] + 0x100 * Number(b[1..])
  }

  lemma LowByte(x: byte, n: nat)
    ensures (x + 0x100 * n) % 0x100 == x && (x + 0x100 * n) / 0x100 == n
  {
  }

  lemma {:induction false} BytesOfNumber(b: seq<byte>)
    ensures Bytes(Number(b), |b|) == b
  {
    if b != [] {
      BytesOfNumber(b[1..]);
      LowByte(b[0], Number(b[1..]));
      assert b == [b[0]] + b[1..];
    }
  }

  lemma NumberFits(b: seq<byte>)
    ensures |b| == 2 ==> Number(b) < 0x1_0000
    ensures |b| == 4 ==> Number(b) < TWO_TO_THE_32
  {
    if |b| == 2 {
      assert Number(b) == b[0] + 0x100 * Number(b[1..]) && Number(b[1..]) == b[1] + 0x100 * Number(b[1..][1..]);
    } else if |b| == 4 {
      var b1, b2, b3 := b[1..], b[1..][1..], b[1..][1..][1..];
      assert Number(b) == b[0] + 0x100 * Number(b1) && Number(b1) == b1[0] + 0x100 * Number(b2);
      assert Number(b2) == b2[0] + 0x100 * Number(b3) && Number(b3) == b3[0] + 0x100 * Number(b3[1..]);
    }
  }

  /** Conversely every image of that length is the key of a flow. */
  lemma FlowOfKey(k: seq<byte>) returns (f: FlowId)
    requires |k| == KEY_LEN
    ensures f.Key() == k
  {
    NumberFits(k[0..4]); NumberFits(k[4..8]); NumberFits(k[8..10]); NumberFits(k[10..12]);
    f := FlowId(Number(k[0..4]), Number(k[4..8]), Number(k[8..10]), Number(k[10..12]), k[12]);
    BytesOfNumber(k[0..4]); BytesOfNumber(k[4..8]); BytesOfNumber(k[8..10]); BytesOfNumber(k[10..12]);
    assert k == k[0..4] + k[4..8] + k[8..10] + k[10..12] + [k[12]];
  }

  lemma FourBytes(x: nat)
    ensures Bytes(x, 4) == [x % 0x100, x / 0x100 % 0x100, x / 0x100 / 0x100 % 0x100, x / 0x100 / 0x100 / 0x100 % 0x100]
  {
    var x1 := x / 0x100;
    var x2 := x1 / 0x100;
    assert Bytes(x2, 2) == [x2 % 0x100] + ([x2 / 0x100 % 0x100] + Bytes(x2 / 0x100 / 0x100, 0));
    assert Bytes(x, 4) == [x % 0x100] + ([x1 % 0x100] + Bytes(x2, 2));
  }

  lemma TwoBytesOf(x: nat)
    ensures Bytes(x, 2) == [x % 0x100, x / 0x100 % 0x100]
  {
    assert Bytes(x, 2) == [x % 0x100] + ([x / 0x100 % 0x100] + Bytes(x / 0x100 / 0x100, 0));
  }

  /** Where the fields are in the image: addresses, ports and protocol, each with its low byte first. */
  lemma KeyLayout(f: FlowId)
    ensures var k := f.Key();
      && k[0] == f.srcaddr % 0x100 && k[1] == f.srcaddr / 0x100 % 0x100
      && k[2] == f.srcaddr / 0x100 / 0x100 % 0x100 && k[3] == f.srcaddr / 0x100 / 0x100 / 0x100
      && k[4] == f.dstaddr % 0x100 && k[5] == f.dstaddr / 0x100 % 0x100
      && k[6] == f.dstaddr / 0x100 / 0x100 % 0x100 && k[7] == f.dstaddr / 0x100 / 0x100 / 0x100
      && k[8] == f.srcport % 0x100 && k[9] == f.srcport / 0x100
      && k[10] == f.dstport % 0x100 && k[11] == f.dstport / 0x100
      && k[12] == f.prot
  {
    FourBytes(f.srcaddr);
    FourBytes(f.dstaddr);
    TwoBytesOf(f.srcport);
    TwoBytesOf(f.dstport);
  }
}
