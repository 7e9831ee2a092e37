/** The 32 data bytes of a port slot, packed little-endian as
    port:2 in:8 out:8 pid:4 protocol:1 active:1 risk:1 address:4 padding:3. */
module SlotCodec {
  type byte = x: int | 0 <= x < 256

  const TWO16: nat := 0x1_0000
  const TWO32: nat := 0x1_0000_0000
  const TWO64: nat := 0x1_0000_0000_0000_0000

  type u16 = x: int | 0 <= x < TWO16
  type u32 = x: int | 0 <= x < TWO32
  type u64 = x: int | 0 <= x < TWO64
  type Address = a: seq<byte> | |a| == 4 witness [0, 0, 0, 0]
  type Data = d: seq<byte> | |d| == 32 witness seq(32, _ => 0)

  datatype Entry = Entry(port: u16, bytesIn: u64, bytesOut: u64, pid: u32,
                         protocol: byte, active: byte, risk: byte, address: Address)

  // ---- little-endian integers

  function Pow256(w: nat): (p: nat)
    ensures p > 0
  {
    if w == 0 then 1 else 256 * Pow256(w - 1)
  }

  /** The `w` low-order bytes of `n`, least significant first. */
  function Encode(n: nat, w: nat): (bs: seq<byte>)
    ensures |bs| == w
  {
    seq(w, i requires i >= 0 => n / Pow256(i) % 256)
  }

  function Decode(bs: seq<byte>): (n: nat)
    ensures n < Pow256(|bs|)
  {
    if bs == [] then 0 else bs[0] + 256 * Decode(bs[1..])
  }

  lemma DivideTwice(n: nat, p: nat)
    requires p > 0
    ensures n / (256 * p) == n / 256 / p
  {
    var a, r := n / 256, n % 256;
    var q, s := a / p, a % p;
    assert n == 256 * p * q + (256 * s + r);
    Quotient(n, 256 * p, q, 256 * s + r);
  }

  lemma AtLeastOne(d: nat, x: int)
    requires x >= 1
    ensures d * x >= d
  {}

  lemma Quotient(n: nat, d: nat, q: nat, r: nat)
    requires n == d * q + r && r < d
    ensures n / d == q
  {
    var k, m := n / d, n % d;
    assert d * k + m == d * q + r;
    assert d * (k - q) == r - m && d * (q - k) == m - r;
    if k < q {
      AtLeastOne(d, q - k);
    } else if k > q {
      AtLeastOne(d, k - q);
    }
  }

  /** The lowest byte comes first, the rest encodes the quotient. */
  lemma EncodeStep(n: nat, w: nat)
    requires w > 0
    ensures Encode(n, w) == [n % 256] + Encode(n / 256, w - 1)
  {
    forall i | 0 <= i < w
      ensures Encode(n, w)[i] == ([n % 256] + Encode(n / 256, w - 1))[i]
    {
      if i > 0 {
        DivideTwice(n, Pow256(i - 1));
      }
    }
  }

  lemma {:induction false} DecodeEncode(n: nat, w: nat)
    requires n < Pow256(w)
    ensures Decode(Encode(n, w)) == n
  {
    if w == 0 {
    } else {
      EncodeStep(n, w);
      DecodeEncode(n / 256, w - 1);
    }
  }

  lemma {:induction false} EncodeDecode(bs: seq<byte>)
    ensures Encode(Decode(bs), |bs|) == bs
  {
    if bs == [] {
    } else {
      EncodeDecode(bs[1..]);
      var n := Decode(bs);
      assert n % 256 == bs[0] && n / 256 == Decode(bs[1..]);
      EncodeStep(n, |bs|);
      assert bs == [bs[0]] + bs[1..];
    }
  }

  lemma Widths()
    ensures Pow256(2) == TWO16 && Pow256(4) == TWO32 && Pow256(8) == TWO64
  {
    assert Pow256(2) == 256 * Pow256(1);
    assert Pow256(4) == 256 * 256 * Pow256(2);
    assert Pow256(6) == 256 * 256 * Pow256(4);
    assert Pow256(8) == 256 * 256 * Pow256(6);
  }

  // ---- the packed record

  function Pack(e: Entry): Data {
    Encode(e.port, 2) + Encode(e.bytesIn, 8) + Encode(e.bytesOut, 8) + Encode(e.pid, 4)
    + [e.protocol, e.active, e.risk] + e.address + [0, 0, 0]
  }

  function Unpack(d: Data): Entry {
    Widths();
    Entry(Decode(d[0..2]), Decode(d[2..10]), Decode(d[10..18]), Decode(d[18..22]),
          d[22], d[23], d[24], d[25..29])
  }

  lemma TwoBytes(n: u16)
    ensures Encode(n, 2) == [n % 0x100, n / 0x100]
  {
    assert Pow256(1) == 0x100;
  }

  lemma FourBytes(n: u32)
    ensures Encode(n, 4) == [n % 0x100, n / 0x100 % 0x100, n / 0x1_0000 % 0x100, n / 0x100_0000]
  {
    assert Pow256(1) == 0x100 && Pow256(2) == 0x1_0000 && Pow256(3) == 0x100_0000;
  }

  lemma EightBytes(n: u64)
    ensures Encode(n, 8) == [n % 0x100, n / 0x100 % 0x100, n / 0x1_0000 % 0x100, n / 0x100_0000 % 0x100,
                             n / 0x1_0000_0000 % 0x100, n / 0x100_0000_0000 % 0x100, n / 0x1_0000_0000_0000 % 0x100,
                             n / 0x100_0000_0000_0000]
  {
    assert Pow256(1) == 0x100 && Pow256(2) == 0x1_0000 && Pow256(3) == 0x100_0000;
    assert Pow256(4) == 0x1_0000_0000 && Pow256(5) == 0x100_0000_0000;
    assert Pow256(6) == 0x1_0000_0000_0000 && Pow256(7) == 0x100_0000_0000_0000;
  }

  /** Where the fields are: little-endian numbers and single bytes at their offsets. */
  lemma PackLayout(e: Entry)
    ensures var d, i, o, p := Pack(e), e.bytesIn, e.bytesOut, e.pid;
            && d[0..2] == [e.port % 0x100, e.port / 0x100]
            && d[2..10] == [i % 0x100, i / 0x100 % 0x100, i / 0x1_0000 % 0x100, i / 0x100_0000 % 0x100,
                            i / 0x1_0000_0000 % 0x100, i / 0x100_0000_0000 % 0x100, i / 0x1_0000_0000_0000 % 0x100,
                            i / 0x100_0000_0000_0000]
            && d[10..18] == [o % 0x100, o / 0x100 % 0x100, o / 0x1_0000 % 0x100, o / 0x100_0000 % 0x100,
                             o / 0x1_0000_0000 % 0x100, o / 0x100_0000_0000 % 0x100, o / 0x1_0000_0000_0000 % 0x100,
                             o / 0x100_0000_0000_0000]
            && d[18..22] == [p % 0x100, p / 0x100 % 0x100, p / 0x1_0000 % 0x100, p / 0x100_0000]
            && d[22] == e.protocol && d[23] == e.active && d[24] == e.risk
            && d[25..29] == e.address && d[29..32] == [0, 0, 0]
  {
    hide Encode;
    var d := Pack(e);
    TwoBytes(e.port);
    EightBytes(e.bytesIn);
    EightBytes(e.bytesOut);
    FourBytes(e.pid);
    assert d[0..2] == Encode(e.port, 2);
    assert d[2..10] == Encode(e.bytesIn, 8);
    assert d[10..18] == Encode(e.bytesOut, 8);
    assert d[18..22] == Encode(e.pid, 4);
  }

  /** Unpacking inverts packing, field by field. */
  lemma UnpackPack(e: Entry)
    ensures Unpack(Pack(e)) == e
  {
    Widths();
    var d := Pack(e);
    assert d[0..2] == Encode(e.port, 2);
    assert d[2..10] == Encode(e.bytesIn, 8);
    assert d[10..18] == Encode(e.bytesOut, 8);
    assert d[18..22] == Encode(e.pid, 4);
    assert d[25..29] == e.address;
    DecodeEncode(e.port, 2);
    DecodeEncode(e.bytesIn, 8);
    DecodeEncode(e.bytesOut, 8);
    DecodeEncode(e.pid, 4);
  }

  /** Packing inverts unpacking on every record whose padding is zero, and on no other. */
  lemma PackUnpack(d: Data)
    ensures Pack(Unpack(d)) == d <==> d[29..] == [0, 0, 0]
  {
    Widths();
    EncodeDecode(d[0..2]);
    EncodeDecode(d[2..10]);
    EncodeDecode(d[10..18]);
    EncodeDecode(d[18..22]);
    var p := Pack(Unpack(d));
    assert p == d[0..2] + d[2..10] + d[10..18] + d[18..22] + [d[22], d[23], d[24]] + d[25..29] + [0, 0, 0];
    assert p[..29] == d[..29];
    assert p == p[..29] + [0, 0, 0];
    assert p[29..] == [0, 0, 0];
    assert d == d[..29] + d[29..];
  }
}
