/** The ETI(NI) frame of one CIF (clause 5 of ETS 300 799): its layout, and what a reader of the frame recovers. */
module EtiFrame {
  import opened Crc
  import opened ByteValues
  import opened CrcCheck
  import opened FibTables
  import opened FibInvariant

  type Streams = seq<Keyed<nat, SubChannel>>

  // ----- what can be carried -----

  /** Streams of a legal configuration, all of a supported protection profile. */
  ghost predicate Carried(ss: Streams) {
    && Inside(ss) && Disjoint(ss) && Coded(ss) && |ss| <= 64
    && forall i :: 0 <= i < |ss| ==> Supported(ss[i].value)
  }

  /** Bytes per CIF: 24 ms at the bit rate. */
  function StreamBytes(e: SubChannel): nat
    requires 0 <= e.bitRate
  {
    e.bitRate * 24 / 8
  }

  ghost predicate AllRated(ss: Streams) {
    forall i :: 0 <= i < |ss| ==> ss[i].key < 64 && ss[i].value.start <= UNITS && Rated(ss[i].value)
  }

  /** Bytes and frame-length words of all streams. */
  function BytesOf(ss: Streams): (r: nat)
    requires AllRated(ss)
  {
    if ss == [] then 0 else BytesOf(ss[..|ss| - 1]) + StreamBytes(ss[|ss| - 1].value)
  }

  function WordsOf(ss: Streams): (r: nat)
    requires AllRated(ss)
    ensures 4 * r == BytesOf(ss)
  {
    if ss == [] then 0
    else
      RateWords(ss[|ss| - 1].value.bitRate);
      WordsOf(ss[..|ss| - 1]) + ss[|ss| - 1].value.bitRate * 3 / 4
  }

  lemma RateWords(b: int)
    requires b % 8 == 0
    ensures 4 * (b * 3 / 4) == b * 24 / 8
  {
    var q := b / 8;
    assert b == 8 * q;
  }

  lemma {:induction false} BytesBound(ss: Streams)
    requires AllRated(ss)
    ensures 5 * BytesOf(ss) <= 32 * Total(ss)
  {
    if ss != [] {
      BytesBound(ss[..|ss| - 1]);
    }
  }

  /** The streams of a legal configuration leave room in the frame, and their length fits its 11 bits. */
  lemma RoomLeft(ss: Streams)
    requires Carried(ss)
    ensures AllRated(ss)
    ensures BytesOf(ss) <= 5529 && 116 + 4 * |ss| + BytesOf(ss) <= 6144
    ensures |ss| < 128 && WordsOf(ss) + |ss| + 25 < 2048
  {
    hide Rated, Total, BytesOf, Disjoint;
    RatedStreams(ss);
    BytesBound(ss);
    TotalBound(ss);
  }

  lemma RatedStreams(ss: Streams)
    requires Carried(ss)
    ensures AllRated(ss)
  {
    hide Rated, Supported;
  }

  // ----- the CIF counter -----

  datatype Count = Count(hi: nat, lo: nat)

  /** _init_eti: the count of CIF minor of a transmission frame. The upper part saturates. */
  function Advance(hi: nat, lo: nat, minor: nat): Count {
    var l := lo + minor;
    var l' := if l >= 250 then l % 250 else l;
    var h := if l >= 250 then hi + 1 else hi;
    Count(if h >= 20 then 20 else h, l')
  }

  function Phase(c: Count): (r: nat)
    ensures r < 8
  {
    (c.hi * 250 + c.lo) % 8
  }

  lemma Mod5000(x: nat)
    ensures x % 5000 % 8 == x % 8
  {
    var q, r := x / 5000, x % 5000;
    assert x == 8 * (625 * q) + r;
  }

  lemma Quarter(h: nat, l: nat)
    ensures (250 * h + l) % 8 == (5000 + l) % 8 <==> h % 4 == 0
  {
    var k, r := h / 4, h % 4;
    assert 250 * h + l == 8 * (125 * k) + (250 * r + l);
    assert (250 * h + l) % 8 == (250 * r + l) % 8;
  }

  /** For any received count and any CIF of a transmission frame, the lower part is the true count modulo 250; the phase
      is the true count, modulo 5000, modulo 8 if and only if the upper part stays in its range or is a multiple of 4. */
  lemma CountTrue(hi: nat, lo: nat, minor: nat)
    requires lo < 256 && minor < 4
    ensures var c := Advance(hi, lo, minor);
            var exact := 250 * hi + lo + minor;
            var h := if lo + minor >= 250 then hi + 1 else hi;
            && c.lo == exact % 250
            && (Phase(c) == exact % 5000 % 8 <==> h <= 20 || h % 4 == 0)
  {
    var exact := 250 * hi + lo + minor;
    var h := if lo + minor >= 250 then hi + 1 else hi;
    var l := exact - 250 * h;
    assert 0 <= l < 250 && exact % 250 == l;
    Mod5000(exact);
    if h > 20 {
      Quarter(h, l);
    }
  }

  // ----- layout -----

  const FF := ByteOf(0xFF)

  function WordBytes(w: Word): (r: seq<Byte>)
    ensures |r| == 2
  {
    [HighByte(w), LowByte(w)]
  }

  /** Error level and frame synchronization, alternating with the count. */
  function Sync(c: Count): (r: seq<Byte>)
    ensures |r| == 4
  {
    if c.lo % 2 == 1 then [FF, ByteOf(0xF8), ByteOf(0xC5), ByteOf(0x49)]
    else [FF, ByteOf(0x07), ByteOf(0x3A), ByteOf(0xB6)]
  }

  /** Frame count, FIC flag and number of streams, phase, mode I and frame length. */
  function Fc(c: Count, n: nat, fl: nat): (r: seq<Byte>)
    ensures |r| == 4
  {
    [ByteOf(c.lo), ByteOf(128 + n), ByteOf(32 * Phase(c) + 8 + fl / 256 % 8), ByteOf(fl % 256)]
  }

  /** Type and protection level of a stream. */
  function TplOf(e: SubChannel): int {
    if e.form.Short? then 16 + (e.level - 1) else 32 + e.level
  }

  /** Sub-channel id, start address, protection and length in 64-bit words. */
  function Stc(k: Keyed<nat, SubChannel>): (r: seq<Byte>)
    requires k.key < 64 && k.value.start <= UNITS && Rated(k.value)
    ensures |r| == 4
  {
    var e, stl := k.value, k.value.bitRate * 3 / 8;
    [ByteOf(4 * k.key + e.start / 256 % 4), ByteOf(e.start % 256), ByteOf(4 * TplOf(e) + stl / 256 % 4), ByteOf(stl % 256)]
  }

  function AllStc(ss: Streams): (r: seq<Byte>)
    requires AllRated(ss)
    ensures |r| == 4 * |ss|
  {
    if ss == [] then [] else AllStc(ss[..|ss| - 1]) + Stc(ss[|ss| - 1])
  }

  /** The part of the header its CRC protects. */
  function LiData(ss: Streams, c: Count): (r: seq<Byte>)
    requires AllRated(ss)
    ensures |r| == 4 * |ss| + 6
  {
    Fc(c, |ss|, WordsOf(ss) + |ss| + 25) + AllStc(ss) + [FF, FF]
  }

  function Header(ss: Streams, c: Count): (r: seq<Byte>)
    requires AllRated(ss)
    ensures |r| == 4 * |ss| + 12
  {
    Sync(c) + LiData(ss, c) + WordBytes(CrcOf(LiData(ss, c)))
  }

  ghost predicate DataFor(ss: Streams, data: seq<seq<Byte>>) {
    && AllRated(ss) && |data| == |ss|
    && forall i :: 0 <= i < |ss| ==> |data[i]| == StreamBytes(ss[i].value)
  }

  function Joined(ss: Streams, data: seq<seq<Byte>>): (r: seq<Byte>)
    requires DataFor(ss, data)
    ensures |r| == BytesOf(ss)
  {
    if ss == [] then [] else Joined(ss[..|ss| - 1], data[..|ss| - 1]) + data[|ss| - 1]
  }

  /** Fast information channel and streams. */
  function Mst(ss: Streams, fib: seq<Byte>, data: seq<seq<Byte>>): (r: seq<Byte>)
    requires DataFor(ss, data) && |fib| == 96
    ensures |r| == 96 + BytesOf(ss)
  {
    fib + Joined(ss, data)
  }

  /** CRC, reserved bytes and an unused time stamp. */
  function Tail(mst: seq<Byte>): (r: seq<Byte>)
    ensures |r| == 8
  {
    WordBytes(CrcOf(mst)) + [FF, FF, FF, FF, FF, FF]
  }

  function Padding(n: nat): (r: seq<Byte>)
    ensures |r| == n
  {
    seq(n, _ => ByteOf(0x55))
  }

  function Frame(ss: Streams, c: Count, fib: seq<Byte>, data: seq<seq<Byte>>): (r: seq<Byte>)
    requires DataFor(ss, data) && |fib| == 96 && 116 + 4 * |ss| + BytesOf(ss) <= 6144
    ensures |r| == 6144
  {
    var mst := Mst(ss, fib, data);
    Header(ss, c) + mst + Tail(mst) + Padding(6144 - (116 + 4 * |ss| + BytesOf(ss)))
  }
}
