/** A reader of ETI(NI) frames that follows clause 5 of ETS 300 799, and what it finds in a generated frame. */
module EtiReader {
  import opened Modular
  import opened Crc
  import opened ByteValues
  import opened CrcCheck
  import opened FibTables
  import opened FibInvariant
  import opened EtiFrame
  import opened Slicing

  type Frame6144 = f: seq<Byte> | |f| == 6144 witness Padding(6144)

  function At(f: Frame6144, i: nat): (r: nat)
    requires i < 6144
    ensures r < 256
  {
    ByteValue(f[i])
  }

  // ----- frame characterization -----

  function Fct(f: Frame6144): nat {
    At(f, 4)
  }

  function Nst(f: Frame6144): (r: nat)
    ensures r < 128
  {
    At(f, 5) % 128
  }

  function Fp(f: Frame6144): nat {
    At(f, 6) / 32
  }

  function Mid(f: Frame6144): nat {
    At(f, 6) / 8 % 4
  }

  function Fl(f: Frame6144): nat {
    256 * (At(f, 6) % 8) + At(f, 7)
  }

  // ----- stream characterization -----

  function Scid(f: Frame6144, i: nat): nat
    requires i < 128
  {
    At(f, 8 + 4 * i) / 4
  }

  function Sad(f: Frame6144, i: nat): nat
    requires i < 128
  {
    256 * (At(f, 8 + 4 * i) % 4) + At(f, 9 + 4 * i)
  }

  function Tpl(f: Frame6144, i: nat): nat
    requires i < 128
  {
    At(f, 10 + 4 * i) / 4
  }

  function Stl(f: Frame6144, i: nat): nat
    requires i < 128
  {
    256 * (At(f, 10 + 4 * i) % 4) + At(f, 11 + 4 * i)
  }

  /** Where the data of stream i starts: behind the header, the FIC and the streams before it. */
  function StreamAt(f: Frame6144, i: nat): nat
    requires i <= 128
  {
    if i == 0 then 108 + 4 * Nst(f) else StreamAt(f, i - 1) + 8 * Stl(f, i - 1)
  }

  function WordAt(f: Frame6144, i: nat): Word
    requires i + 1 < 6144
  {
    Word(f[i].hi, f[i].lo, f[i + 1].hi, f[i + 1].lo)
  }

  // ----- where things are -----

  ghost predicate Built(f: Frame6144, ss: Streams, c: Count, fib: seq<Byte>, data: seq<seq<Byte>>) {
    && Carried(ss) && DataFor(ss, data) && |fib| == 96 && c.lo < 250
    && 116 + 4 * |ss| + BytesOf(ss) <= 6144 && f == Frame(ss, c, fib, data)
  }

  lemma BuiltIs(f: Frame6144, ss: Streams, c: Count, fib: seq<Byte>, data: seq<seq<Byte>>)
    requires Built(f, ss, c, fib, data)
    ensures Carried(ss) && DataFor(ss, data) && AllRated(ss) && |fib| == 96 && c.lo < 250
    ensures 116 + 4 * |ss| + BytesOf(ss) <= 6144
    ensures var mst := Mst(ss, fib, data);
            f == Header(ss, c) + mst + Tail(mst) + Padding(6144 - (116 + 4 * |ss| + BytesOf(ss)))
  {
    hide Carried, Header, Mst, Tail, Padding, BytesOf;
  }

  lemma HeaderAt(f: Frame6144, ss: Streams, c: Count, fib: seq<Byte>, data: seq<seq<Byte>>)
    requires Built(f, ss, c, fib, data)
    ensures AllRated(ss) && |ss| <= 64
    ensures f[0..12 + 4 * |ss|] == Header(ss, c)
  {
    hide *;
    BuiltIs(f, ss, c, fib, data);
    RoomLeft(ss);
    CarriedFew(ss);
    var mst := Mst(ss, fib, data);
    Four(Header(ss, c), mst, Tail(mst), Padding(6144 - (116 + 4 * |ss| + BytesOf(ss))));
  }

  lemma CarriedFew(ss: Streams)
    requires Carried(ss)
    ensures |ss| <= 64
  {
  }

  lemma MstAt(f: Frame6144, ss: Streams, c: Count, fib: seq<Byte>, data: seq<seq<Byte>>)
    requires Built(f, ss, c, fib, data)
    ensures DataFor(ss, data) && AllRated(ss) && |fib| == 96 && 116 + 4 * |ss| + BytesOf(ss) <= 6144
    ensures f[12 + 4 * |ss|..108 + 4 * |ss| + BytesOf(ss)] == Mst(ss, fib, data)
    ensures f[108 + 4 * |ss| + BytesOf(ss)..110 + 4 * |ss| + BytesOf(ss)] == WordBytes(CrcOf(Mst(ss, fib, data)))
  {
    hide *;
    BuiltIs(f, ss, c, fib, data);
    RoomLeft(ss);
    var n, m := 4 * |ss|, BytesOf(ss);
    var mst := Mst(ss, fib, data);
    FrameParts(f, Header(ss, c), mst, Tail(mst), Padding(6144 - (116 + n + m)), 12 + n, 96 + m);
    TailStart(mst);
  }

  lemma FrameParts(f: seq<Byte>, h: seq<Byte>, mst: seq<Byte>, tail: seq<Byte>, pad: seq<Byte>, a: nat, b: nat)
    requires f == h + mst + tail + pad && |h| == a && |mst| == b && |tail| == 8
    ensures f[a..a + b] == mst && f[a + b..a + b + 2] == tail[0..2]
  {
    hide *;
    Four(h, mst, tail, pad);
    Inner(f, a + b, tail, 0, 2);
  }

  lemma TailStart(mst: seq<Byte>)
    ensures Tail(mst)[0..2] == WordBytes(CrcOf(mst))
  {
    hide CrcOf, FF;
  }

  lemma HeaderParts(ss: Streams, c: Count)
    requires AllRated(ss)
    ensures Header(ss, c)[4..10 + 4 * |ss|] == LiData(ss, c)
    ensures Header(ss, c)[10 + 4 * |ss|..12 + 4 * |ss|] == WordBytes(CrcOf(LiData(ss, c)))
  {
    hide *;
    HeaderIs(ss, c);
    Three(Sync(c), LiData(ss, c), WordBytes(CrcOf(LiData(ss, c))));
  }

  lemma LiParts(ss: Streams, c: Count)
    requires AllRated(ss)
    ensures LiData(ss, c)[0..4] == Fc(c, |ss|, WordsOf(ss) + |ss| + 25)
    ensures LiData(ss, c)[4..4 + 4 * |ss|] == AllStc(ss)
  {
    hide *;
    HeaderIs(ss, c);
    Three(Fc(c, |ss|, WordsOf(ss) + |ss| + 25), AllStc(ss), [FF, FF]);
  }

  lemma HeaderIs(ss: Streams, c: Count)
    requires AllRated(ss)
    ensures Header(ss, c) == Sync(c) + LiData(ss, c) + WordBytes(CrcOf(LiData(ss, c)))
    ensures LiData(ss, c) == Fc(c, |ss|, WordsOf(ss) + |ss| + 25) + AllStc(ss) + [FF, FF]
  {
    hide CrcOf, FF, Sync, WordBytes, Fc, AllStc, WordsOf, AllRated;
  }

  /** The header of a built frame, piece by piece. */
  lemma Pieces(f: Frame6144, ss: Streams, c: Count, fib: seq<Byte>, data: seq<seq<Byte>>)
    requires Built(f, ss, c, fib, data)
    ensures AllRated(ss) && |ss| <= 64
    ensures var n := 4 * |ss|;
            && f[4..10 + n] == LiData(ss, c)
            && f[10 + n..12 + n] == WordBytes(CrcOf(LiData(ss, c)))
            && f[4..8] == Fc(c, |ss|, WordsOf(ss) + |ss| + 25)
            && f[8..8 + n] == AllStc(ss)
  {
    hide *;
    HeaderAt(f, ss, c, fib, data);
    HeaderParts(ss, c);
    LiParts(ss, c);
    var h, n := Header(ss, c), 4 * |ss|;
    Inner(f, 0, h, 4, 10 + n);
    Inner(f, 0, h, 10 + n, 12 + n);
    Inner(f, 4, LiData(ss, c), 0, 4);
    Inner(f, 4, LiData(ss, c), 4, 4 + n);
  }

  lemma {:induction false} StcAt(ss: Streams, i: nat)
    requires AllRated(ss) && i < |ss|
    ensures AllStc(ss)[4 * i..4 * i + 4] == Stc(ss[i])
  {
    hide Stc, Rated;
    var n := |ss| - 1;
    if i < n {
      StcAt(ss[..n], i);
      assert AllStc(ss)[4 * i..4 * i + 4] == AllStc(ss[..n])[4 * i..4 * i + 4];
    }
  }

  // ----- what the reader finds -----

  lemma FcFields(b: seq<Byte>, c: Count, n: nat, fl: nat)
    requires b == Fc(c, n, fl) && c.lo < 250 && n < 128 && fl < 2048
    ensures ByteValue(b[0]) == c.lo && ByteValue(b[1]) == 128 + n
    ensures ByteValue(b[2]) / 32 == Phase(c) && ByteValue(b[2]) / 8 % 4 == 1
    ensures 256 * (ByteValue(b[2]) % 8) + ByteValue(b[3]) == fl
  {
    hide ByteOf, ByteValue, Phase;
    var x := 32 * Phase(c) + 8 + fl / 256 % 8;
    ValueOfByte(c.lo);
    ValueOfByte(128 + n);
    ValueOfByte(x);
    ValueOfByte(fl % 256);
    Split(Phase(c), 8 + fl / 256, 32);
    Split(4 * Phase(c) + 1, fl / 256, 8);
  }

  /** The reader finds the count, the number of streams, the phase, mode I with FIC, and the frame length. */
  lemma FcRead(f: Frame6144, ss: Streams, c: Count, fib: seq<Byte>, data: seq<seq<Byte>>)
    requires Built(f, ss, c, fib, data)
    ensures AllRated(ss)
    ensures Fct(f) == c.lo && Nst(f) == |ss| && Fp(f) == Phase(c) && Mid(f) == 1 && At(f, 5) / 128 == 1
    ensures Fl(f) == WordsOf(ss) + |ss| + 25
  {
    hide *;
    BuiltIs(f, ss, c, fib, data);
    Pieces(f, ss, c, fib, data);
    RoomLeft(ss);
    var b := f[4..8];
    FcFields(b, c, |ss|, WordsOf(ss) + |ss| + 25);
    Elements4(f, 4, b);
    Split(1, |ss|, 128);
    FcIs(f);
  }

  lemma FcIs(f: Frame6144)
    ensures Fct(f) == ByteValue(f[4]) && Nst(f) == ByteValue(f[5]) % 128 && At(f, 5) == ByteValue(f[5])
    ensures Fp(f) == ByteValue(f[6]) / 32 && Mid(f) == ByteValue(f[6]) / 8 % 4
    ensures Fl(f) == 256 * (ByteValue(f[6]) % 8) + ByteValue(f[7])
  {
    hide ByteValue;
  }

  lemma StcFields(b: seq<Byte>, k: Keyed<nat, SubChannel>)
    requires k.key < 64 && k.value.start <= UNITS && Rated(k.value) && k.value.bitRate * 3 / 8 < 1024
    requires b == Stc(k)
    ensures ByteValue(b[0]) / 4 == k.key && 256 * (ByteValue(b[0]) % 4) + ByteValue(b[1]) == k.value.start
    ensures ByteValue(b[2]) / 4 == TplOf(k.value) && 256 * (ByteValue(b[2]) % 4) + ByteValue(b[3]) == k.value.bitRate * 3 / 8
  {
    hide ByteOf, ByteValue;
    var e := k.value;
    var stl := e.bitRate * 3 / 8;
    ValueOfByte(4 * k.key + e.start / 256 % 4);
    ValueOfByte(e.start % 256);
    ValueOfByte(4 * TplOf(e) + stl / 256 % 4);
    ValueOfByte(stl % 256);
    Split(k.key, e.start / 256, 4);
    Split(TplOf(e), stl / 256, 4);
  }

  /** The length of one stream fits its 10 bits. */
  lemma StreamLength(ss: Streams, i: nat)
    requires Carried(ss) && i < |ss|
    ensures ss[i].key < 64 && ss[i].value.start <= UNITS && Rated(ss[i].value)
    ensures ss[i].value.bitRate * 3 / 8 < 1024
  {
  }

  /** The reader finds, for every stream, its sub-channel, its start address, its protection and its length. */
  lemma StreamRead(f: Frame6144, ss: Streams, c: Count, fib: seq<Byte>, data: seq<seq<Byte>>, i: nat)
    requires Built(f, ss, c, fib, data) && i < |ss|
    ensures i < 128 && AllRated(ss) && 0 <= ss[i].value.bitRate
    ensures var e := ss[i].value;
            && Scid(f, i) == ss[i].key && Sad(f, i) == e.start && Tpl(f, i) == TplOf(e)
            && Stl(f, i) == e.bitRate * 3 / 8
  {
    hide *;
    BuiltIs(f, ss, c, fib, data);
    Pieces(f, ss, c, fib, data);
    StcAt(ss, i);
    StreamLength(ss, i);
    RatedIs(ss[i].value);
    Inner(f, 8, AllStc(ss), 4 * i, 4 * i + 4);
    Elements4(f, 8 + 4 * i, Stc(ss[i]));
    StcFields(Stc(ss[i]), ss[i]);
    StcIs(f, i);
  }

  lemma RatedIs(e: SubChannel)
    requires Rated(e)
    ensures 0 <= e.bitRate && e.bitRate % 8 == 0
  {
  }

  lemma StcIs(f: Frame6144, i: nat)
    requires i < 128
    ensures var p := 8 + 4 * i;
            && Scid(f, i) == ByteValue(f[p]) / 4 && Sad(f, i) == 256 * (ByteValue(f[p]) % 4) + ByteValue(f[p + 1])
            && Tpl(f, i) == ByteValue(f[p + 2]) / 4 && Stl(f, i) == 256 * (ByteValue(f[p + 2]) % 4) + ByteValue(f[p + 3])
  {
    hide ByteValue;
  }

  // ----- the data of the streams -----

  /** The bytes of the streams before stream i. */
  function Before(ss: Streams, i: nat): nat
    requires AllRated(ss) && i <= |ss|
  {
    BytesOf(ss[..i])
  }

  lemma BeforeStep(ss: Streams, i: nat)
    requires AllRated(ss) && i < |ss|
    ensures 0 <= ss[i].value.bitRate && 8 * (ss[i].value.bitRate * 3 / 8) == StreamBytes(ss[i].value)
    ensures Before(ss, i + 1) == Before(ss, i) + StreamBytes(ss[i].value)
  {
    hide Rated;
    assert ss[..i + 1][..i] == ss[..i];
    RatedIs(ss[i].value);
  }

  lemma BeforeEnds(ss: Streams)
    requires AllRated(ss)
    ensures Before(ss, 0) == 0 && Before(ss, |ss|) == BytesOf(ss)
  {
    assert ss[..|ss|] == ss;
  }

  /** The reader computes the right place for every stream. */
  lemma {:induction false} StreamPlace(f: Frame6144, ss: Streams, c: Count, fib: seq<Byte>, data: seq<seq<Byte>>, i: nat)
    requires Built(f, ss, c, fib, data) && i <= |ss|
    ensures i <= 128 && AllRated(ss)
    ensures StreamAt(f, i) == 108 + 4 * |ss| + Before(ss, i)
  {
    hide *;
    BuiltIs(f, ss, c, fib, data);
    CarriedFew(ss);
    StreamAtIs(f, i);
    if i > 0 {
      StreamPlace(f, ss, c, fib, data, i - 1);
      StreamRead(f, ss, c, fib, data, i - 1);
      BeforeStep(ss, i - 1);
    } else {
      FcRead(f, ss, c, fib, data);
      BeforeEnds(ss);
    }
  }

  lemma StreamAtIs(f: Frame6144, i: nat)
    requires i <= 128
    ensures StreamAt(f, i) == if i == 0 then 108 + 4 * Nst(f) else StreamAt(f, i - 1) + 8 * Stl(f, i - 1)
  {
    hide Stl, Nst;
  }

  lemma {:induction false} JoinedAt(ss: Streams, data: seq<seq<Byte>>, i: nat)
    requires DataFor(ss, data) && i < |ss|
    ensures Before(ss, i) + |data[i]| <= BytesOf(ss)
    ensures Joined(ss, data)[Before(ss, i)..Before(ss, i) + |data[i]|] == data[i]
  {
    hide Rated, StreamBytes, BytesOf;
    var n := |ss| - 1;
    var a, b := Joined(ss[..n], data[..n]), data[n];
    BeforeStep(ss, n);
    BeforeEnds(ss);
    Three(a, b, []);
    assert Joined(ss, data) == a + b + [];
    if i < n {
      JoinedAt(ss[..n], data[..n], i);
      assert ss[..n][..i] == ss[..i];
      Inner(Joined(ss, data), 0, a, Before(ss, i), Before(ss, i) + |data[i]|);
    }
  }

  /** The protection of a stream, from the number in the frame alone. */
  lemma ProtectionRead(tpl: nat, e: SubChannel)
    requires Rated(e) && tpl == TplOf(e)
    ensures tpl / 16 == 1 <==> e.form.Short?
    ensures tpl / 32 == 1 <==> e.form.Long?
    ensures e.form.Short? ==> tpl % 16 + 1 == e.level
    ensures e.form.Long? ==> tpl % 4 == e.level % 4 && tpl / 4 % 8 == e.form.option
  {
  }

  /** A reader that uses nothing but the frame recovers, for every stream, its sub-channel, start address, protection and
      data. */
  lemma StreamRecovered(f: Frame6144, ss: Streams, c: Count, fib: seq<Byte>, data: seq<seq<Byte>>, i: nat)
    requires Built(f, ss, c, fib, data) && i < |ss|
    ensures i < Nst(f) && |data| == |ss|
    ensures Scid(f, i) == ss[i].key && Sad(f, i) == ss[i].value.start && Stl(f, i) == ss[i].value.bitRate * 3 / 8
    ensures Tpl(f, i) / 16 == 1 <==> ss[i].value.form.Short?
    ensures Tpl(f, i) / 32 == 1 <==> ss[i].value.form.Long?
    ensures ss[i].value.form.Short? ==> Tpl(f, i) % 16 + 1 == ss[i].value.level
    ensures ss[i].value.form.Long? ==>
              Tpl(f, i) % 4 == ss[i].value.level % 4 && Tpl(f, i) / 4 % 8 == ss[i].value.form.option
    ensures StreamAt(f, i) + 8 * Stl(f, i) <= 6144
    ensures f[StreamAt(f, i)..StreamAt(f, i) + 8 * Stl(f, i)] == data[i]
  {
    hide *;
    BuiltIs(f, ss, c, fib, data);
    FcRead(f, ss, c, fib, data);
    StreamRead(f, ss, c, fib, data, i);
    StreamLength(ss, i);
    ProtectionRead(Tpl(f, i), ss[i].value);
    StreamPlace(f, ss, c, fib, data, i);
    BeforeStep(ss, i);
    DataLength(ss, data, i);
    MstAt(f, ss, c, fib, data);
    JoinedAt(ss, data, i);
    MstIs(ss, fib, data);
    var mst, p := Mst(ss, fib, data), Before(ss, i);
    Inner(mst, 96, Joined(ss, data), p, p + |data[i]|);
    Inner(f, 12 + 4 * |ss|, mst, 96 + p, 96 + p + |data[i]|);
  }

  lemma DataLength(ss: Streams, data: seq<seq<Byte>>, i: nat)
    requires DataFor(ss, data) && i < |ss|
    ensures |data| == |ss| && 0 <= ss[i].value.bitRate && |data[i]| == StreamBytes(ss[i].value)
  {
  }

  lemma MstIs(ss: Streams, fib: seq<Byte>, data: seq<seq<Byte>>)
    requires DataFor(ss, data) && |fib| == 96
    ensures Mst(ss, fib, data)[0..96] == fib && Mst(ss, fib, data)[96..96 + BytesOf(ss)] == Joined(ss, data)
  {
    hide Joined, BytesOf;
    Three(fib, Joined(ss, data), []);
    assert Mst(ss, fib, data) == fib + Joined(ss, data) + [];
  }

  lemma WordAtIs(f: Frame6144, i: nat, w: Word)
    requires i + 2 <= 6144 && f[i..i + 2] == WordBytes(w)
    ensures WordAt(f, i) == w
  {
    assert f[i] == f[i..i + 2][0] && f[i + 1] == f[i..i + 2][1];
  }

  /** The frame as a whole: the FIC is in its place, the frame length leads from the stream characterization exactly to
      the end of the last stream, and both CRCs are right. */
  lemma FrameConsistent(f: Frame6144, ss: Streams, c: Count, fib: seq<Byte>, data: seq<seq<Byte>>)
    requires Built(f, ss, c, fib, data)
    ensures Nst(f) == |ss| && 12 + 4 * Nst(f) + 96 <= 6144
    ensures f[12 + 4 * Nst(f)..12 + 4 * Nst(f) + 96] == fib
    ensures 8 + 4 * Fl(f) == StreamAt(f, Nst(f)) <= 6136
    ensures WordAt(f, 10 + 4 * Nst(f)) == CrcOf(f[4..10 + 4 * Nst(f)])
    ensures 12 + 4 * Nst(f) <= 8 + 4 * Fl(f)
    ensures WordAt(f, 8 + 4 * Fl(f)) == CrcOf(f[12 + 4 * Nst(f)..8 + 4 * Fl(f)])
  {
    hide *;
    BuiltIs(f, ss, c, fib, data);
    FcRead(f, ss, c, fib, data);
    StreamPlace(f, ss, c, fib, data, |ss|);
    BeforeEnds(ss);
    Pieces(f, ss, c, fib, data);
    MstAt(f, ss, c, fib, data);
    MstIs(ss, fib, data);
    var mst := Mst(ss, fib, data);
    Inner(f, 12 + 4 * |ss|, mst, 0, 96);
    WordAtIs(f, 10 + 4 * |ss|, CrcOf(LiData(ss, c)));
    WordAtIs(f, 8 + 4 * Fl(f), CrcOf(mst));
  }

  /** The reader finds the true CIF count: its lower part always, its phase if and only if the received upper part is in
      range or happens to be a multiple of 4. */
  lemma CountRead(f: Frame6144, ss: Streams, hi: nat, lo: nat, minor: nat, fib: seq<Byte>, data: seq<seq<Byte>>)
    requires Built(f, ss, Advance(hi, lo, minor), fib, data) && lo < 256 && minor < 4
    ensures var exact := 250 * hi + lo + minor;
            var h := if lo + minor >= 250 then hi + 1 else hi;
            && Fct(f) == exact % 5000 % 250
            && (Fp(f) == exact % 5000 % 8 <==> h <= 20 || h % 4 == 0)
  {
    hide *;
    FcRead(f, ss, Advance(hi, lo, minor), fib, data);
    CountTrue(hi, lo, minor);
    Mod250(250 * hi + lo + minor);
  }

  lemma Mod250(x: nat)
    ensures x % 5000 % 250 == x % 250
  {
    var q, r := x / 5000, x % 5000;
    var p, l := r / 250, r % 250;
    assert x == 250 * (20 * q + p) + l;
    Split(20 * q + p, l, 250);
  }

  /** Synchronization alternates with the frame count; behind the CRC of the streams come two reserved bytes, an unused
      time stamp and the padding. */
  lemma FillersRead(f: Frame6144, ss: Streams, c: Count, fib: seq<Byte>, data: seq<seq<Byte>>)
    requires Built(f, ss, c, fib, data)
    ensures At(f, 0) == 0xFF && [At(f, 1), At(f, 2), At(f, 3)] ==
            if Fct(f) % 2 == 1 then [0xF8, 0xC5, 0x49] else [0x07, 0x3A, 0xB6]
    ensures 16 + 4 * Fl(f) <= 6144
    ensures forall i :: 10 + 4 * Fl(f) <= i < 16 + 4 * Fl(f) ==> At(f, i) == 0xFF
    ensures forall i :: 16 + 4 * Fl(f) <= i < 6144 ==> At(f, i) == 0x55
  {
    hide *;
    BuiltIs(f, ss, c, fib, data);
    FcRead(f, ss, c, fib, data);
    HeaderAt(f, ss, c, fib, data);
    HeaderIs(ss, c);
    var h, mst := Header(ss, c), Mst(ss, fib, data);
    var tail, n := Tail(mst), 6144 - (116 + 4 * |ss| + BytesOf(ss));
    Three(Sync(c), LiData(ss, c), WordBytes(CrcOf(LiData(ss, c))));
    Inner(f, 0, h, 0, 4);
    Elements4(f, 0, Sync(c));
    SyncValues(c);
    AtIs(f, 0);
    AtIs(f, 1);
    AtIs(f, 2);
    AtIs(f, 3);
    var p := 108 + 4 * |ss| + BytesOf(ss);
    assert 8 + 4 * Fl(f) == p;
    forall i | p + 2 <= i < p + 8
      ensures At(f, i) == 0xFF
    {
      assert f[i] == tail[i - p];
      TailFill(mst, i - p);
      AtIs(f, i);
    }
    forall i | p + 8 <= i < 6144
      ensures At(f, i) == 0x55
    {
      assert f[i] == Padding(n)[i - (p + 8)];
      PaddingValue(n, i - (p + 8));
      AtIs(f, i);
    }
  }

  lemma AtIs(f: Frame6144, i: nat)
    requires i < 6144
    ensures At(f, i) == ByteValue(f[i])
  {
  }

  lemma SyncValues(c: Count)
    ensures ByteValue(Sync(c)[0]) == 0xFF
    ensures [ByteValue(Sync(c)[1]), ByteValue(Sync(c)[2]), ByteValue(Sync(c)[3])] ==
            if c.lo % 2 == 1 then [0xF8, 0xC5, 0x49] else [0x07, 0x3A, 0xB6]
  {
    hide ByteOf, ByteValue;
    ValueOfByte(0xFF);
    ValueOfByte(0xF8);
    ValueOfByte(0xC5);
    ValueOfByte(0x49);
    ValueOfByte(0x07);
    ValueOfByte(0x3A);
    ValueOfByte(0xB6);
  }

  lemma TailFill(mst: seq<Byte>, i: nat)
    requires 2 <= i < 8
    ensures ByteValue(Tail(mst)[i]) == 0xFF
  {
    hide ByteOf, ByteValue, CrcOf;
    ValueOfByte(0xFF);
  }

  lemma PaddingValue(n: nat, i: nat)
    requires i < n
    ensures ByteValue(Padding(n)[i]) == 0x55
  {
    hide ByteOf, ByteValue;
    ValueOfByte(0x55);
  }
}
