/** The generator of ETI(NI) frames: one frame buffer, filled from left to right. */
module EtiGeneratorClass {
  import opened Crc
  import opened ByteValues
  import opened CrcCheck
  import opened FibTables
  import opened FibParser
  import opened FibInvariant
  import opened Pigeonhole
  import opened EtiFrame
  import opened EtiReader

  // ----- which configurations can be sent -----

  ghost predicate AllKnown(c: Config, list: seq<nat>) {
    forall k :: 0 <= k < |list| ==> Known(c.s1, list[k])
  }

  /** get_sub_channel_info. */
  function Info(c: Config, id: nat): SubChannel
    requires Known(c.s1, id)
  {
    c.s1[Lookup(c.s1, id)].value
  }

  function StreamsOf(c: Config, list: seq<nat>): (r: Streams)
    requires AllKnown(c, list)
    ensures |r| == |list| && forall k :: 0 <= k < |r| ==> r[k] == Keyed(list[k], Info(c, list[k]))
  {
    seq(|list|, k requires 0 <= k < |list| => Keyed(list[k], Info(c, list[k])))
  }

  /** get_sub_channel_id_list. */
  function IdList(s: Streams): (r: seq<nat>)
    ensures |r| == |s| && forall k :: 0 <= k < |r| ==> r[k] == s[k].key
  {
    seq(|s|, k requires 0 <= k < |s| => s[k].key)
  }

  lemma LookupAt(s: Streams, k: nat)
    requires KeysDistinct(s) && k < |s|
    ensures Known(s, s[k].key) && Lookup(s, s[k].key) == k
  {
    hide Lookup;
  }

  /** The list is taken at the start of a transmission frame. The entries looked up later are the same ones, even if the
      configuration has grown since. */
  lemma ListResolves(a: Config, c: Config)
    requires KeysDistinct(a.s1) && a.s1 <= c.s1
    ensures AllKnown(c, IdList(a.s1)) && StreamsOf(c, IdList(a.s1)) == a.s1
  {
    hide Lookup;
    forall k | 0 <= k < |a.s1|
      ensures Known(c.s1, IdList(a.s1)[k]) && Lookup(c.s1, IdList(a.s1)[k]) == k
    {
      LookupAt(a.s1, k);
      LookupExtends(a.s1, c.s1, a.s1[k].key);
    }
  }

  /** Every configuration the FIB decoder can reach, with supported protection profiles only, can be sent. */
  lemma ReachableCarried(es: seq<Event>)
    requires forall i :: 0 <= i < |Run(es).curr.s1| ==> Supported(Run(es).curr.s1[i].value)
    ensures Carried(Run(es).curr.s1) && KeysDistinct(Run(es).curr.s1)
  {
    hide Run, Supported, Rated;
    RunInv(es);
    var s := Run(es).curr.s1;
    var ids := IdList(s);
    forall i, j | 0 <= i < j < |ids|
      ensures ids[i] != ids[j]
    {
      assert s[i].key != s[j].key;
    }
    AtMost(ids, 64);
  }

  // ----- filling the frame -----

  class EtiGenerator {
    const vector: array<Byte>

    ghost predicate Valid() {
      vector.Length == 6144
    }

    constructor ()
      ensures Valid() && fresh(vector)
    {
      vector := new Byte[6144](_ => ByteOf(0));
    }

    lemma Size()
      requires Valid()
      ensures vector.Length == 6144
    {
    }

    method Append(fill: nat, s: seq<Byte>) returns (end: nat)
      requires Valid() && fill + |s| <= 6144
      modifies vector
      ensures end == fill + |s| && vector[..end] == old(vector[..fill]) + s
    {
      for k := 0 to |s|
        invariant vector[..fill] == old(vector[..fill])
        invariant forall j :: 0 <= j < k ==> vector[fill + j] == s[j]
      {
        vector[fill + k] := s[k];
      }
      end := fill + |s|;
      assert vector[..end] == vector[..fill] + vector[fill..end];
      assert vector[fill..end] == s;
    }

    /** _init_eti: synchronization, frame and stream characterization, header CRC. */
    method InitEti(c: Config, list: seq<nat>, hi: nat, lo: nat, minor: nat) returns (fill: nat)
      requires Valid() && AllKnown(c, list) && Carried(StreamsOf(c, list))
      modifies vector
      ensures AllRated(StreamsOf(c, list))
      ensures fill == 12 + 4 * |list| <= 6144
      ensures vector[..fill] == Header(StreamsOf(c, list), Advance(hi, lo, minor))
    {
      hide *;
      Size();
      ghost var ss := StreamsOf(c, list);
      RoomLeft(ss);
      CarriedFew(ss);
      var l, h := lo + minor, hi;
      if l >= 250 {
        l, h := l % 250, h + 1;
      }
      if h >= 20 {
        h := 20;
      }
      var count := Count(h, l);
      AdvanceIs(hi, lo, minor);
      fill := Append(0, Sync(count));
      var fl := FrameLength(c, list);
      HeaderIs(ss, count);
      fill := Append(fill, Fc(count, |list|, fl));
      fill := AppendStc(c, list, fill);
      fill := Append(fill, [FF, FF]);
      ghost var li := LiData(ss, count);
      assert vector[..fill] == Sync(count) + li;
      assert vector[4..fill] == li by {
        assert vector[4..fill] == vector[..fill][4..];
      }
      var crc := CrcOf(vector[4..fill]);
      fill := Append(fill, WordBytes(crc));
    }

    /** The sum over the streams in 32-bit words, with their descriptions, the end of the header and the FIC. */
    method FrameLength(c: Config, list: seq<nat>) returns (fl: nat)
      requires AllKnown(c, list) && AllRated(StreamsOf(c, list))
      ensures fl == WordsOf(StreamsOf(c, list)) + |list| + 25
    {
      hide Lookup, Rated, BytesOf;
      ghost var ss := StreamsOf(c, list);
      fl := 0;
      var nst := 0;
      NoWords(ss);
      for k := 0 to |list|
        invariant nst == k && fl == WordsOf(ss[..k])
      {
        var data := Info(c, list[k]);
        WordsStep(ss, k);
        nst := nst + 1;
        fl := fl + data.bitRate * 3 / 4;
      }
      assert ss[..|list|] == ss;
      fl := fl + nst + 1 + 24;
    }

    method AppendStc(c: Config, list: seq<nat>, start: nat) returns (fill: nat)
      requires Valid() && AllKnown(c, list) && AllRated(StreamsOf(c, list)) && start + 4 * |list| <= 6144
      modifies vector
      ensures fill == start + 4 * |list|
      ensures vector[..fill] == old(vector[..start]) + AllStc(StreamsOf(c, list))
    {
      hide Lookup, Rated, Stc;
      ghost var ss := StreamsOf(c, list);
      fill := start;
      NoStc(ss);
      for k := 0 to |list|
        invariant fill == start + 4 * k
        invariant vector[..fill] == old(vector[..start]) + AllStc(ss[..k])
      {
        StcStep(ss, k);
        fill := Append(fill, Stc(Keyed(list[k], Info(c, list[k]))));
      }
      assert ss[..|list|] == ss;
    }

    /** _process_cif: the decoded bytes of the streams, one after the other. */
    method ProcessCif(c: Config, list: seq<nat>, data: seq<seq<Byte>>, start: nat) returns (fill: nat)
      requires Valid() && AllKnown(c, list) && DataFor(StreamsOf(c, list), data)
      requires start + BytesOf(StreamsOf(c, list)) <= 6144
      modifies vector
      ensures fill == start + BytesOf(StreamsOf(c, list))
      ensures vector[..fill] == old(vector[..start]) + Joined(StreamsOf(c, list), data)
    {
      hide Lookup, Rated, StreamBytes, Joined, BytesOf;
      ghost var ss := StreamsOf(c, list);
      fill := start;
      NothingJoined(ss, data);
      for k := 0 to |list|
        invariant fill == start + Before(ss, k) <= 6144
        invariant vector[..fill] == old(vector[..start]) + Joined(ss[..k], data[..k])
      {
        JoinedStep(ss, data, k);
        fill := Append(fill, data[k]);
      }
      assert ss[..|list|] == ss && data[..|list|] == data;
    }

    /** The end of process_block: header, FIC, streams, CRC, reserved bytes, time stamp and padding. */
    method MakeFrame(c: Config, list: seq<nat>, hi: nat, lo: nat, minor: nat, fib: seq<Byte>, data: seq<seq<Byte>>)
      requires Valid() && AllKnown(c, list) && Carried(StreamsOf(c, list)) && DataFor(StreamsOf(c, list), data)
      requires |fib| == 96 && lo + minor < 500
      modifies vector
      ensures Built(vector[..], StreamsOf(c, list), Advance(hi, lo, minor), fib, data)
    {
      hide *;
      Size();
      ghost var ss, count := StreamsOf(c, list), Advance(hi, lo, minor);
      RoomLeft(ss);
      var fill := InitEti(c, list, hi, lo, minor);
      var base := fill;
      fill := Append(fill, fib);
      fill := ProcessCif(c, list, data, fill);
      ghost var mst := Mst(ss, fib, data);
      MstJoins(ss, fib, data);
      assert vector[..fill] == Header(ss, count) + mst;
      assert vector[base..fill] == mst by {
        assert vector[base..fill] == vector[..fill][base..];
      }
      var crc := CrcOf(vector[base..fill]);
      fill := Append(fill, WordBytes(crc) + [FF, FF, FF, FF, FF, FF]);
      TailIs(mst);
      fill := Append(fill, Padding(6144 - fill));
      assert vector[..6144] == vector[..];
      FrameIs(ss, count, fib, data);
      BuiltFrame(vector[..], ss, hi, lo, minor, fib, data);
    }
  }

  // ----- one step further -----

  lemma AdvanceIs(hi: nat, lo: nat, minor: nat)
    ensures var l := lo + minor;
            var h := if l >= 250 then hi + 1 else hi;
            Advance(hi, lo, minor) == Count(if h >= 20 then 20 else h, if l >= 250 then l % 250 else l)
  {
  }

  lemma NoWords(ss: Streams)
    requires AllRated(ss)
    ensures AllRated(ss[..0]) && WordsOf(ss[..0]) == 0
  {
  }

  lemma WordsStep(ss: Streams, k: nat)
    requires AllRated(ss) && k < |ss|
    ensures AllRated(ss[..k]) && AllRated(ss[..k + 1]) && 0 <= ss[k].value.bitRate
    ensures WordsOf(ss[..k + 1]) == WordsOf(ss[..k]) + ss[k].value.bitRate * 3 / 4
  {
    hide Rated, BytesOf;
    RatedIs(ss[k].value);
    assert ss[..k + 1][..k] == ss[..k];
  }

  lemma NoStc(ss: Streams)
    requires AllRated(ss)
    ensures AllRated(ss[..0]) && AllStc(ss[..0]) == []
  {
  }

  lemma StcStep(ss: Streams, k: nat)
    requires AllRated(ss) && k < |ss|
    ensures AllRated(ss[..k]) && AllRated(ss[..k + 1])
    ensures AllStc(ss[..k + 1]) == AllStc(ss[..k]) + Stc(ss[k])
  {
    hide Rated, Stc;
    assert ss[..k + 1][..k] == ss[..k];
  }

  lemma NothingJoined(ss: Streams, data: seq<seq<Byte>>)
    requires DataFor(ss, data)
    ensures DataFor(ss[..0], data[..0]) && Joined(ss[..0], data[..0]) == [] && Before(ss, 0) == 0
  {
  }

  lemma DataPrefix(ss: Streams, data: seq<seq<Byte>>, k: nat)
    requires DataFor(ss, data) && k <= |ss|
    ensures DataFor(ss[..k], data[..k]) && AllRated(ss)
  {
    hide Rated, StreamBytes;
  }

  lemma JoinedStep(ss: Streams, data: seq<seq<Byte>>, k: nat)
    requires DataFor(ss, data) && k < |ss|
    ensures DataFor(ss[..k], data[..k]) && DataFor(ss[..k + 1], data[..k + 1])
    ensures Joined(ss[..k + 1], data[..k + 1]) == Joined(ss[..k], data[..k]) + data[k]
    ensures Before(ss, k + 1) == Before(ss, k) + |data[k]| <= BytesOf(ss)
  {
    hide Rated, StreamBytes, BytesOf, DataFor, Joined, Before, AllRated;
    DataPrefix(ss, data, k);
    DataPrefix(ss, data, k + 1);
    DataLength(ss, data, k);
    BeforeStep(ss, k);
    JoinedAt(ss, data, k);
    var s, d := ss[..k + 1], data[..k + 1];
    assert s[..k] == ss[..k] && d[..k] == data[..k];
    JoinedLast(s, d);
  }

  lemma JoinedLast(ss: Streams, data: seq<seq<Byte>>)
    requires DataFor(ss, data) && ss != []
    ensures var n := |ss| - 1;
            DataFor(ss[..n], data[..n]) && Joined(ss, data) == Joined(ss[..n], data[..n]) + data[n]
  {
    hide Rated, StreamBytes, BytesOf;
  }

  lemma MstJoins(ss: Streams, fib: seq<Byte>, data: seq<seq<Byte>>)
    requires DataFor(ss, data) && |fib| == 96
    ensures Mst(ss, fib, data) == fib + Joined(ss, data)
  {
  }

  lemma TailIs(mst: seq<Byte>)
    ensures Tail(mst) == WordBytes(CrcOf(mst)) + [FF, FF, FF, FF, FF, FF]
  {
  }

  lemma FrameIs(ss: Streams, c: Count, fib: seq<Byte>, data: seq<seq<Byte>>)
    requires DataFor(ss, data) && |fib| == 96 && 116 + 4 * |ss| + BytesOf(ss) <= 6144
    ensures var mst := Mst(ss, fib, data);
            Frame(ss, c, fib, data) ==
            Header(ss, c) + mst + Tail(mst) + Padding(6144 - (116 + 4 * |ss| + BytesOf(ss)))
  {
    hide Header, Mst, Tail, Padding, BytesOf;
  }

  lemma BuiltFrame(f: Frame6144, ss: Streams, hi: nat, lo: nat, minor: nat, fib: seq<Byte>, data: seq<seq<Byte>>)
    requires Carried(ss) && DataFor(ss, data) && |fib| == 96 && lo + minor < 500
    requires 116 + 4 * |ss| + BytesOf(ss) <= 6144 && f == Frame(ss, Advance(hi, lo, minor), fib, data)
    ensures Built(f, ss, Advance(hi, lo, minor), fib, data)
  {
    hide Carried, Frame, BytesOf, DataFor;
  }
}
