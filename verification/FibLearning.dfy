/** What a receiver learns from a FIB: the whole way from the transmitted bits to the tables of both configurations. */
module FibLearning {
  import opened ProtectionTable
  import opened FibTables
  import opened FibParser
  import opened FibLayout

  // ----- what is sent -----

  /** One entry of a FIG as an ensemble provider sends it; late is what lies 40 bits behind the organization field. */
  datatype Entry =
    | ShortEntry(id: nat, start: nat, sw: bool, index: nat)
    | LongEntry(id: nat, start: nat, option: nat, level: nat, size: nat)
    | ServiceEntry(id: nat, rfa: nat, ca: nat, cs: seq<Component>)
    | PacketEntry(id: nat, rfa: nat, packet: PacketMode, rfu: nat, late: nat)
    | GlobalEntry(id: nat, rfa: nat, scids: nat, global: Global, rfu: nat)
    | FecEntry(id: nat, fec: nat)

  /** The FIG extension that carries the entry. */
  function Extension(e: Entry): nat {
    match e
    case ShortEntry(_, _, _, _) => 1
    case LongEntry(_, _, _, _, _) => 1
    case ServiceEntry(_, _, _, _) => 2
    case PacketEntry(_, _, _, _, _) => 3
    case GlobalEntry(_, _, _, _, _) => 8
    case FecEntry(_, _) => 14
  }

  predicate Proper(e: Entry) {
    (e.ShortEntry? ==> e.index < 64) && (e.LongEntry? ==> e.level < 4)
  }

  /** The entry lies at bit address o, in a FIG with programme (false) or data services. */
  ghost predicate EntryLaid(d: Bits, o: nat, pd: bool, e: Entry) {
    && Proper(e)
    && match e
       case ShortEntry(id, start, sw, index) => Lays(d, o, ShortLayout(id, start, sw, index))
       case LongEntry(id, start, option, level, size) => Lays(d, o, LongLayout(id, start, option, level, size))
       case ServiceEntry(id, rfa, ca, cs) =>
         Lays(d, o, ServiceLayout(pd, id, rfa, ca, |cs|)) && Sent(d, o + (if pd then 40 else 24), pd, cs)
       case PacketEntry(id, rfa, packet, rfu, late) =>
         && Lays(d, o, PacketLayout(id, rfa, packet, rfu))
         && (packet.caOrgFlag ==> Lays(d, o + 80, Then(16, late, End)))
       case GlobalEntry(id, rfa, scids, global, rfu) =>
         global.pd == pd && Lays(d, o, GlobalLayout(id, rfa, scids, global, rfu))
       case FecEntry(id, fec) => Lays(d, o, FecLayout(id, fec))
  }

  function EntryBytes(e: Entry, pd: bool): (n: nat)
    ensures n > 0
  {
    match e
    case ShortEntry(_, _, _, _) => 3
    case LongEntry(_, _, _, _, _) => 4
    case ServiceEntry(_, _, _, cs) => (if pd then 5 else 3) + 2 * |cs|
    case PacketEntry(_, _, packet, _, _) => if packet.caOrgFlag then 7 else 5
    case GlobalEntry(_, _, _, global, _) =>
      (if pd then 4 else 2) + (if global.target.ToSubChannel? then 2 else 3) + (if global.ext then 1 else 0)
    case FecEntry(_, _) => 1
  }

  // ----- what it means -----

  /** The sub-channel described by an entry of FIG 0/1. */
  function Channel(e: Entry): SubChannel
    requires Proper(e) && (e.ShortEntry? || e.LongEntry?)
  {
    match e
    case ShortEntry(id, start, sw, index) =>
      var row := UepRow(index);
      SubChannel(start, row.units, row.level, row.bitRate, Short(sw, index))
    case LongEntry(id, start, option, level, size) =>
      SubChannel(start, size, if option == 1 then level + 4 else level, EepRate(option, level, size), Long(option))
  }

  /** A new sub-channel that leaves the CIF or claims capacity units of another one. */
  ghost predicate Refused(c: Config, e: Entry)
    requires Proper(e)
  {
    (e.ShortEntry? || e.LongEntry?) && !Held(c.s1, e.id) && Impossible(Channel(e), c.s1)
  }

  /** The tables after an entry that is not refused. */
  ghost function Learned(c: Config, e: Entry): Config
    requires Proper(e)
  {
    match e
    case ShortEntry(id, _, _, _) => c.(s1 := Added(c.s1, id, Channel(e)))
    case LongEntry(id, _, _, _, _) => c.(s1 := Added(c.s1, id, Channel(e)))
    case ServiceEntry(id, _, _, cs) => c.(s2 := AddedFrom(c.s2, id, 0, cs, Unset))
    case PacketEntry(id, _, packet, _, late) =>
      c.(s3 := Added(c.s3, id, packet.(caOrg := if packet.caOrgFlag then late else 0xFFFF)))
    case GlobalEntry(id, _, scids, global, _) => c.(s8 := Added(c.s8, (id, scids), global))
    case FecEntry(id, fec) => c.(s14 := Added(c.s14, id, fec))
  }

  /** An entry that is held is as long as the one now sent: the parser skips by the length of the entry it holds. */
  ghost predicate InStep(c: Config, e: Entry) {
    && (e.ShortEntry? || e.LongEntry? ==>
          forall i :: 0 <= i < |c.s1| && c.s1[i].key == e.id ==> c.s1[i].value.form.Short? == e.ShortEntry?)
    && (e.PacketEntry? ==>
          forall i :: 0 <= i < |c.s3| && c.s3[i].key == e.id ==> c.s3[i].value.caOrgFlag == e.packet.caOrgFlag)
  }

  // ----- one entry -----

  lemma ChannelLearned(d: Bits, o: nat, used: nat, pd: bool, c: Config, e: Entry)
    requires (e.ShortEntry? || e.LongEntry?) && EntryLaid(d, o, pd, e) && InStep(c, e)
    ensures var r := Sub1(d, o, used, c);
            if Refused(c, e) then r.restart else r == Parsed(used + EntryBytes(e, pd), Learned(c, e), false)
  {
    hide Lays, Sub1, UepRow, EepRate, Impossible, ShortLayout, LongLayout, GetBits, Held;
    AddedIs(c.s1, e.id, Channel(e));
    match e
    case ShortEntry(id, start, sw, index) =>
      if Held(c.s1, id) {
        ShortRead(d, o, id, start, sw, index);
        HeldSkipped(d, o, used, id, true, c);
      } else {
        ShortStored(d, o, used, id, start, sw, index, c);
      }
    case LongEntry(id, start, option, level, size) =>
      if Held(c.s1, id) {
        LongRead(d, o, id, start, option, level, size);
        HeldSkipped(d, o, used, id, false, c);
      } else {
        LongStored(d, o, used, id, start, option, level, size, c);
      }
  }

  /** An entry of any kind, at its place in a FIG. */
  lemma EntryLearned(d: Bits, at: nat, used: nat, pd: bool, c: Config, e: Entry)
    requires EntryLaid(d, at + 8 * used, pd, e) && InStep(c, e)
    ensures var r := SubParse(Extension(e), d, at, used, pd, c);
            if Refused(c, e) then r.restart else r == Parsed(used + EntryBytes(e, pd), Learned(c, e), false)
  {
    hide Lays, Sub1, Sub2, Sub3, Sub8, Sub14, Added, AddedFrom, Sent, Channel, Held, Impossible,
         ServiceLayout, PacketLayout, GlobalLayout, FecLayout, ShortLayout, LongLayout;
    var o := at + 8 * used;
    match e
    case ShortEntry(_, _, _, _) => ChannelLearned(d, o, used, pd, c, e);
    case LongEntry(_, _, _, _, _) => ChannelLearned(d, o, used, pd, c, e);
    case ServiceEntry(id, rfa, ca, cs) => ServiceStored(d, o, used, pd, id, rfa, ca, cs, c);
    case PacketEntry(id, rfa, packet, rfu, late) => PacketStored(d, o, used, id, rfa, packet, rfu, late, c);
    case GlobalEntry(id, rfa, scids, global, rfu) => GlobalStored(d, o, used, id, rfa, scids, global, rfu, c);
    case FecEntry(id, fec) => FecStored(d, o, used, id, fec, c);
  }

  lemma HeldAt<K, V>(s: seq<Keyed<K, V>>, k: K, i: nat)
    requires KeysDistinct(s) && i < |s| && s[i].key == k
    ensures Lookup(s, k) == i
  {
    hide Lookup;
  }

  lemma ChannelEnds(d: Bits, o: nat, used: nat, pd: bool, c: Config, e: Entry)
    requires (e.ShortEntry? || e.LongEntry?) && EntryLaid(d, o, pd, e) && KeysDistinct(c.s1)
    ensures Sub1(d, o, used, c).used == used + EntryBytes(e, pd) <==> InStep(c, e)
  {
    hide Lays, UepRow, EepRate, ShortLayout, LongLayout, GetBits, KeysDistinct, Lookup, ParseSubChannel, CollidesAny;
    match e {
      case ShortEntry(id, start, sw, index) => ShortRead(d, o, id, start, sw, index);
      case LongEntry(id, start, option, level, size) => LongRead(d, o, id, start, option, level, size);
    }
    forall i | 0 <= i < |c.s1| && c.s1[i].key == e.id
      ensures Lookup(c.s1, e.id) == i
    {
      HeldAt(c.s1, e.id, i);
    }
  }

  lemma PacketEnds(d: Bits, o: nat, used: nat, pd: bool, c: Config, e: Entry)
    requires e.PacketEntry? && EntryLaid(d, o, pd, e) && KeysDistinct(c.s3)
    ensures Sub3(d, o, used, c).used == used + EntryBytes(e, pd) <==> InStep(c, e)
  {
    hide Lays, GetBits, KeysDistinct, Lookup, Insert, Flag;
    var fs := PacketLayout(e.id, e.rfa, e.packet, e.rfu);
    Next(d, o, fs);
    Next(d, o + 12, fs.rest);
    Next(d, o + 15, fs.rest.rest);
    FlagIs(d, o + 15, e.packet.caOrgFlag);
    forall i | 0 <= i < |c.s3| && c.s3[i].key == e.id
      ensures Lookup(c.s3, e.id) == i
    {
      HeldAt(c.s3, e.id, i);
    }
  }

  /** The parser finds the end of an entry if and only if a held entry of that key is as long as the one sent. */
  lemma InStepExactly(d: Bits, at: nat, used: nat, pd: bool, c: Config, e: Entry)
    requires EntryLaid(d, at + 8 * used, pd, e) && KeysDistinct(c.s1) && KeysDistinct(c.s3)
    ensures SubParse(Extension(e), d, at, used, pd, c).used == used + EntryBytes(e, pd) <==> InStep(c, e)
  {
    hide Sub1, Sub2, Sub3, Sub8, Sub14, EntryLaid, KeysDistinct;
    if e.ShortEntry? || e.LongEntry? {
      ChannelEnds(d, at + 8 * used, used, pd, c, e);
    } else if e.PacketEntry? {
      PacketEnds(d, at + 8 * used, used, pd, c, e);
    } else {
      EntryLearned(d, at, used, pd, c, e);
    }
  }

  // ----- one FIG -----

  function Bytes(es: seq<Entry>, pd: bool): nat {
    if es == [] then 0 else EntryBytes(es[0], pd) + Bytes(es[1..], pd)
  }

  /** The entries lie one after the other from bit address o on. */
  ghost predicate LaidOut(d: Bits, o: nat, pd: bool, ext: nat, es: seq<Entry>)
    decreases |es|
  {
    es != [] ==>
      && Extension(es[0]) == ext && EntryLaid(d, o, pd, es[0])
      && LaidOut(d, o + 8 * EntryBytes(es[0], pd), pd, ext, es[1..])
  }

  ghost predicate AllProper(es: seq<Entry>) {
    forall i :: 0 <= i < |es| ==> Proper(es[i])
  }

  ghost predicate SomeRefused(c: Config, es: seq<Entry>)
    requires AllProper(es)
    decreases |es|
  {
    es != [] && (Refused(c, es[0]) || SomeRefused(Learned(c, es[0]), es[1..]))
  }

  ghost function LearnedAll(c: Config, es: seq<Entry>): Config
    requires AllProper(es)
    decreases |es|
  {
    if es == [] then c else LearnedAll(Learned(c, es[0]), es[1..])
  }

  ghost predicate AllInStep(c: Config, es: seq<Entry>)
    requires AllProper(es)
    decreases |es|
  {
    es != [] ==> InStep(c, es[0]) && (Refused(c, es[0]) || AllInStep(Learned(c, es[0]), es[1..]))
  }

  lemma {:induction false} LoopLearned(d: Bits, at: nat, used: nat, pd: bool, ext: nat, c: Config, es: seq<Entry>,
                                       log: seq<nat>)
    requires used > 0 && HasLoop(ext) && AllProper(es) && LaidOut(d, at + 8 * used, pd, ext, es) && AllInStep(c, es)
    ensures var r := Loop(ext, d, at, used, used + Bytes(es, pd) - 1, pd, c, log);
            if SomeRefused(c, es) then r.restart else !r.restart && r.config == LearnedAll(c, es)
    decreases |es|
  {
    hide SubParse, Proper, EntryLaid, Extension, EntryBytes, Loop, Refused, Learned, InStep;
    var len := used + Bytes(es, pd) - 1;
    LoopStep(ext, d, at, used, len, pd, c, log);
    if es != [] {
      EntryLearned(d, at, used, pd, c, es[0]);
      if !Refused(c, es[0]) {
        LoopLearned(d, at, used + EntryBytes(es[0], pd), pd, ext, Learned(c, es[0]), es[1..], log + [at + 8 * used]);
      }
    }
  }

  /** FIG 0/0 with the change flags; the FIGs with entries for the current (cn = 0) or the next configuration; and the
      FIGs that concern none of these tables. */
  datatype Fig =
    | Ensemble(len: nat, cn: bool, oe: nat, pd: bool, id: nat, flags: nat, alarm: nat, hi: nat, lo: nat)
    | Entries(ext: nat, cn: bool, oe: nat, pd: bool, es: seq<Entry>)
    | OtherExtension(len: nat, cn: bool, oe: nat, pd: bool, ext: nat)
    | OtherType(kind: nat, len: nat)

  /** The length field: the bytes behind the first one. */
  function Length(f: Fig): nat {
    if f.Entries? then 1 + Bytes(f.es, f.pd) else f.len
  }

  /** Type 0, length, current or next, other ensemble, programme or data, extension. */
  function HeaderLayout(len: nat, cn: bool, oe: nat, pd: bool, ext: nat, rest: Fields): Fields {
    Then(3, 0, Then(5, len, Then(1, Flag(cn), Then(1, oe, Then(1, Flag(pd), Then(5, ext, rest))))))
  }

  /** Ensemble id, change flags, alarm flag, CIF count. */
  function EnsembleLayout(id: nat, flags: nat, alarm: nat, hi: nat, lo: nat): Fields {
    Then(16, id, Then(2, flags, Then(1, alarm, Then(5, hi, Then(8, lo, End)))))
  }

  ghost predicate FigLaid(d: Bits, at: nat, f: Fig) {
    match f
    case Ensemble(len, cn, oe, pd, id, flags, alarm, hi, lo) =>
      Lays(d, at, HeaderLayout(len, cn, oe, pd, 0, EnsembleLayout(id, flags, alarm, hi, lo)))
    case Entries(ext, cn, oe, pd, es) =>
      && ext in {1, 2, 3, 8, 14} && AllProper(es)
      && Lays(d, at, HeaderLayout(Length(f), cn, oe, pd, ext, End)) && LaidOut(d, at + 16, pd, ext, es)
    case OtherExtension(len, cn, oe, pd, ext) =>
      ext !in {0, 1, 2, 3, 8, 14} && Lays(d, at, HeaderLayout(len, cn, oe, pd, ext, End))
    case OtherType(kind, len) =>
      kind != 0 && !(kind == 7 && len == 31) && Lays(d, at, Then(3, kind, Then(5, len, End)))
  }

  ghost predicate FigInStep(st: State, f: Fig) {
    f.Entries? ==> AllProper(f.es) && AllInStep(if f.cn then st.next else st.curr, f.es)
  }

  /** What a FIG does. The next configuration takes over when change flags 3 are followed by 0; impossible content clears
      everything; all else only adds to the tables of one configuration. */
  ghost function After(st: State, f: Fig): State
    requires f.Entries? ==> AllProper(f.es)
  {
    match f
    case Ensemble(_, _, _, _, _, flags, _, _, _) =>
      if st.prevFlags == 3 && flags == 0
      then st.(curr := st.next, next := Config([], [], [], [], []), prevFlags := 0, changes := st.changes + 1)
      else st.(prevFlags := flags)
    case Entries(_, cn, _, _, es) =>
      var c := if cn then st.next else st.curr;
      if SomeRefused(c, es)
      then st.(curr := Config([], [], [], [], []), next := Config([], [], [], [], []), prevFlags := 0, restart := true)
      else if cn then st.(next := LearnedAll(c, es)) else st.(curr := LearnedAll(c, es))
    case OtherExtension(_, _, _, _, _) => st
    case OtherType(_, _) => st
  }

  lemma HeaderRead(d: Bits, at: nat, len: nat, cn: bool, oe: nat, pd: bool, ext: nat, rest: Fields)
    requires Lays(d, at, HeaderLayout(len, cn, oe, pd, ext, rest))
    ensures GetBits(d, at, 3) == 0 && GetBits(d, at + 3, 5) == len && GetBits(d, at + 11, 5) == ext
    ensures d(at + 8) == cn && d(at + 10) == pd && Lays(d, at + 16, rest)
  {
    hide GetBits, Lays, Flag;
    var fs := HeaderLayout(len, cn, oe, pd, ext, rest);
    Next(d, at, fs);
    Next(d, at + 3, fs.rest);
    Next(d, at + 8, fs.rest.rest);
    Next(d, at + 9, fs.rest.rest.rest);
    Next(d, at + 10, fs.rest.rest.rest.rest);
    Next(d, at + 11, fs.rest.rest.rest.rest.rest);
    FlagIs(d, at + 8, cn);
    FlagIs(d, at + 10, pd);
  }

  function Quiet(st: State): State {
    st.(log := [])
  }

  lemma EnsembleLearned(d: Bits, at: nat, st: State, f: Fig)
    requires f.Ensemble? && FigLaid(d, at, f)
    ensures Quiet(FigStep(d, at, st)) == After(Quiet(st), f)
  {
    hide GetBits, Lays, HeaderLayout, EnsembleLayout, Fig0Loop;
    var fs := EnsembleLayout(f.id, f.flags, f.alarm, f.hi, f.lo);
    HeaderRead(d, at, f.len, f.cn, f.oe, f.pd, 0, fs);
    FlagsAt(d, at + 16, f.id, f.flags, f.alarm, f.hi, f.lo);
  }

  lemma FlagsAt(d: Bits, o: nat, id: nat, flags: nat, alarm: nat, hi: nat, lo: nat)
    requires Lays(d, o, EnsembleLayout(id, flags, alarm, hi, lo))
    ensures GetBits(d, o + 16, 2) == flags
  {
    hide GetBits, Lays;
    Next(d, o, EnsembleLayout(id, flags, alarm, hi, lo));
    Next(d, o + 16, EnsembleLayout(id, flags, alarm, hi, lo).rest);
  }

  lemma EntriesLearned(d: Bits, at: nat, st: State, f: Fig)
    requires f.Entries? && FigLaid(d, at, f) && FigInStep(st, f)
    ensures Quiet(FigStep(d, at, st)) == After(Quiet(st), f)
  {
    hide GetBits, Lays, LaidOut, AllInStep, Loop, Bytes, HeaderLayout, AllProper, SomeRefused, LearnedAll, Fig0s0;
    HeaderRead(d, at, Length(f), f.cn, f.oe, f.pd, f.ext, End);
    LoopLearned(d, at, 2, f.pd, f.ext, Selected(st, f.cn), f.es, st.log);
  }

  lemma FigLearned(d: Bits, at: nat, st: State, f: Fig)
    requires FigLaid(d, at, f) && FigInStep(st, f)
    ensures Quiet(FigStep(d, at, st)) == After(Quiet(st), f)
    ensures GetBits(d, at + 3, 5) == Length(f) && !EndMarker(d, at)
  {
    hide GetBits, Lays, LaidOut, AllInStep, Fig0Loop, Bytes, HeaderLayout, AllProper, SomeRefused, LearnedAll, Fig0s0,
         EnsembleLayout;
    match f
    case Ensemble(len, cn, oe, pd, id, flags, alarm, hi, lo) =>
      EnsembleLearned(d, at, st, f);
      HeaderRead(d, at, len, cn, oe, pd, 0, EnsembleLayout(id, flags, alarm, hi, lo));
    case Entries(ext, cn, oe, pd, es) =>
      EntriesLearned(d, at, st, f);
      HeaderRead(d, at, Length(f), cn, oe, pd, ext, End);
    case OtherExtension(len, cn, oe, pd, ext) =>
      HeaderRead(d, at, len, cn, oe, pd, ext, End);
    case OtherType(kind, len) =>
      Next(d, at, Then(3, kind, Then(5, len, End)));
      Next(d, at + 3, Then(5, len, End));
  }

  // ----- one FIB -----

  /** The FIGs lie one after the other from byte p on, up to the end of the FIB or an end marker. */
  ghost predicate Transmitted(d: Bits, p: nat, fs: seq<Fig>)
    decreases |fs|
  {
    if fs == [] then p >= 30 || Lays(d, 8 * p, Then(3, 7, Then(5, 31, End)))
    else p < 30 && FigLaid(d, 8 * p, fs[0]) && Transmitted(d, p + 1 + Length(fs[0]), fs[1..])
  }

  ghost predicate AllFigsInStep(st: State, fs: seq<Fig>)
    decreases |fs|
  {
    fs != [] && !st.restart ==> FigInStep(st, fs[0]) && AllFigsInStep(After(st, fs[0]), fs[1..])
  }

  /** What a FIB does: one FIG after the other, until impossible content is met. */
  ghost function AfterAll(st: State, fs: seq<Fig>): State
    requires AllFigsInStep(st, fs)
    decreases |fs|
  {
    if fs == [] || st.restart then st else AfterAll(After(st, fs[0]), fs[1..])
  }

  lemma {:induction false} FigsLearned(d: Bits, p: nat, st: State, fs: seq<Fig>)
    requires Transmitted(d, p, fs) && AllFigsInStep(Quiet(st), fs) && !st.restart
    ensures Quiet(Figs(d, p, st)) == AfterAll(Quiet(st), fs)
    decreases |fs|
  {
    hide GetBits, Lays, FigLaid, FigInStep, After, FigStep, Figs, EndMarker, Length;
    FigsStep(d, p, st);
    if fs == [] {
      if p < 30 {
        MarkerRead(d, 8 * p);
      }
    } else {
      QuietInStep(st, fs[0]);
      FigLearned(d, 8 * p, st, fs[0]);
      var t := FigStep(d, 8 * p, st);
      if !t.restart {
        FigsLearned(d, p + 1 + Length(fs[0]), t, fs[1..]);
      } else {
        assert AfterAll(Quiet(st), fs) == AfterAll(Quiet(t), fs[1..]);
      }
    }
  }

  lemma QuietInStep(st: State, f: Fig)
    requires FigInStep(Quiet(st), f)
    ensures FigInStep(st, f)
  {
    hide AllProper, AllInStep;
  }

  lemma MarkerRead(d: Bits, at: nat)
    requires Lays(d, at, Then(3, 7, Then(5, 31, End)))
    ensures EndMarker(d, at)
  {
    hide GetBits, Lays;
    Next(d, at, Then(3, 7, Then(5, 31, End)));
    Next(d, at + 3, Then(5, 31, End));
  }

  /** From any state, a FIB of any FIGs: the entries not held yet are appended to the tables of their configuration, as
      sent and in order; the configurations are exchanged exactly when change flags 3 are followed by 0; impossible content
      clears everything and ends the FIB; and nothing else changes. */
  lemma FibLearned(d: Bits, st: State, fs: seq<Fig>)
    requires Transmitted(d, 0, fs) && AllFigsInStep(st.(restart := false, log := []), fs)
    ensures Fib(d, st).(log := []) == AfterAll(st.(restart := false, log := []), fs)
  {
    hide Transmitted, AllFigsInStep, AfterAll, Figs;
    FigsLearned(d, 0, st.(restart := false, log := []), fs);
  }
}
