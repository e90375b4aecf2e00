/** The capacity units of a CIF are never given away twice: what holds of both configurations after any run of FIBs. */
module FibInvariant {
  import opened FibTables
  import opened FibParser
  import opened ProtectionTable
  import opened Pigeonhole

  // ----- the no-overlap rule -----

  ghost predicate Inside(s: seq<Keyed<nat, SubChannel>>) {
    forall i :: 0 <= i < |s| ==> s[i].value.start + s[i].value.size <= UNITS
  }

  /** Two entries share no capacity unit. */
  predicate Apart(c: SubChannel, e: SubChannel) {
    c.size == 0 || e.size == 0 || c.start + c.size <= e.start || e.start + e.size <= c.start
  }

  ghost predicate Disjoint(s: seq<Keyed<nat, SubChannel>>) {
    forall i, j :: 0 <= i < j < |s| ==> Apart(s[i].value, s[j].value)
  }

  /** Protection profiles the receiver knows: the table, and options 0 and 1 of equal error protection. */
  predicate Supported(e: SubChannel) {
    e.form.Short? || e.form.option <= 1
  }

  /** The bit rate is a whole number of bytes per CIF and fits the size; the level of equal error protection tells the
      option. */
  predicate Rated(e: SubChannel) {
    && 0 <= e.bitRate && e.bitRate % 8 == 0 && 15 * e.bitRate <= 32 * e.size
    && if e.form.Short? then 1 <= e.level <= 5 else e.level < 8 && e.level / 4 == e.form.option
  }

  /** Size, level and bit rate are those of the profile. */
  predicate Profiled(e: SubChannel) {
    match e.form
    case Short(_, index) =>
      && index < 64 && e.size == UepRow(index).units
      && e.level == UepRow(index).level && e.bitRate == UepRow(index).bitRate
    case Long(option) =>
      && (option == 0 ==> e.level < 4 && e.bitRate == e.size / EepA(e.level) * 8)
      && (option == 1 ==> 4 <= e.level < 8 && e.bitRate == e.size / EepB(e.level - 4) * 32)
  }

  ghost predicate Coded(s: seq<Keyed<nat, SubChannel>>) {
    forall i :: 0 <= i < |s| ==> s[i].key < 64 && Profiled(s[i].value) && (Supported(s[i].value) ==> Rated(s[i].value))
  }

  ghost predicate Legal(c: Config) {
    && Inside(c.s1) && Disjoint(c.s1) && Coded(c.s1) && KeysDistinct(c.s1)
    && KeysDistinct(c.s2) && KeysDistinct(c.s3) && KeysDistinct(c.s8) && KeysDistinct(c.s14)
  }

  ghost predicate Inv(st: State) {
    Legal(st.curr) && Legal(st.next)
  }

  // ----- each step keeps it -----

  lemma InsertApart(s: seq<Keyed<nat, SubChannel>>, id: nat, e: SubChannel)
    requires Inside(s) && Disjoint(s) && e.start + e.size <= UNITS && !CollidesAny(e, s)
    ensures Inside(Insert(s, id, e)) && Disjoint(Insert(s, id, e))
  {
    hide Lookup;
    var t := Insert(s, id, e);
    forall i, j | 0 <= i < j < |t|
      ensures Apart(t[i].value, t[j].value)
    {
      assert j == |s| ==> !Collides(e, s[i].value);
    }
  }

  lemma ParseCoded(d: Bits, o: nat)
    ensures GetBits(d, o, 6) < 64
    ensures var e := ParseSubChannel(d, o); Profiled(e) && (Supported(e) ==> Rated(e))
  {
    hide GetBits, UepRow, EepA, EepB, TableIndex, ProtectionLevel, Rated;
    IdBelow(d, o);
    if d(o + 16) {
      LongRated(GetBits(d, o + 6, 10), GetBits(d, o + 22, 10), ProtectionLevel(d, o + 20));
    } else {
      ShortRated(GetBits(d, o + 6, 10), TableIndex(d, o + 18), d(o + 17));
    }
  }

  lemma ShortRated(start: nat, i: nat, sw: bool)
    requires i < 64
    ensures var row := UepRow(i); Rated(SubChannel(start, row.units, row.level, row.bitRate, Short(sw, i)))
  {
    hide UepRow;
    UepPays(i);
  }

  lemma LongRated(start: nat, size: nat, level: nat)
    requires level < 4
    ensures Rated(SubChannel(start, size, level, size / EepA(level) * 8, Long(0)))
    ensures Rated(SubChannel(start, size, level + 4, size / EepB(level) * 32, Long(1)))
  {
    hide EepA, EepB;
    EepPays(size, level);
    Multiples(size / EepA(level), size / EepB(level));
  }

  lemma Multiples(a: nat, b: nat)
    ensures a * 8 % 8 == 0 && b * 32 % 8 == 0
  {
    assert b * 32 == (b * 4) * 8;
  }

  lemma IdBelow(d: Bits, o: nat)
    ensures GetBits(d, o, 6) < 64
  {
    assert GetBits(d, o, 6) == TableIndex(d, o);
  }

  lemma InsertCoded(s: seq<Keyed<nat, SubChannel>>, id: nat, e: SubChannel)
    requires Coded(s) && id < 64 && Profiled(e) && (Supported(e) ==> Rated(e))
    ensures Coded(Insert(s, id, e))
  {
    hide Lookup, Supported, Rated, Profiled;
  }

  lemma Sub1Legal(d: Bits, o: nat, used: nat, c: Config)
    requires Legal(c)
    ensures Legal(Sub1(d, o, used, c).config)
  {
    hide GetBits, Lookup, ParseSubChannel, Collides, Insert, Inside, Disjoint, CollidesAny, KeysDistinct, Coded, Rated,
         Profiled;
    var id, e := GetBits(d, o, 6), ParseSubChannel(d, o);
    ParseCoded(d, o);
    InsertCoded(c.s1, id, e);
    InsertKeeps(c.s1, id, e);
    if e.start + e.size <= UNITS && !CollidesAny(e, c.s1) {
      InsertApart(c.s1, id, e);
    }
  }

  lemma {:induction false} ComponentsKeep(d: Bits, o: nat, pd: bool, id: nat, i: nat, n: nat, last: Content,
                                          s: seq<Keyed<(nat, nat), Component>>)
    requires i <= n
    ensures s <= Components(d, o, pd, id, i, n, last, s)
    ensures KeysDistinct(s) ==> KeysDistinct(Components(d, o, pd, id, i, n, last, s))
    decreases n - i
  {
    hide GetBits, Known, Insert, ParseContent, KeysDistinct;
    if i < n {
      if Known(s, (id, i)) {
        ComponentsKeep(d, o + 16, pd, id, i + 1, n, last, s);
      } else {
        var content := ParseContent(d, o, last);
        var e := Component(pd, n, GetBits(d, o, 2), content, d(o + 14), d(o + 15));
        InsertKeeps(s, (id, i), e);
        ComponentsKeep(d, o + 16, pd, id, i + 1, n, content, Insert(s, (id, i), e));
      }
    }
  }

  lemma Sub2Legal(d: Bits, o: nat, used: nat, pd: bool, c: Config)
    requires Legal(c)
    ensures Legal(Sub2(d, o, used, pd, c).config)
  {
    hide GetBits, Components, Inside, Disjoint, KeysDistinct, Coded;
    var w := IdBits(pd);
    ComponentsKeep(d, o + w + 8, pd, GetBits(d, o, w), 0, GetBits(d, o + w + 4, 4), Unset, c.s2);
  }

  lemma Sub3Legal(d: Bits, o: nat, used: nat, c: Config)
    requires Legal(c)
    ensures Legal(Sub3(d, o, used, c).config)
  {
    hide GetBits, Lookup, Insert, Inside, Disjoint, KeysDistinct, Coded;
    var ca := d(o + 15);
    var e := PacketMode(ca, d(o + 16), GetBits(d, o + 18, 6), GetBits(d, o + 24, 6), GetBits(d, o + 30, 10),
                        if ca then GetBits(d, o + 80, 16) else 0xFFFF);
    InsertKeeps(c.s3, GetBits(d, o, 12), e);
  }

  lemma Sub8Legal(d: Bits, o: nat, used: nat, pd: bool, c: Config)
    requires Legal(c)
    ensures Legal(Sub8(d, o, used, pd, c).config)
  {
    hide GetBits, Insert, Inside, Disjoint, KeysDistinct, Coded;
    var w := IdBits(pd);
    var p := o + w;
    var target := if d(p + 8) then ToComponent(GetBits(d, p + 12, 12)) else ToSubChannel(GetBits(d, p + 10, 6));
    InsertKeeps(c.s8, (GetBits(d, o, w), GetBits(d, p + 4, 4)), Global(pd, d(p), target));
  }

  lemma Sub14Legal(d: Bits, o: nat, used: nat, c: Config)
    requires Legal(c)
    ensures Legal(Sub14(d, o, used, c).config)
  {
    hide GetBits, Insert, Inside, Disjoint, KeysDistinct, Coded;
    InsertKeeps(c.s14, GetBits(d, o, 6), GetBits(d, o + 6, 2));
  }

  lemma SubParseLegal(ext: nat, d: Bits, at: nat, used: nat, pd: bool, c: Config)
    requires HasLoop(ext) && Legal(c)
    ensures Legal(SubParse(ext, d, at, used, pd, c).config)
  {
    hide Legal, Sub1, Sub2, Sub3, Sub8, Sub14;
    var o := at + 8 * used;
    Sub1Legal(d, o, used, c);
    Sub2Legal(d, o, used, pd, c);
    Sub3Legal(d, o, used, c);
    Sub8Legal(d, o, used, pd, c);
    Sub14Legal(d, o, used, c);
  }

  lemma {:induction false} LoopLegal(ext: nat, d: Bits, at: nat, used: nat, len: nat, pd: bool, c: Config, log: seq<nat>)
    requires HasLoop(ext) && Legal(c)
    ensures Legal(Loop(ext, d, at, used, len, pd, c, log).config)
    decreases len + 1 - used
  {
    hide Legal, SubParse;
    if used <= len {
      var p := SubParse(ext, d, at, used, pd, c);
      SubParseLegal(ext, d, at, used, pd, c);
      if !p.restart {
        LoopLegal(ext, d, at, p.used, len, pd, p.config, log + [at + 8 * used]);
      }
    }
  }

  lemma NoConfigLegal()
    ensures Legal(NoConfig)
  {
  }

  lemma FigStepInv(d: Bits, at: nat, st: State)
    requires Inv(st)
    ensures Inv(FigStep(d, at, st))
  {
    hide Legal, Loop, GetBits, NoConfig;
    NoConfigLegal();
    var ext := GetBits(d, at + 11, 5);
    if HasLoop(ext) {
      LoopLegal(ext, d, at, 2, GetBits(d, at + 3, 5), d(at + 10), Selected(st, d(at + 8)), st.log);
    }
  }

  lemma {:induction false} FigsInv(d: Bits, p: nat, st: State)
    requires Inv(st)
    ensures Inv(Figs(d, p, st))
    decreases 30 - p
  {
    hide Inv, FigStep, GetBits, EndMarker;
    if p < 30 && !EndMarker(d, 8 * p) {
      var t := FigStep(d, 8 * p, st);
      FigStepInv(d, 8 * p, st);
      if !t.restart {
        FigsInv(d, p + GetBits(d, 8 * p + 3, 5) + 1, t);
      }
    }
  }

  lemma ApplyInv(e: Event, st: State)
    requires Inv(st)
    ensures Inv(Apply(e, st))
  {
    hide Legal, Figs, NoConfig;
    NoConfigLegal();
    if e.Received? {
      FigsInv(e.d, 0, st.(restart := false, log := []));
    }
  }

  /** After any run of FIBs, restarts and reconfigurations, the sub-channels of both configurations lie inside the CIF,
      share no capacity unit and have different identifiers. */
  lemma {:induction false} RunInv(es: seq<Event>)
    ensures Inv(Run(es))
  {
    hide Legal, Apply, NoConfig;
    NoConfigLegal();
    if es != [] {
      RunInv(es[..|es| - 1]);
      ApplyInv(es[|es| - 1], Run(es[..|es| - 1]));
    }
  }

  // ----- total capacity -----

  function Total(s: seq<Keyed<nat, SubChannel>>): nat {
    if s == [] then 0 else Total(s[..|s| - 1]) + s[|s| - 1].value.size
  }

  /** The capacity units of one entry, and of a table. */
  ghost function Range(a: nat, n: nat): (r: set<nat>)
    ensures forall u :: u in r <==> a <= u < a + n
    ensures |r| == n
  {
    if n == 0 then {} else Range(a, n - 1) + {a + n - 1}
  }

  ghost function UnitsOf(c: SubChannel): set<nat> {
    Range(c.start, c.size)
  }

  ghost function UnitsIn(s: seq<Keyed<nat, SubChannel>>): set<nat> {
    if s == [] then {} else UnitsIn(s[..|s| - 1]) + UnitsOf(s[|s| - 1].value)
  }

  lemma {:induction false} UnitsMember(s: seq<Keyed<nat, SubChannel>>, u: nat)
    requires u in UnitsIn(s)
    ensures exists i :: 0 <= i < |s| && u in UnitsOf(s[i].value)
  {
    if u in UnitsOf(s[|s| - 1].value) {
    } else {
      UnitsMember(s[..|s| - 1], u);
    }
  }

  /** A new entry shares no capacity unit with the table. */
  lemma UnitsApart(s: seq<Keyed<nat, SubChannel>>)
    requires s != [] && Disjoint(s)
    ensures UnitsIn(s[..|s| - 1]) !! UnitsOf(s[|s| - 1].value)
  {
    hide UnitsIn;
    var n := |s| - 1;
    forall u | u in UnitsIn(s[..n])
      ensures u !in UnitsOf(s[n].value)
    {
      UnitsMember(s[..n], u);
      var i :| 0 <= i < n && u in UnitsOf(s[..n][i].value);
      assert Apart(s[i].value, s[n].value);
    }
  }

  lemma {:induction false} UnitsCount(s: seq<Keyed<nat, SubChannel>>)
    requires Inside(s) && Disjoint(s)
    ensures |UnitsIn(s)| == Total(s)
    ensures UnitsIn(s) <= Below(UNITS)
  {
    hide Apart, Range;
    if s != [] {
      UnitsCount(s[..|s| - 1]);
      UnitsApart(s);
    }
  }

  /** The sub-channels of a legal configuration occupy at most the 864 capacity units of a CIF. */
  lemma TotalBound(s: seq<Keyed<nat, SubChannel>>)
    requires Inside(s) && Disjoint(s)
    ensures Total(s) <= UNITS
  {
    UnitsCount(s);
    BelowSize(UNITS);
    SubsetSize(UnitsIn(s), Below(UNITS));
  }

  lemma RunTotal(es: seq<Event>)
    ensures Total(Run(es).curr.s1) <= UNITS && Total(Run(es).next.s1) <= UNITS
  {
    hide Run, Total, Inside, Disjoint;
    RunInv(es);
    TotalBound(Run(es).curr.s1);
    TotalBound(Run(es).next.s1);
  }
}
