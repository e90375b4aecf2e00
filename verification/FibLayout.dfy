/** The field layouts of sections 6.2 and 6.3 of EN 300 401, and that the sub-parsers store what was sent. */
module FibLayout {
  import opened ProtectionTable
  import opened FibTables

  /** Fields of w bits with value v, one after the other. */
  datatype Fields = End | Then(w: nat, v: nat, rest: Fields)

  ghost predicate Lays(d: Bits, o: nat, fs: Fields)
    decreases fs
  {
    match fs
    case End => true
    case Then(w, v, rest) => GetBits(d, o, w) == v && Lays(d, o + w, rest)
  }

  function Flag(b: bool): nat {
    if b then 1 else 0
  }

  lemma Next(d: Bits, o: nat, fs: Fields)
    requires fs.Then? && Lays(d, o, fs)
    ensures GetBits(d, o, fs.w) == fs.v && Lays(d, o + fs.w, fs.rest)
  {
  }

  lemma FlagIs(d: Bits, o: nat, b: bool)
    requires GetBits(d, o, 1) == Flag(b)
    ensures d(o) == b
  {
    assert GetBits(d, o, 0) == 0;
  }

  // ----- FIG 0/1 -----

  /** Sub-channel id, start address, short form, table switch, table index. */
  function ShortLayout(id: nat, start: nat, sw: bool, index: nat): Fields {
    Then(6, id, Then(10, start, Then(1, Flag(false), Then(1, Flag(sw), Then(6, index, End)))))
  }

  /** Sub-channel id, start address, long form, option, protection level, size. */
  function LongLayout(id: nat, start: nat, option: nat, level: nat, size: nat): Fields {
    Then(6, id, Then(10, start, Then(1, Flag(true), Then(3, option, Then(2, level, Then(10, size, End))))))
  }

  lemma ShortRead(d: Bits, o: nat, id: nat, start: nat, sw: bool, index: nat)
    requires Lays(d, o, ShortLayout(id, start, sw, index)) && index < 64
    ensures GetBits(d, o, 6) == id
    ensures var row := UepRow(index);
            ParseSubChannel(d, o) == SubChannel(start, row.units, row.level, row.bitRate, Short(sw, index))
  {
    hide GetBits, Lays, UepRow, Flag;
    var fs := ShortLayout(id, start, sw, index);
    Next(d, o, fs);
    Next(d, o + 6, fs.rest);
    Next(d, o + 16, fs.rest.rest);
    Next(d, o + 17, fs.rest.rest.rest);
    Next(d, o + 18, fs.rest.rest.rest.rest);
    FlagIs(d, o + 16, false);
    FlagIs(d, o + 17, sw);
  }

  /** The bit rate of equal error protection: as many steps of 8 or 32 kbit/s as fit the size. */
  function EepRate(option: nat, level: nat, size: nat): int
    requires level < 4
  {
    if option == 0 then 8 * (size / EepA(level)) else if option == 1 then 32 * (size / EepB(level)) else -1
  }

  lemma LongRead(d: Bits, o: nat, id: nat, start: nat, option: nat, level: nat, size: nat)
    requires Lays(d, o, LongLayout(id, start, option, level, size)) && level < 4
    ensures GetBits(d, o, 6) == id
    ensures ParseSubChannel(d, o) ==
            SubChannel(start, size, if option == 1 then level + 4 else level, EepRate(option, level, size), Long(option))
  {
    hide GetBits, Lays, EepA, EepB, Flag;
    var fs := LongLayout(id, start, option, level, size);
    Next(d, o, fs);
    Next(d, o + 6, fs.rest);
    Next(d, o + 16, fs.rest.rest);
    Next(d, o + 17, fs.rest.rest.rest);
    Next(d, o + 20, fs.rest.rest.rest.rest);
    Next(d, o + 22, fs.rest.rest.rest.rest.rest);
    FlagIs(d, o + 16, true);
  }

  // ----- FIG 0/2 -----

  function FlagFields(c: Component): Fields {
    Then(1, Flag(c.primary), Then(1, Flag(c.access), End))
  }

  /** Transport mechanism 0 or 1 with type and sub-channel, 3 with a component id, or the reserved 2; then the flags. */
  ghost predicate ComponentLaid(d: Bits, o: nat, c: Component) {
    match c.content
    case Audio(t, s) => c.tmId == 0 && Lays(d, o, Then(2, 0, Then(6, t, Then(6, s, FlagFields(c)))))
    case Stream(t, s) => c.tmId == 1 && Lays(d, o, Then(2, 1, Then(6, t, Then(6, s, FlagFields(c)))))
    case Packets(i) => c.tmId == 3 && Lays(d, o, Then(2, 3, Then(12, i, FlagFields(c))))
    case Unset => c.tmId == 2 && Lays(d, o, Then(2, 2, End)) && Lays(d, o + 14, FlagFields(c))
  }

  /** What a new component is stored with: a reserved transport mechanism takes over the content before it. */
  function Taken(c: Component, last: Content): Content {
    if c.content.Unset? then last else c.content
  }

  lemma FlagsRead(d: Bits, o: nat, c: Component)
    requires Lays(d, o, FlagFields(c))
    ensures d(o) == c.primary && d(o + 1) == c.access
  {
    hide GetBits, Lays, Flag;
    Next(d, o, FlagFields(c));
    Next(d, o + 1, FlagFields(c).rest);
    FlagIs(d, o, c.primary);
    FlagIs(d, o + 1, c.access);
  }

  lemma StreamRead(d: Bits, o: nat, tm: nat, t: nat, s: nat, fs: Fields)
    requires Lays(d, o, Then(2, tm, Then(6, t, Then(6, s, fs))))
    ensures GetBits(d, o, 2) == tm && GetBits(d, o + 2, 6) == t && GetBits(d, o + 8, 6) == s && Lays(d, o + 14, fs)
  {
    hide GetBits, Lays;
    Next(d, o, Then(2, tm, Then(6, t, Then(6, s, fs))));
    Next(d, o + 2, Then(6, t, Then(6, s, fs)));
    Next(d, o + 8, Then(6, s, fs));
  }

  lemma PacketsRead(d: Bits, o: nat, i: nat, fs: Fields)
    requires Lays(d, o, Then(2, 3, Then(12, i, fs)))
    ensures GetBits(d, o, 2) == 3 && GetBits(d, o + 2, 12) == i && Lays(d, o + 14, fs)
  {
    hide GetBits, Lays;
    Next(d, o, Then(2, 3, Then(12, i, fs)));
    Next(d, o + 2, Then(12, i, fs));
  }

  lemma ComponentRead(d: Bits, o: nat, c: Component, last: Content)
    requires ComponentLaid(d, o, c)
    ensures ParseContent(d, o, last) == Taken(c, last) && GetBits(d, o, 2) == c.tmId
    ensures d(o + 14) == c.primary && d(o + 15) == c.access
  {
    hide GetBits, Lays, FlagFields;
    match c.content {
      case Audio(t, s) => StreamRead(d, o, 0, t, s, FlagFields(c));
      case Stream(t, s) => StreamRead(d, o, 1, t, s, FlagFields(c));
      case Packets(i) => PacketsRead(d, o, i, FlagFields(c));
      case Unset => Next(d, o, Then(2, 2, End));
    }
    FlagsRead(d, o + 14, c);
  }

  /** The table after the components from index i on were offered. */
  ghost function AddedFrom(s: seq<Keyed<(nat, nat), Component>>, id: nat, i: nat, cs: seq<Component>, last: Content)
    : seq<Keyed<(nat, nat), Component>>
    requires i <= |cs|
    decreases |cs| - i
  {
    if i == |cs| then s
    else if Held(s, (id, i)) then AddedFrom(s, id, i + 1, cs, last)
    else
      var content := Taken(cs[i], last);
      AddedFrom(s + [Keyed((id, i), cs[i].(content := content))], id, i + 1, cs, content)
  }

  /** A service that is not held yet, without reserved transport mechanisms, is stored component by component. */
  lemma {:induction false} NewService(s: seq<Keyed<(nat, nat), Component>>, id: nat, i: nat, cs: seq<Component>,
                                      last: Content)
    requires i <= |cs| && forall k :: i <= k < |cs| ==> !Held(s, (id, k)) && !cs[k].content.Unset?
    ensures AddedFrom(s, id, i, cs, last) ==
            s + seq(|cs| - i, k requires 0 <= k < |cs| - i => Keyed((id, i + k), cs[i + k]))
    decreases |cs| - i
  {
    if i < |cs| {
      var t := s + [Keyed((id, i), cs[i])];
      forall k | i + 1 <= k < |cs|
        ensures !Held(t, (id, k))
      {
        assert !Held(s, (id, k));
      }
      NewService(t, id, i + 1, cs, cs[i].content);
    }
  }

  ghost predicate Sent(d: Bits, o: nat, pd: bool, cs: seq<Component>) {
    forall k :: 0 <= k < |cs| ==> cs[k].pd == pd && cs[k].count == |cs| && ComponentLaid(d, o + 16 * k, cs[k])
  }

  lemma SentAt(d: Bits, o: nat, pd: bool, cs: seq<Component>, k: nat)
    requires Sent(d, o, pd, cs) && k < |cs|
    ensures cs[k].pd == pd && cs[k].count == |cs| && ComponentLaid(d, o + 16 * k, cs[k])
  {
    hide ComponentLaid;
  }

  lemma {:induction false} ComponentsStored(d: Bits, o: nat, pd: bool, id: nat, i: nat, cs: seq<Component>, last: Content,
                                            s: seq<Keyed<(nat, nat), Component>>)
    requires i <= |cs| && Sent(d, o, pd, cs)
    ensures Components(d, o + 16 * i, pd, id, i, |cs|, last, s) == AddedFrom(s, id, i, cs, last)
    decreases |cs| - i
  {
    hide GetBits, ComponentLaid, ParseContent, Lookup, Components, Sent, Insert, Held, Known, Taken, Added;
    if i < |cs| {
      var p := o + 16 * i;
      SentAt(d, o, pd, cs, i);
      ComponentRead(d, p, cs[i], last);
      ComponentsStep(d, p, pd, id, i, |cs|, last, s);
      var content := Taken(cs[i], last);
      var e := cs[i].(content := content);
      assert Component(pd, |cs|, GetBits(d, p, 2), content, d(p + 14), d(p + 15)) == e;
      InsertIsAdded(s, (id, i), e);
      AddedIs(s, (id, i), e);
      if Held(s, (id, i)) {
        ComponentsStored(d, o, pd, id, i + 1, cs, last, s);
      } else {
        ComponentsStored(d, o, pd, id, i + 1, cs, content, s + [Keyed((id, i), e)]);
      }
    } else {
      ComponentsEnd(d, o + 16 * i, pd, id, |cs|, last, s);
    }
  }

  lemma AddedIs<K, V>(s: seq<Keyed<K, V>>, k: K, v: V)
    ensures Added(s, k, v) == if Held(s, k) then s else s + [Keyed(k, v)]
  {
    hide Held;
  }

  /** Service id of 16 or 32 bits, reserved bit, access system, number of components, components. */
  function ServiceLayout(pd: bool, id: nat, rfa: nat, ca: nat, n: nat): Fields {
    Then(if pd then 32 else 16, id, Then(1, rfa, Then(3, ca, Then(4, n, End))))
  }

  /** FIG 0/2 stores the components that are not held yet, in order, and ends behind the last of them. */
  lemma ServiceStored(d: Bits, o: nat, used: nat, pd: bool, id: nat, rfa: nat, ca: nat, cs: seq<Component>, c: Config)
    requires Lays(d, o, ServiceLayout(pd, id, rfa, ca, |cs|)) && Sent(d, o + (if pd then 40 else 24), pd, cs)
    ensures Sub2(d, o, used, pd, c) ==
            Parsed(used + (if pd then 5 else 3) + 2 * |cs|, c.(s2 := AddedFrom(c.s2, id, 0, cs, Unset)), false)
  {
    hide GetBits, Lays, Components, Sent, AddedFrom;
    var fs := ServiceLayout(pd, id, rfa, ca, |cs|);
    var w := IdBits(pd);
    Next(d, o, fs);
    Next(d, o + w, fs.rest);
    Next(d, o + w + 1, fs.rest.rest);
    Next(d, o + w + 4, fs.rest.rest.rest);
    ComponentsStored(d, o + w + 8, pd, id, 0, cs, Unset, c.s2);
    assert o + w + 8 + 16 * 0 == o + w + 8;
  }

  // ----- FIG 0/3, FIG 0/8, FIG 0/14 -----

  /** Component id, three reserved bits, organization flag, data group flag, reserved bit, type, sub-channel, address. */
  function PacketLayout(id: nat, rfa: nat, e: PacketMode, rfu: nat): Fields {
    Then(12, id, Then(3, rfa, Then(1, Flag(e.caOrgFlag), Then(1, Flag(e.dg), Then(1, rfu, Then(6, e.dsc, Then(6, e.subCh,
      Then(10, e.address, if e.caOrgFlag then Then(16, e.caOrg, End) else End))))))))
  }

  /** A new packet mode component is stored as sent, but for the organization field: that is whatever lies 40 bits behind
      the place it was sent in. One that is held is skipped, by the length of the entry held. */
  lemma PacketStored(d: Bits, o: nat, used: nat, id: nat, rfa: nat, e: PacketMode, rfu: nat, late: nat, c: Config)
    requires Lays(d, o, PacketLayout(id, rfa, e, rfu)) && (e.caOrgFlag ==> Lays(d, o + 80, Then(16, late, End)))
    requires forall i :: 0 <= i < |c.s3| && c.s3[i].key == id ==> c.s3[i].value.caOrgFlag == e.caOrgFlag
    ensures var stored := e.(caOrg := if e.caOrgFlag then late else 0xFFFF);
            Sub3(d, o, used, c) == Parsed(used + (if e.caOrgFlag then 7 else 5), c.(s3 := Added(c.s3, id, stored)), false)
  {
    hide GetBits, Lays, Lookup, Flag, Held;
    var fs := PacketLayout(id, rfa, e, rfu);
    Next(d, o, fs);
    Next(d, o + 12, fs.rest);
    Next(d, o + 15, fs.rest.rest);
    Next(d, o + 16, fs.rest.rest.rest);
    var gs := fs.rest.rest.rest.rest;
    Next(d, o + 17, gs);
    Next(d, o + 18, gs.rest);
    Next(d, o + 24, gs.rest.rest);
    Next(d, o + 30, gs.rest.rest.rest);
    if e.caOrgFlag {
      Next(d, o + 80, Then(16, late, End));
    }
    FlagIs(d, o + 15, e.caOrgFlag);
    FlagIs(d, o + 16, e.dg);
    InsertIsAdded(c.s3, id, e.(caOrg := if e.caOrgFlag then late else 0xFFFF));
  }

  /** Service id, extension flag, reserved bits, component id within the service, short or long form, target. */
  function GlobalLayout(id: nat, rfa: nat, scids: nat, e: Global, rfu: nat): Fields {
    Then(if e.pd then 32 else 16, id, Then(1, Flag(e.ext), Then(3, rfa, Then(4, scids,
      if e.target.ToSubChannel? then Then(1, Flag(false), Then(1, rfu, Then(6, e.target.subCh, End)))
      else Then(1, Flag(true), Then(3, rfu, Then(12, e.target.scId, End)))))))
  }

  lemma GlobalStored(d: Bits, o: nat, used: nat, id: nat, rfa: nat, scids: nat, e: Global, rfu: nat, c: Config)
    requires Lays(d, o, GlobalLayout(id, rfa, scids, e, rfu))
    ensures Sub8(d, o, used, e.pd, c) ==
            Parsed(used + (if e.pd then 4 else 2) + (if e.target.ToSubChannel? then 2 else 3) + (if e.ext then 1 else 0),
                   c.(s8 := Added(c.s8, (id, scids), e)), false)
  {
    hide GetBits, Lays, Flag, Insert, Added;
    var fs := GlobalLayout(id, rfa, scids, e, rfu);
    var p := o + IdBits(e.pd);
    Next(d, o, fs);
    Next(d, p, fs.rest);
    Next(d, p + 1, fs.rest.rest);
    Next(d, p + 4, fs.rest.rest.rest);
    var gs := fs.rest.rest.rest.rest;
    Next(d, p + 8, gs);
    Next(d, p + 9, gs.rest);
    Next(d, if e.target.ToSubChannel? then p + 10 else p + 12, gs.rest.rest);
    FlagIs(d, p, e.ext);
    FlagIs(d, p + 8, e.target.ToComponent?);
    InsertIsAdded(c.s8, (id, scids), e);
  }

  /** Sub-channel id and FEC scheme. */
  function FecLayout(id: nat, fec: nat): Fields {
    Then(6, id, Then(2, fec, End))
  }

  lemma FecStored(d: Bits, o: nat, used: nat, id: nat, fec: nat, c: Config)
    requires Lays(d, o, FecLayout(id, fec))
    ensures Sub14(d, o, used, c) == Parsed(used + 1, c.(s14 := Added(c.s14, id, fec)), false)
  {
    hide GetBits, Lays, Insert, Added;
    Next(d, o, FecLayout(id, fec));
    Next(d, o + 6, FecLayout(id, fec).rest);
    InsertIsAdded(c.s14, id, fec);
  }

  /** FIG 0/1 with a description that is not held: a restart is asked for if and only if it leaves the CIF or claims a
      capacity unit of another sub-channel; otherwise it is stored as sent. */
  lemma LongStored(d: Bits, o: nat, used: nat, id: nat, start: nat, option: nat, level: nat, size: nat, c: Config)
    requires Lays(d, o, LongLayout(id, start, option, level, size)) && level < 4 && !Held(c.s1, id)
    ensures var stored := if option == 1 then level + 4 else level;
            var e := SubChannel(start, size, stored, EepRate(option, level, size), Long(option));
            var r := Sub1(d, o, used, c);
            && (r.restart <==> Impossible(e, c.s1))
            && (!r.restart ==> r == Parsed(used + 4, c.(s1 := c.s1 + [Keyed(id, e)]), false))
  {
    hide GetBits, Lays, ParseSubChannel, CollidesAny, EepRate, Impossible, Lookup, Held;
    LongRead(d, o, id, start, option, level, size);
    InsertIsAdded(c.s1, id, ParseSubChannel(d, o));
    ImpossibleIs(ParseSubChannel(d, o), c.s1);
  }

  lemma ShortStored(d: Bits, o: nat, used: nat, id: nat, start: nat, sw: bool, index: nat, c: Config)
    requires Lays(d, o, ShortLayout(id, start, sw, index)) && index < 64 && !Held(c.s1, id)
    ensures var row := UepRow(index);
            var e := SubChannel(start, row.units, row.level, row.bitRate, Short(sw, index));
            var r := Sub1(d, o, used, c);
            && (r.restart <==> Impossible(e, c.s1))
            && (!r.restart ==> r == Parsed(used + 3, c.(s1 := c.s1 + [Keyed(id, e)]), false))
  {
    hide GetBits, Lays, ParseSubChannel, CollidesAny, UepRow, Impossible, Lookup, Held;
    ShortRead(d, o, id, start, sw, index);
    InsertIsAdded(c.s1, id, ParseSubChannel(d, o));
    ImpossibleIs(ParseSubChannel(d, o), c.s1);
  }

  /** A description that is held is skipped, by the length of the entry held. */
  lemma HeldSkipped(d: Bits, o: nat, used: nat, id: nat, short: bool, c: Config)
    requires GetBits(d, o, 6) == id && Held(c.s1, id)
    requires forall i :: 0 <= i < |c.s1| && c.s1[i].key == id ==> c.s1[i].value.form.Short? == short
    ensures Sub1(d, o, used, c) == Parsed(used + (if short then 3 else 4), c, false)
  {
    hide GetBits, Lookup, ParseSubChannel, CollidesAny;
    assert !Known(c.s1, id) ==> !Held(c.s1, id);
  }
}
