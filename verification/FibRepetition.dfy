/** Multiplex configuration FIGs are repeated ten times a second: a repetition finds every entry known, at the same place,
    and leaves the tables alone. */
module FibRepetition {
  import opened FibTables
  import opened FibParser

  /** b holds the entries of a, in the same order, and possibly more. */
  ghost predicate Extends(a: Config, b: Config) {
    a.s1 <= b.s1 && a.s2 <= b.s2 && a.s3 <= b.s3 && a.s8 <= b.s8 && a.s14 <= b.s14
  }

  lemma InsertKnown<K, V>(s: seq<Keyed<K, V>>, k: K, v: V, t: seq<Keyed<K, V>>)
    requires Insert(s, k, v) <= t
    ensures s <= t && Insert(t, k, v) == t && Known(t, k)
    ensures Lookup(Insert(s, k, v), k) < |Insert(s, k, v)| <= |t| && Lookup(t, k) == Lookup(Insert(s, k, v), k)
  {
    hide Lookup;
    InsertKeeps(s, k, v);
    LookupExtends(Insert(s, k, v), t, k);
  }

  // ----- one entry -----

  /** If an entry was parsed on c, it parses on every extension of the outcome with the same end and no change. */
  ghost predicate Settled(p: Parsed, again: Parsed, b: Config) {
    again == Parsed(p.used, b, false)
  }

  lemma Sub1Again(d: Bits, o: nat, used: nat, c: Config, b: Config)
    requires !Sub1(d, o, used, c).restart && Extends(Sub1(d, o, used, c).config, b)
    ensures Extends(c, b) && Settled(Sub1(d, o, used, c), Sub1(d, o, used, b), b)
  {
    hide GetBits, Lookup, ParseSubChannel, CollidesAny;
    var id, e := GetBits(d, o, 6), ParseSubChannel(d, o);
    InsertKnown(c.s1, id, e, b.s1);
  }

  lemma {:induction false} ComponentsAgain(d: Bits, o: nat, pd: bool, id: nat, i: nat, n: nat, last: Content, last': Content,
                                           s: seq<Keyed<(nat, nat), Component>>, t: seq<Keyed<(nat, nat), Component>>)
    requires i <= n && Components(d, o, pd, id, i, n, last, s) <= t
    ensures s <= t && Components(d, o, pd, id, i, n, last', t) == t
    decreases n - i
  {
    hide GetBits, Insert, ParseContent, Lookup;
    if i < n {
      if Known(s, (id, i)) {
        ComponentsAgain(d, o + 16, pd, id, i + 1, n, last, last', s, t);
        LookupExtends(s, t, (id, i));
      } else {
        var content := ParseContent(d, o, last);
        var e := Component(pd, n, GetBits(d, o, 2), content, d(o + 14), d(o + 15));
        ComponentsAgain(d, o + 16, pd, id, i + 1, n, content, last', Insert(s, (id, i), e), t);
        InsertKnown(s, (id, i), e, t);
      }
    }
  }

  lemma Sub2Again(d: Bits, o: nat, used: nat, pd: bool, c: Config, b: Config)
    requires Extends(Sub2(d, o, used, pd, c).config, b)
    ensures Extends(c, b) && Settled(Sub2(d, o, used, pd, c), Sub2(d, o, used, pd, b), b)
  {
    hide GetBits, Components;
    var w := IdBits(pd);
    ComponentsAgain(d, o + w + 8, pd, GetBits(d, o, w), 0, GetBits(d, o + w + 4, 4), Unset, Unset, c.s2, b.s2);
  }

  lemma Sub3Again(d: Bits, o: nat, used: nat, c: Config, b: Config)
    requires Extends(Sub3(d, o, used, c).config, b)
    ensures Extends(c, b) && Settled(Sub3(d, o, used, c), Sub3(d, o, used, b), b)
  {
    hide GetBits, Lookup;
    var ca := d(o + 15);
    var e := PacketMode(ca, d(o + 16), GetBits(d, o + 18, 6), GetBits(d, o + 24, 6), GetBits(d, o + 30, 10),
                        if ca then GetBits(d, o + 80, 16) else 0xFFFF);
    InsertKnown(c.s3, GetBits(d, o, 12), e, b.s3);
  }

  lemma Sub8Again(d: Bits, o: nat, used: nat, pd: bool, c: Config, b: Config)
    requires Extends(Sub8(d, o, used, pd, c).config, b)
    ensures Extends(c, b) && Settled(Sub8(d, o, used, pd, c), Sub8(d, o, used, pd, b), b)
  {
    hide GetBits, Insert;
    var w := IdBits(pd);
    var p := o + w;
    var target := if d(p + 8) then ToComponent(GetBits(d, p + 12, 12)) else ToSubChannel(GetBits(d, p + 10, 6));
    InsertKnown(c.s8, (GetBits(d, o, w), GetBits(d, p + 4, 4)), Global(pd, d(p), target), b.s8);
  }

  lemma Sub14Again(d: Bits, o: nat, used: nat, c: Config, b: Config)
    requires Extends(Sub14(d, o, used, c).config, b)
    ensures Extends(c, b) && Settled(Sub14(d, o, used, c), Sub14(d, o, used, b), b)
  {
    hide GetBits, Insert;
    InsertKnown(c.s14, GetBits(d, o, 6), GetBits(d, o + 6, 2), b.s14);
  }

  lemma SubParseAgain(ext: nat, d: Bits, at: nat, used: nat, pd: bool, c: Config, b: Config)
    requires HasLoop(ext)
    requires var p := SubParse(ext, d, at, used, pd, c); !p.restart && Extends(p.config, b)
    ensures Extends(c, b) && Settled(SubParse(ext, d, at, used, pd, c), SubParse(ext, d, at, used, pd, b), b)
  {
    hide Extends, Settled, Sub1, Sub2, Sub3, Sub8, Sub14;
    var o := at + 8 * used;
    if ext == 1 {
      Sub1Again(d, o, used, c, b);
    } else if ext == 2 {
      Sub2Again(d, o, used, pd, c, b);
    } else if ext == 3 {
      Sub3Again(d, o, used, c, b);
    } else if ext == 8 {
      Sub8Again(d, o, used, pd, c, b);
    } else {
      Sub14Again(d, o, used, c, b);
    }
  }

  // ----- one FIG -----

  lemma {:induction false} LoopAgain(ext: nat, d: Bits, at: nat, used: nat, len: nat, pd: bool, c: Config, b: Config,
                                     log: seq<nat>)
    requires HasLoop(ext)
    requires var r := Loop(ext, d, at, used, len, pd, c, log); !r.restart && Extends(r.config, b)
    ensures Extends(c, b)
    ensures Loop(ext, d, at, used, len, pd, b, log) == Looped(b, false, Loop(ext, d, at, used, len, pd, c, log).log)
    decreases len + 1 - used
  {
    hide Extends, SubParse;
    if used <= len {
      var p := SubParse(ext, d, at, used, pd, c);
      LoopAgain(ext, d, at, p.used, len, pd, p.config, b, log + [at + 8 * used]);
      SubParseAgain(ext, d, at, used, pd, c, b);
    }
  }

  /** Both configurations of t extend those of st. */
  ghost predicate Grown(st: State, t: State) {
    Extends(st.curr, t.curr) && Extends(st.next, t.next)
  }

  lemma ExtendsSelf(c: Config)
    ensures Extends(c, c)
  {
  }

  /** A FIG that changed nothing but the tables, met again in a state that holds at least its outcome. */
  lemma FigAgain(d: Bits, at: nat, st: State, again: State)
    requires !FigStep(d, at, st).restart && FigStep(d, at, st).changes == st.changes
    requires !again.restart && again.log == st.log && Grown(FigStep(d, at, st), again)
    requires FigStep(d, at, again).changes == again.changes
    ensures Grown(st, again)
    ensures FigStep(d, at, again).prevFlags == FigStep(d, at, st).prevFlags
            || (FigStep(d, at, st).prevFlags == st.prevFlags && FigStep(d, at, again).prevFlags == again.prevFlags)
    ensures FigStep(d, at, again) == again.(prevFlags := FigStep(d, at, again).prevFlags, log := FigStep(d, at, st).log)
  {
    hide Extends, Loop, GetBits, NoConfig;
    var ext := GetBits(d, at + 11, 5);
    if GetBits(d, at, 3) == 0 && HasLoop(ext) {
      var cn := d(at + 8);
      LoopAgain(ext, d, at, 2, GetBits(d, at + 3, 5), d(at + 10), Selected(st, cn), Selected(again, cn), st.log);
    }
  }

  // ----- a whole FIB -----

  lemma FigStepCounts(d: Bits, at: nat, st: State)
    ensures FigStep(d, at, st).changes >= st.changes
  {
    hide Loop, GetBits, NoConfig;
  }

  lemma {:induction false} FigsCount(d: Bits, p: nat, st: State)
    ensures Figs(d, p, st).changes >= st.changes
    decreases 30 - p
  {
    hide FigStep, GetBits, EndMarker;
    if p < 30 && !EndMarker(d, 8 * p) {
      var t := FigStep(d, 8 * p, st);
      FigStepCounts(d, 8 * p, st);
      if !t.restart {
        FigsCount(d, p + GetBits(d, 8 * p + 3, 5) + 1, t);
      }
    }
  }

  lemma GrownTransitive(a: State, b: State, c: State)
    requires Grown(a, b) && Grown(b, c)
    ensures Grown(a, c)
  {
  }

  lemma FigGrows(d: Bits, at: nat, st: State)
    requires !FigStep(d, at, st).restart && FigStep(d, at, st).changes == st.changes
    ensures Grown(st, FigStep(d, at, st))
  {
    hide Extends, Loop, GetBits, NoConfig;
    ExtendsSelf(st.curr);
    ExtendsSelf(st.next);
    var ext := GetBits(d, at + 11, 5);
    if GetBits(d, at, 3) == 0 && HasLoop(ext) {
      var cn, len, pd := d(at + 8), GetBits(d, at + 3, 5), d(at + 10);
      var r := Loop(ext, d, at, 2, len, pd, Selected(st, cn), st.log);
      ExtendsSelf(r.config);
      LoopAgain(ext, d, at, 2, len, pd, Selected(st, cn), r.config, st.log);
    }
  }

  /** Without restart and reconfiguration, entries are only added: none is changed, moved or removed. */
  lemma {:induction false} FigsGrow(d: Bits, p: nat, st: State)
    requires !Figs(d, p, st).restart && Figs(d, p, st).changes == st.changes
    ensures Grown(st, Figs(d, p, st))
    decreases 30 - p
  {
    hide FigStep, GetBits, EndMarker, Extends;
    ExtendsSelf(st.curr);
    ExtendsSelf(st.next);
    if p < 30 && !EndMarker(d, 8 * p) {
      var t, q := FigStep(d, 8 * p, st), p + GetBits(d, 8 * p + 3, 5) + 1;
      FigStepCounts(d, 8 * p, st);
      if !t.restart {
        FigsCount(d, q, t);
        FigGrows(d, 8 * p, st);
        FigsGrow(d, q, t);
        GrownTransitive(st, t, Figs(d, q, t));
      }
    }
  }

  lemma {:induction false} FigsAgain(d: Bits, p: nat, st: State, again: State)
    requires !Figs(d, p, st).restart && Figs(d, p, st).changes == st.changes
    requires !again.restart && again.log == st.log && Grown(Figs(d, p, st), again)
    requires Figs(d, p, again).changes == again.changes
    ensures Grown(st, again)
    ensures Figs(d, p, again).prevFlags == Figs(d, p, st).prevFlags
            || (Figs(d, p, st).prevFlags == st.prevFlags && Figs(d, p, again).prevFlags == again.prevFlags)
    ensures Figs(d, p, again) == again.(prevFlags := Figs(d, p, again).prevFlags, log := Figs(d, p, st).log)
    decreases 30 - p
  {
    hide FigStep, GetBits, EndMarker, Extends;
    if p < 30 && !EndMarker(d, 8 * p) {
      var t, u, q := FigStep(d, 8 * p, st), FigStep(d, 8 * p, again), p + GetBits(d, 8 * p + 3, 5) + 1;
      FigStepCounts(d, 8 * p, st);
      FigStepCounts(d, 8 * p, again);
      if !t.restart {
        FigsCount(d, q, t);
        FigsGrow(d, q, t);
        GrownTransitive(t, Figs(d, q, t), again);
        if !u.restart {
          FigsCount(d, q, u);
        }
        FigAgain(d, 8 * p, st, again);
        FigsAgain(d, q, t, u);
      }
    }
  }

  /** A FIB without restart and reconfiguration only adds entries. */
  lemma FibGrows(d: Bits, st: State)
    requires !Fib(d, st).restart && Fib(d, st).changes == st.changes
    ensures Grown(st, Fib(d, st))
  {
    hide Figs, Extends;
    FigsGrow(d, 0, st.(restart := false, log := []));
  }

  /** A FIB that is received again, and triggers no reconfiguration, changes nothing at all: no table, no flag, and its
      sub-parsers are entered at the same addresses. */
  lemma RepetitionHarmless(d: Bits, st: State)
    requires !Fib(d, st).restart && Fib(d, st).changes == st.changes
    requires Fib(d, Fib(d, st)).changes == st.changes
    ensures Fib(d, Fib(d, st)) == Fib(d, st)
  {
    hide Figs, Extends;
    var once := Fib(d, st);
    ExtendsSelf(once.curr);
    ExtendsSelf(once.next);
    FigsAgain(d, 0, st.(restart := false, log := []), once.(restart := false, log := []));
  }
}
