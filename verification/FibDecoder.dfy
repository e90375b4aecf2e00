/** The FIB decoder as an object: its loops and its updates in place carry out the parser. */
module FibDecoderClass {
  import opened FibTables
  import opened FibParser
  import opened FibInvariant

  /** The state after one entry. */
  function AfterEntry(p: Parsed, cn: bool, st: State, log: seq<nat>): State {
    if p.restart then Restarted(st, log) else Store(st, cn, p.config, log)
  }

  lemma Sub2Is(d: Bits, o: nat, used: nat, pd: bool, c: Config)
    ensures var w := IdBits(pd);
            var n := GetBits(d, o + w + 4, 4);
            Sub2(d, o, used, pd, c) ==
            Parsed(used + w / 8 + 1 + 2 * n,
                   c.(s2 := Components(d, o + w + 8, pd, GetBits(d, o, w), 0, n, Unset, c.s2)), false)
  {
    hide GetBits, Components;
  }

  class FibDecoder {
    var curr: Config
    var next: Config
    var prevFlags: nat
    var restart: bool
    ghost var changes: nat
    ghost var log: seq<nat>

    ghost function Abs(): State
      reads this
    {
      State(curr, next, prevFlags, restart, changes, log)
    }

    constructor ()
      ensures Abs() == Init && Inv(Abs())
    {
      curr, next, prevFlags, restart, changes, log := NoConfig, NoConfig, 0, false, 0, [];
      new;
      NoConfigLegal();
    }

    /** _restart_fib_decoding. */
    method RestartFibDecoding()
      modifies this
      ensures Abs() == Restarted(old(Abs()), old(log))
    {
      curr, next, prevFlags, restart := NoConfig, NoConfig, 0, true;
    }

    method ConnectChannel()
      modifies this
      ensures Abs() == Apply(Connect, old(Abs())) && Inv(Abs())
    {
      curr, next, prevFlags := NoConfig, NoConfig, 0;
      NoConfigLegal();
    }

    method DisconnectChannel()
      modifies this
      ensures Abs() == Apply(Disconnect, old(Abs())) && Inv(Abs())
    {
      curr, next := NoConfig, NoConfig;
      NoConfigLegal();
    }

    method StoreConfig(cn: bool, c: Config)
      modifies this
      ensures Abs() == Store(old(Abs()), cn, c, old(log))
    {
      if cn {
        next := c;
      } else {
        curr := c;
      }
    }

    /** _subprocess_Fig0s1. */
    method Subprocess1(d: Bits, o: nat, offset: nat, cn: bool) returns (used: nat)
      modifies this
      ensures var p := Sub1(d, o, offset, Selected(old(Abs()), cn));
              used == p.used && Abs() == AfterEntry(p, cn, old(Abs()), old(log))
    {
      hide GetBits, Lookup, ParseSubChannel, CollidesAny, Insert, NoConfig;
      var c := if cn then next else curr;
      var id := GetBits(d, o, 6);
      var i := Lookup(c.s1, id);
      if i < |c.s1| {
        used := offset + FormBytes(c.s1[i].value.form);
      } else {
        var e := ParseSubChannel(d, o);
        used := offset + FormBytes(e.form);
        if e.start + e.size > UNITS {
          RestartFibDecoding();
        } else if CollidesAny(e, c.s1) {
          RestartFibDecoding();
        } else {
          StoreConfig(cn, c.(s1 := Insert(c.s1, id, e)));
        }
      }
    }

    /** _subprocess_Fig0s2: one pass over the components of a service. */
    method Subprocess2(d: Bits, o: nat, offset: nat, pd: bool, cn: bool) returns (used: nat)
      modifies this
      ensures var p := Sub2(d, o, offset, pd, Selected(old(Abs()), cn));
              used == p.used && Abs() == AfterEntry(p, cn, old(Abs()), old(log))
    {
      hide GetBits, Known, Insert, ParseContent, Components, Sub2;
      var c := if cn then next else curr;
      var w := IdBits(pd);
      var id, n := GetBits(d, o, w), GetBits(d, o + w + 4, 4);
      var p, s, content := o + w + 8, c.s2, Unset;
      Sub2Is(d, o, offset, pd, c);
      for i := 0 to n
        invariant p == o + w + 8 + 16 * i
        invariant Components(d, p, pd, id, i, n, content, s) == Components(d, o + w + 8, pd, id, 0, n, Unset, c.s2)
        invariant Abs() == old(Abs())
      {
        ComponentsStep(d, p, pd, id, i, n, content, s);
        if !Known(s, (id, i)) {
          content := ParseContent(d, p, content);
          s := Insert(s, (id, i), Component(pd, n, GetBits(d, p, 2), content, d(p + 14), d(p + 15)));
        }
        p := p + 16;
      }
      ComponentsEnd(d, p, pd, id, n, content, s);
      StoreConfig(cn, c.(s2 := s));
      used := offset + w / 8 + 1 + 2 * n;
    }

    /** The other sub-parsers hold no loop and cannot fail. */
    method Subprocess(ext: nat, d: Bits, o: nat, offset: nat, pd: bool, cn: bool) returns (used: nat)
      requires ext == 3 || ext == 8 || ext == 14
      modifies this
      ensures var c := Selected(old(Abs()), cn);
              var p := if ext == 3 then Sub3(d, o, offset, c) else if ext == 8 then Sub8(d, o, offset, pd, c)
                       else Sub14(d, o, offset, c);
              used == p.used && Abs() == AfterEntry(p, cn, old(Abs()), old(log))
    {
      hide GetBits, Insert, Lookup;
      var c := if cn then next else curr;
      var p := if ext == 3 then Sub3(d, o, offset, c) else if ext == 8 then Sub8(d, o, offset, pd, c)
               else Sub14(d, o, offset, c);
      StoreConfig(cn, p.config);
      used := p.used;
    }

    method Entry(ext: nat, d: Bits, at: nat, offset: nat, pd: bool, cn: bool) returns (used: nat)
      requires HasLoop(ext)
      modifies this
      ensures var p := SubParse(ext, d, at, offset, pd, Selected(old(Abs()), cn));
              used == p.used && Abs() == AfterEntry(p, cn, old(Abs()), old(log) + [at + 8 * offset])
    {
      hide Sub1, Sub2, Sub3, Sub8, Sub14, NoConfig;
      var o := at + 8 * offset;
      log := log + [o];
      if ext == 1 {
        used := Subprocess1(d, o, offset, cn);
      } else if ext == 2 {
        used := Subprocess2(d, o, offset, pd, cn);
      } else {
        used := Subprocess(ext, d, o, offset, pd, cn);
      }
    }

    /** _process_fig0_loop. */
    method ProcessLoop(ext: nat, d: Bits, at: nat)
      requires HasLoop(ext) && !restart
      modifies this
      ensures Abs() == Fig0Loop(ext, d, at, old(Abs()))
    {
      hide GetBits, SubParse, Loop, NoConfig;
      var len, cn, pd := GetBits(d, at + 3, 5), d(at + 8), d(at + 10);
      ghost var st0 := Abs();
      ghost var r := Loop(ext, d, at, 2, len, pd, Selected(st0, cn), log);
      var used := 2;
      while used <= len
        invariant !restart && prevFlags == st0.prevFlags && changes == st0.changes
        invariant if cn then curr == st0.curr else next == st0.next
        invariant Loop(ext, d, at, used, len, pd, Selected(Abs(), cn), log) == r
      {
        LoopStep(ext, d, at, used, len, pd, Selected(Abs(), cn), log);
        used := Entry(ext, d, at, used, pd, cn);
        if restart {
          return;
        }
      }
      LoopStep(ext, d, at, used, len, pd, Selected(Abs(), cn), log);
    }

    /** _process_Fig0s0: the configurations are swapped and the old one is cleared. */
    method ProcessFig0s0(d: Bits, at: nat)
      modifies this
      ensures Abs() == Fig0s0(d, at, old(Abs()))
    {
      hide GetBits, NoConfig;
      var flags := GetBits(d, at + 32, 2);
      if flags == 0 && prevFlags == 3 {
        curr, next := next, curr;
        next := NoConfig;
        changes := changes + 1;
      }
      prevFlags := flags;
    }

    method ProcessFig0(d: Bits, at: nat)
      requires !restart
      modifies this
      ensures Abs() == Fig0(d, at, old(Abs()))
    {
      hide GetBits, Fig0s0, Fig0Loop;
      var ext := GetBits(d, at + 11, 5);
      if ext == 0 {
        ProcessFig0s0(d, at);
      } else if HasLoop(ext) {
        ProcessLoop(ext, d, at);
      }
    }

    /** process_FIB. */
    method ProcessFib(d: Bits)
      requires Inv(Abs())
      modifies this
      ensures Abs() == Fib(d, old(Abs())) && Inv(Abs())
    {
      hide GetBits, Figs, Fig0, Legal;
      ApplyInv(Received(d), Abs());
      ghost var r := Fib(d, Abs());
      restart, log := false, [];
      var p := 0;
      while p < 30
        invariant !restart && Figs(d, p, Abs()) == r
        decreases 30 - p
      {
        FigsStep(d, p, Abs());
        if EndMarker(d, 8 * p) {
          break;
        }
        if GetBits(d, 8 * p, 3) == 0 {
          ProcessFig0(d, 8 * p);
        }
        if restart {
          break;
        }
        p := p + GetBits(d, 8 * p + 3, 5) + 1;
      }
      if p >= 30 {
        FigsStep(d, p, Abs());
      }
    }
  }
}
