/** The parser of FIBs: FIG by FIG, entry by entry, on a current and a next configuration. */
module FibParser {
  import opened FibTables

  /** What process_FIB works on. changes counts the reconfigurations signalled; log lists the byte addresses at which
      sub-parsers were entered during the last FIB. */
  datatype State = State(curr: Config, next: Config, prevFlags: nat, restart: bool, changes: nat, log: seq<nat>)

  const Init := State(NoConfig, NoConfig, 0, false, 0, [])

  predicate HasLoop(ext: nat) {
    ext == 1 || ext == 2 || ext == 3 || ext == 8 || ext == 14
  }

  /** One entry of FIG 0/ext at byte used of the FIG at bit address at. */
  function SubParse(ext: nat, d: Bits, at: nat, used: nat, pd: bool, c: Config): (r: Parsed)
    requires HasLoop(ext)
    ensures used < r.used
  {
    var o := at + 8 * used;
    if ext == 1 then Sub1(d, o, used, c)
    else if ext == 2 then Sub2(d, o, used, pd, c)
    else if ext == 3 then Sub3(d, o, used, c)
    else if ext == 8 then Sub8(d, o, used, pd, c)
    else Sub14(d, o, used, c)
  }

  datatype Looped = Looped(config: Config, restart: bool, log: seq<nat>)

  /** _process_fig0_loop from byte used on. */
  function Loop(ext: nat, d: Bits, at: nat, used: nat, len: nat, pd: bool, c: Config, log: seq<nat>): Looped
    requires HasLoop(ext)
    decreases len + 1 - used
  {
    if used > len then Looped(c, false, log)
    else
      var p := SubParse(ext, d, at, used, pd, c);
      if p.restart then Looped(c, true, log + [at + 8 * used])
      else Loop(ext, d, at, p.used, len, pd, p.config, log + [at + 8 * used])
  }

  function Selected(st: State, cn: bool): Config {
    if cn then st.next else st.curr
  }

  function Store(st: State, cn: bool, c: Config, log: seq<nat>): State {
    if cn then st.(next := c, log := log) else st.(curr := c, log := log)
  }

  /** _restart_fib_decoding. */
  function Restarted(st: State, log: seq<nat>): State {
    State(NoConfig, NoConfig, 0, true, st.changes, log)
  }

  /** FIG 0/0, section 6.4.1: the next configuration becomes the current one when the change flags fall from 3 to 0. */
  function Fig0s0(d: Bits, at: nat, st: State): State {
    var flags := GetBits(d, at + 32, 2);
    if flags == 0 && st.prevFlags == 3 then
      st.(curr := st.next, next := NoConfig, changes := st.changes + 1, prevFlags := flags)
    else st.(prevFlags := flags)
  }

  function Fig0Loop(ext: nat, d: Bits, at: nat, st: State): State
    requires HasLoop(ext)
  {
    var r := Loop(ext, d, at, 2, GetBits(d, at + 3, 5), d(at + 10), Selected(st, d(at + 8)), st.log);
    if r.restart then Restarted(st, r.log) else Store(st, d(at + 8), r.config, r.log)
  }

  /** The other extensions and FIG type 1 do not touch these tables. */
  function Fig0(d: Bits, at: nat, st: State): State {
    var ext := GetBits(d, at + 11, 5);
    if ext == 0 then Fig0s0(d, at, st)
    else if HasLoop(ext) then Fig0Loop(ext, d, at, st)
    else st
  }

  function FigStep(d: Bits, at: nat, st: State): State {
    if GetBits(d, at, 3) == 0 then Fig0(d, at, st) else st
  }

  predicate EndMarker(d: Bits, at: nat) {
    GetBits(d, at, 3) == 7 && GetBits(d, at + 3, 5) == 31
  }

  /** The FIGs from byte p on. */
  function Figs(d: Bits, p: nat, st: State): State
    decreases 30 - p
  {
    if p >= 30 || EndMarker(d, 8 * p) then st
    else
      var t := FigStep(d, 8 * p, st);
      if t.restart then t else Figs(d, p + GetBits(d, 8 * p + 3, 5) + 1, t)
  }

  /** process_FIB. */
  function Fib(d: Bits, st: State): State {
    Figs(d, 0, st.(restart := false, log := []))
  }

  lemma LoopStep(ext: nat, d: Bits, at: nat, used: nat, len: nat, pd: bool, c: Config, log: seq<nat>)
    requires HasLoop(ext)
    ensures Loop(ext, d, at, used, len, pd, c, log) ==
            if used > len then Looped(c, false, log)
            else
              var p := SubParse(ext, d, at, used, pd, c);
              if p.restart then Looped(c, true, log + [at + 8 * used])
              else Loop(ext, d, at, p.used, len, pd, p.config, log + [at + 8 * used])
  {
    hide SubParse;
  }

  lemma FigsStep(d: Bits, p: nat, st: State)
    ensures Figs(d, p, st) ==
            if p >= 30 || EndMarker(d, 8 * p) then st
            else
              var t := FigStep(d, 8 * p, st);
              if t.restart then t else Figs(d, p + GetBits(d, 8 * p + 3, 5) + 1, t)
  {
    hide FigStep, GetBits, EndMarker;
  }

  // ----- runs -----

  /** connect_channel also forgets the change flags. */
  datatype Event = Received(d: Bits) | Connect | Disconnect

  function Apply(e: Event, st: State): State {
    match e
    case Received(d) => Fib(d, st)
    case Connect => st.(curr := NoConfig, next := NoConfig, prevFlags := 0)
    case Disconnect => st.(curr := NoConfig, next := NoConfig)
  }

  function Run(es: seq<Event>): State {
    if es == [] then Init else Apply(es[|es| - 1], Run(es[..|es| - 1]))
  }
}
