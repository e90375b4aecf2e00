/** How far the FIB data are loaded, and what is signalled about it, over any order of received FIGs and timer events. */
module FibLoading {
  import opened FibTables

  /** S0_Init to S5_DeferredDataLoaded. */
  type Level = n: nat | n <= 5

  /** The loading state, the service waiting for a fast start (0: none), the tables it needs, the services whose label is
      known, and the states signalled since the last reset. */
  datatype Load = Load(level: Level, sid: nat, curr: Config, labels: set<nat>, signals: seq<Level>)

  // ----- what the tables say -----

  predicate IsAudio(e: Keyed<(nat, nat), Component>, sid: nat) {
    e.key.0 == sid && e.value.content.Audio?
  }

  /** The first audio component of a service, or the size of the table. */
  function AudioOf(s: seq<Keyed<(nat, nat), Component>>, sid: nat): (i: nat)
    ensures i <= |s|
    ensures i < |s| ==> IsAudio(s[i], sid)
    ensures forall j :: 0 <= j < i ==> !IsAudio(s[j], sid)
  {
    if s == [] then 0
    else
      var n := |s| - 1;
      var i := AudioOf(s[..n], sid);
      if i < n then i else if IsAudio(s[n], sid) then n else |s|
  }

  /** The selected service can be started: its FIG 0/2 entry and the FIG 0/1 entry of its sub-channel are there. */
  predicate Startable(c: Config, sid: nat) {
    var i := AudioOf(c.s2, sid);
    i < |c.s2| && Known(c.s1, c.s2[i].value.content.subCh)
  }

  /** An audio component with a 16-bit service id, a known sub-channel and a known label. */
  predicate Described(e: Keyed<(nat, nat), Component>, c: Config, labels: set<nat>) {
    e.value.content.Audio? ==>
      !e.value.pd && Known(c.s1, e.value.content.subCh) && e.key.0 % 65536 in labels
  }

  predicate AudioComplete(c: Config, labels: set<nat>) {
    && (exists i :: 0 <= i < |c.s2| && c.s2[i].value.content.Audio?)
    && (forall i :: 0 <= i < |c.s2| ==> Described(c.s2[i], c, labels))
  }

  // ----- events -----

  /** A sub-parser stored an entry; a FIG 0/1 or 0/2 was parsed; a timer ran out (packets: whether the packet services are
      complete); the user selected a service; tables were exchanged or cleared without reset; everything was reset. */
  datatype Event =
    | Stored(curr: Config, labels: set<nat>)
    | FigParsed
    | ConsistencyTimer(packets: bool)
    | StateTimer
    | Select(sid: nat)
    | Exchanged(curr: Config, labels: set<nat>)
    | Reset

  function Raise(l: Load, n: Level): Load {
    l.(level := n, signals := l.signals + [n])
  }

  /** _process_fast_audio_selection, called with a waiting service only. */
  function FastAudio(l: Load): Load {
    if l.sid > 0 && Startable(l.curr, l.sid) then
      var m := l.(sid := 0);
      if l.level < 1 then Raise(m, 1) else m
    else l
  }

  /** _slot_timer_data_consistency_check. */
  function Consistency(l: Load, packets: bool): Load {
    var m := if l.level > 2 then l
             else if AudioComplete(l.curr, l.labels) then Raise(l.(level := 2), 3) else l.(level := 2);
    if m.level == 3 && packets then Raise(m, 4) else m
  }

  /** _slot_timer_check_state_and_print_FIGs. */
  function CheckState(l: Load): Load {
    var m := if l.level < 3 then Raise(l, 3) else l;
    if m.level < 4 then Raise(m, 4) else m
  }

  function Step(e: Event, l: Load): Load {
    match e
    case Stored(c, labels) =>
      var m := l.(curr := c, labels := labels);
      if l.level >= 4 then Raise(m, 5) else m
    case FigParsed => FastAudio(l)
    case ConsistencyTimer(packets) => Consistency(l, packets)
    case StateTimer => CheckState(l)
    case Select(sid) => l.(sid := if l.level >= 3 then 0 else sid)
    case Exchanged(c, labels) => l.(curr := c, labels := labels)
    case Reset => Load(0, l.sid, NoConfig, {}, [])
  }

  const Start := Load(0, 0, NoConfig, {}, [])

  function Run(es: seq<Event>): Load {
    if es == [] then Start else Step(es[|es| - 1], Run(es[..|es| - 1]))
  }

  // ----- what is signalled -----

  function Fives(k: nat): (r: seq<Level>)
    ensures |r| == k && forall i :: 0 <= i < k ==> r[i] == 5
  {
    seq(k, _ => 5)
  }

  /** The signals that go with a loading state: S1 or nothing, then S3, S4 and any number of S5. */
  ghost predicate Shape(level: Level, fast: bool, signals: seq<Level>) {
    var first: seq<Level> := if fast then [1] else [];
    match level
    case 0 => !fast && signals == []
    case 1 => fast && signals == [1]
    case 2 => signals == first
    case 3 => signals == first + [3]
    case 4 => signals == first + [3, 4]
    case 5 => exists k :: k > 0 && signals == first + [3, 4] + Fives(k)
  }

  ghost predicate Inv(l: Load) {
    exists fast :: Shape(l.level, fast, l.signals)
  }

  lemma ShapeRaised(level: Level, fast: bool, signals: seq<Level>)
    requires level >= 4 && Shape(level, fast, signals)
    ensures Shape(5, fast, signals + [5])
  {
    var first: seq<Level> := if fast then [1] else [];
    if level == 4 {
      assert signals + [5] == first + [3, 4] + Fives(1);
    } else {
      var k :| k > 0 && signals == first + [3, 4] + Fives(k);
      assert signals + [5] == first + [3, 4] + Fives(k + 1);
    }
  }

  lemma ShapeThree(level: Level, fast: bool, signals: seq<Level>)
    requires level <= 2 && Shape(level, fast, signals)
    ensures Shape(2, fast, signals) && Shape(3, fast, signals + [3])
  {
  }

  lemma ShapeFour(fast: bool, signals: seq<Level>)
    requires Shape(3, fast, signals)
    ensures Shape(4, fast, signals + [4])
  {
    var first: seq<Level> := if fast then [1] else [];
    assert first + [3] + [4] == first + [3, 4];
  }

  lemma ShapeOne()
    ensures Shape(1, true, [1]) && Shape(0, false, [])
  {
  }

  /** Between resets the loading state never falls. */
  lemma NeverFalls(e: Event, l: Load)
    ensures e.Reset? || Step(e, l).level >= l.level
    ensures e.Reset? || l.signals <= Step(e, l).signals
  {
    hide AudioComplete, Startable;
  }

  lemma StepInv(e: Event, l: Load)
    requires Inv(l)
    ensures Inv(Step(e, l))
  {
    hide AudioComplete, Startable, Shape, NoConfig;
    var fast :| Shape(l.level, fast, l.signals);
    ShapeOne();
    if l.level >= 4 {
      ShapeRaised(l.level, fast, l.signals);
    } else {
      if l.level <= 2 {
        ShapeThree(l.level, fast, l.signals);
        ShapeFour(fast, l.signals + [3]);
      } else {
        ShapeFour(fast, l.signals);
      }
      if l.level == 0 {
        NoSignals(fast, l.signals);
      }
    }
  }

  lemma NoSignals(fast: bool, signals: seq<Level>)
    requires Shape(0, fast, signals)
    ensures signals == [] && [] + [1] == [1]
  {
  }

  lemma {:induction false} RunInv(es: seq<Event>)
    ensures Inv(Run(es))
  {
    hide Step, Inv, NoConfig;
    StartInv();
    if es != [] {
      RunInv(es[..|es| - 1]);
      StepInv(es[|es| - 1], Run(es[..|es| - 1]));
    }
  }

  lemma StartInv()
    ensures Inv(Start)
  {
    assert Shape(0, false, []);
  }

  // ----- main results -----

  /** s is a beginning of S1? S3 S4 S5*. */
  ghost predicate Orderly(s: seq<Level>) {
    exists fast, k :: s <= Promised(fast, k)
  }

  function Promised(fast: bool, k: nat): seq<Level> {
    (if fast then [1] else []) + [3, 4] + Fives(k)
  }

  /** Over any order of events, the signals since the last reset are a beginning of S1? S3 S4 S5*: S2 is never signalled,
      and S1, S3 and S4 at most once each. */
  lemma SignalsOrderly(es: seq<Event>)
    ensures Orderly(Run(es).signals)
    ensures 2 !in Run(es).signals
  {
    hide Run;
    RunInv(es);
    var l := Run(es);
    var fast :| Shape(l.level, fast, l.signals);
    if l.level == 5 {
      var k :| k > 0 && l.signals == (if fast then [1] else []) + [3, 4] + Fives(k);
      assert l.signals <= Promised(fast, k);
    } else {
      assert l.signals <= Promised(fast, 0);
    }
  }

  /** A step signals n first among its new signals. */
  ghost predicate Signals(e: Event, l: Load, n: Level) {
    !e.Reset? && |Step(e, l).signals| > |l.signals| && Step(e, l).signals[|l.signals|] == n
  }

  /** S1 is signalled if and only if nothing was signalled yet and the FIG 0/2 and FIG 0/1 entries of the selected service
      are in the current tables when a FIG 0/1 or 0/2 was parsed. */
  lemma FastStartReady(e: Event, l: Load)
    ensures Signals(e, l, 1) <==>
            e.FigParsed? && l.level == 0 && l.sid > 0 &&
            exists i :: FirstAudio(l.curr.s2, l.sid, i) && Held(l.curr.s1, l.curr.s2[i].value.content.subCh)
  {
    hide AudioComplete, Known, Held;
    var i := AudioOf(l.curr.s2, l.sid);
    if i < |l.curr.s2| {
      assert FirstAudio(l.curr.s2, l.sid, i);
      KnownIsHeld(l.curr.s1, l.curr.s2[i].value.content.subCh);
    }
  }

  /** The first component of the service in transport mechanism 0. */
  ghost predicate FirstAudio(s: seq<Keyed<(nat, nat), Component>>, sid: nat, i: int) {
    && 0 <= i < |s| && s[i].key.0 == sid && s[i].value.content.Audio?
    && forall j :: 0 <= j < i && s[j].key.0 == sid ==> !s[j].value.content.Audio?
  }

  /** There is an audio component, and each has a 16-bit service id, a FIG 0/1 entry for its sub-channel and a label. */
  ghost predicate AllDescribed(c: Config, labels: set<nat>) {
    && (exists e :: e in c.s2 && e.value.content.Audio?)
    && (forall e :: e in c.s2 && e.value.content.Audio? ==> !e.value.pd && e.key.0 % 0x10000 in labels)
    && (forall e :: e in c.s2 && e.value.content.Audio? ==> Held(c.s1, e.value.content.subCh))
  }

  lemma KnownIsHeld<K, V>(s: seq<Keyed<K, V>>, k: K)
    ensures Known(s, k) <==> Held(s, k)
  {
    hide Lookup;
    assert Known(s, k) ==> s[Lookup(s, k)].key == k;
  }

  lemma AudioCompleteIs(c: Config, labels: set<nat>)
    ensures AudioComplete(c, labels) <==> AllDescribed(c, labels)
  {
    hide Known, Held;
    forall e | e in c.s2 && e.value.content.Audio?
      ensures Known(c.s1, e.value.content.subCh) <==> Held(c.s1, e.value.content.subCh)
    {
      KnownIsHeld(c.s1, e.value.content.subCh);
    }
    if AudioComplete(c, labels) {
      var i :| 0 <= i < |c.s2| && c.s2[i].value.content.Audio?;
      assert c.s2[i] in c.s2;
      forall e | e in c.s2 && e.value.content.Audio?
        ensures Described(e, c, labels)
      {
      }
    }
  }

  /** S3 is signalled if and only if it was not yet, and every audio service is described when the short timer runs out,
      or the long timer runs out. */
  lemma AudioReady(e: Event, l: Load)
    ensures Signals(e, l, 3) <==>
            l.level < 3 && ((e.ConsistencyTimer? && AllDescribed(l.curr, l.labels)) || e.StateTimer?)
  {
    hide AudioComplete, AllDescribed, Startable;
    AudioCompleteIs(l.curr, l.labels);
  }

  /** S4 is signalled, alone or right behind S3, if and only if it was not yet, and the packet services too are complete
      when the short timer runs out, or the long timer runs out. */
  lemma PacketsReady(e: Event, l: Load)
    requires !e.Reset?
    ensures 4 in Step(e, l).signals[|l.signals|..] <==>
            l.level < 4 && (e.StateTimer? ||
                            (e.ConsistencyTimer? && e.packets && (l.level == 3 || AllDescribed(l.curr, l.labels))))
  {
    hide AudioComplete, AllDescribed, Startable;
    AudioCompleteIs(l.curr, l.labels);
    var t := Step(e, l).signals[|l.signals|..];
    var done := e.StateTimer? || (e.ConsistencyTimer? && e.packets);
    var three := e.StateTimer? || (e.ConsistencyTimer? && AudioComplete(l.curr, l.labels));
    if l.level < 3 {
      assert three && done ==> t == [3, 4];
      assert three && !done ==> t == [3];
      assert !three ==> t == [] || t == [1];
    } else if l.level == 3 {
      assert t == if done then [4] else [];
    } else {
      assert t == [] || t == [5];
    }
  }

  /** S5 is signalled if and only if an entry is stored after S4. */
  lemma DeferredReady(e: Event, l: Load)
    ensures Signals(e, l, 5) <==> e.Stored? && l.level >= 4
  {
    hide AudioComplete, Startable;
  }
}
