/** The threaded Backend: process() fills one of 25 slots, run() empties them, and two semaphores count
    free and used slots. Both threads interleave at the granularity of semaphore operations, index
    updates and element copies; the slot is released before the segment is deconvolved. */
module BackendHandOff {
  import opened Modular

  const Slots: nat := 25

  /** Where process() stands. */
  datatype Producer<T> =
    | PIdle                        // waiting for a free slot, or between calls
    | PCopying(done: nat)          // memcpy into slot nextIn
    | PBumped                      // nextIn advanced, usedSlots not yet released

  /** Where run() and _process_segment stand. */
  datatype Consumer<T> =
    | CIdle                        // waiting for a used slot
    | CReading(got: seq<T>)        // reading slot nextOut element by element
    | CBumped                      // nextOut advanced, freeSlots not yet released
    | CDecoding                    // slot released, deconvolution under way

  /** nextIn and nextOut are slot numbers; submitted and consumed are the history: the segments handed
      to process() that got a slot, and the segments run() has read completely. */
  datatype State<T> = State(
    len: nat, slots: seq<seq<T>>, nextIn: nat, nextOut: nat, free: nat, used: nat,
    producer: Producer<T>, consumer: Consumer<T>,
    submitted: seq<seq<T>>, consumed: seq<seq<T>>)

  // ----- atomic steps -----

  ghost predicate Init<T>(s: State<T>) {
    && |s.slots| == Slots && (forall k :: 0 <= k < Slots ==> |s.slots[k]| == s.len)
    && s.nextIn == 0 && s.nextOut == 0 && s.free == Slots && s.used == 0
    && s.producer.PIdle? && s.consumer.CIdle? && s.submitted == [] && s.consumed == []
  }

  /** process(): freeSlots acquired for the segment seg. */
  ghost predicate PAcquire<T>(s: State<T>, t: State<T>, seg: seq<T>) {
    && s.producer.PIdle? && s.free > 0 && |seg| == s.len
    && t == s.(free := s.free - 1, producer := PCopying(0), submitted := s.submitted + [seg])
  }

  ghost predicate PCopy<T>(s: State<T>, t: State<T>) {
    && s.producer.PCopying? && s.producer.done < s.len && s.nextIn < |s.slots|
    && |s.slots[s.nextIn]| == s.len && |s.submitted| > 0 && |s.submitted[|s.submitted| - 1]| == s.len
    && var i := s.producer.done;
       t == s.(slots := s.slots[s.nextIn := s.slots[s.nextIn][i := s.submitted[|s.submitted| - 1][i]]],
               producer := PCopying(i + 1))
  }

  ghost predicate PBump<T>(s: State<T>, t: State<T>) {
    && s.producer.PCopying? && s.producer.done == s.len
    && t == s.(nextIn := Mod(s.nextIn + 1, Slots), producer := PBumped)
  }

  ghost predicate PRelease<T>(s: State<T>, t: State<T>) {
    s.producer.PBumped? && t == s.(used := s.used + 1, producer := PIdle)
  }

  ghost predicate CAcquire<T>(s: State<T>, t: State<T>) {
    s.consumer.CIdle? && s.used > 0 && t == s.(used := s.used - 1, consumer := CReading([]))
  }

  ghost predicate CRead<T>(s: State<T>, t: State<T>) {
    && s.consumer.CReading? && |s.consumer.got| < s.len && s.nextOut < |s.slots|
    && |s.slots[s.nextOut]| == s.len
    && t == s.(consumer := CReading(s.consumer.got + [s.slots[s.nextOut][|s.consumer.got|]]))
  }

  ghost predicate CBump<T>(s: State<T>, t: State<T>) {
    && s.consumer.CReading? && |s.consumer.got| == s.len
    && t == s.(nextOut := Mod(s.nextOut + 1, Slots), consumer := CBumped,
               consumed := s.consumed + [s.consumer.got])
  }

  ghost predicate CRelease<T>(s: State<T>, t: State<T>) {
    s.consumer.CBumped? && t == s.(free := s.free + 1, consumer := CDecoding)
  }

  ghost predicate CDone<T>(s: State<T>, t: State<T>) {
    s.consumer.CDecoding? && t == s.(consumer := CIdle)
  }

  ghost predicate Next<T(!new)>(s: State<T>, t: State<T>) {
    || (exists seg :: PAcquire(s, t, seg)) || PCopy(s, t) || PBump(s, t) || PRelease(s, t)
    || CAcquire(s, t) || CRead(s, t) || CBump(s, t) || CRelease(s, t) || CDone(s, t)
  }

  // ----- the invariant -----

  /** Slots held by process() and by run(). */
  function HeldByProducer<T>(s: State<T>): nat {
    if s.producer.PIdle? then 0 else 1
  }

  function HeldByConsumer<T>(s: State<T>): nat {
    if s.consumer.CReading? || s.consumer.CBumped? then 1 else 0
  }

  /** Segments completely copied, and slots emptied and given back. */
  function Filled<T>(s: State<T>): int {
    |s.submitted| - (if s.producer.PCopying? then 1 else 0)
  }

  function Freed<T>(s: State<T>): int {
    |s.consumed| - (if s.consumer.CBumped? then 1 else 0)
  }

  ghost predicate Counts<T>(s: State<T>) {
    && s.free + s.used + HeldByProducer(s) + HeldByConsumer(s) == Slots
    && |s.submitted| - HeldByProducer(s) == s.used + Freed(s) + HeldByConsumer(s)
    && Freed(s) >= 0
  }

  ghost predicate Shape<T>(s: State<T>) {
    && |s.slots| == Slots && (forall k :: 0 <= k < Slots ==> |s.slots[k]| == s.len)
    && (forall k :: 0 <= k < |s.submitted| ==> |s.submitted[k]| == s.len)
    && Filled(s) >= 0 && s.nextIn == Mod(Filled(s), Slots) && s.nextOut == Mod(|s.consumed|, Slots)
    && (s.producer.PCopying? ==> s.producer.done <= s.len && |s.submitted| > 0)
    && (s.consumer.CReading? ==> |s.consumer.got| <= s.len)
  }

  /** Every filled slot that is not yet emptied holds its segment; a slot being filled holds the
      copied part; run() has read a prefix of its segment. */
  ghost predicate Data<T>(s: State<T>)
    requires Shape(s)
  {
    var n := |s.consumed|;
    && n <= Filled(s)
    && (forall j :: n <= j < Filled(s) ==> s.slots[Mod(j, Slots)] == s.submitted[j])
    && (s.producer.PCopying? ==>
          s.slots[s.nextIn][..s.producer.done] == s.submitted[|s.submitted| - 1][..s.producer.done])
    && (s.consumer.CReading? ==> n < Filled(s) && s.consumer.got <= s.submitted[n])
  }

  ghost predicate InOrder<T>(s: State<T>) {
    s.consumed <= s.submitted
  }

  ghost predicate Inv<T>(s: State<T>) {
    Counts(s) && Shape(s) && Data(s) && InOrder(s)
  }

  /** While process() fills a slot, it is none of the filled ones: in particular not the one that
      run() is reading. */
  lemma SlotNotShared<T>(s: State<T>)
    requires Inv(s) && s.producer.PCopying?
    ensures forall j :: |s.consumed| <= j < Filled(s) ==> Mod(j, Slots) != s.nextIn
    ensures s.consumer.CReading? ==> s.nextIn != s.nextOut
  {
    hide Mod;
    forall j | |s.consumed| <= j < Filled(s)
      ensures Mod(j, Slots) != s.nextIn
    {
      ModDistinct(j, Filled(s), Slots);
    }
  }

  lemma InitInv<T>(s: State<T>)
    requires Init(s)
    ensures Inv(s)
  {
    hide Mod;
    ModSmall(0, Slots);
  }

  lemma PAcquireInv<T>(s: State<T>, t: State<T>, seg: seq<T>)
    requires Inv(s) && PAcquire(s, t, seg)
    ensures Inv(t)
  {
    hide Mod;
  }

  lemma PCopyInv<T>(s: State<T>, t: State<T>)
    requires Inv(s) && PCopy(s, t)
    ensures Inv(t)
  {
    hide Mod;
    SlotNotShared(s);
    var i, seg := s.producer.done, s.submitted[|s.submitted| - 1];
    assert t.slots[s.nextIn][..i + 1] == seg[..i + 1];
  }

  lemma PBumpInv<T>(s: State<T>, t: State<T>)
    requires Inv(s) && PBump(s, t)
    ensures Inv(t)
  {
    hide Mod;
    ModAdd(Filled(s), 1, Slots);
    var seg := s.submitted[|s.submitted| - 1];
    assert s.slots[s.nextIn] == s.slots[s.nextIn][..s.len] == seg[..s.len] == seg;
  }

  lemma CReadInv<T>(s: State<T>, t: State<T>)
    requires Inv(s) && CRead(s, t)
    ensures Inv(t)
  {
    hide Mod;
  }

  lemma CBumpInv<T>(s: State<T>, t: State<T>)
    requires Inv(s) && CBump(s, t)
    ensures Inv(t)
  {
    hide Mod;
    var n := |s.consumed|;
    ModAdd(n, 1, Slots);
    assert s.consumer.got == s.submitted[n];
    assert t.consumed == t.submitted[..n + 1];
  }

  lemma SemaphoreInv<T>(s: State<T>, t: State<T>)
    requires Inv(s) && (PRelease(s, t) || CAcquire(s, t) || CRelease(s, t) || CDone(s, t))
    ensures Inv(t)
  {
    hide Mod;
  }

  lemma NextInv<T(!new)>(s: State<T>, t: State<T>)
    requires Inv(s) && Next(s, t)
    ensures Inv(t)
  {
    hide Inv, PAcquire, PCopy, PBump, PRelease, CAcquire, CRead, CBump, CRelease, CDone;
    if seg :| PAcquire(s, t, seg) {
      PAcquireInv(s, t, seg);
    } else if PCopy(s, t) {
      PCopyInv(s, t);
    } else if PBump(s, t) {
      PBumpInv(s, t);
    } else if CRead(s, t) {
      CReadInv(s, t);
    } else if CBump(s, t) {
      CBumpInv(s, t);
    } else {
      SemaphoreInv(s, t);
    }
  }

  // ----- whole runs -----

  ghost predicate Run<T(!new)>(run: seq<State<T>>) {
    && |run| > 0 && Init(run[0])
    && forall i :: 0 <= i < |run| - 1 ==> Next(run[i], run[i + 1])
  }

  lemma {:induction false} RunInv<T(!new)>(run: seq<State<T>>, i: nat)
    requires Run(run) && i < |run|
    ensures Inv(run[i])
  {
    hide Inv, Init, Next;
    if i == 0 {
      InitInv(run[0]);
    } else {
      RunInv(run, i - 1);
      assert Next(run[i - 1], run[i - 1 + 1]);
      NextInv(run[i - 1], run[i]);
    }
  }

  /** In every interleaving: free, used and held slots are 25 together, run() has consumed a prefix of
      the submitted segments, and the slot being filled is not the slot being read. */
  lemma RunSafe<T(!new)>(run: seq<State<T>>, i: nat)
    requires Run(run) && i < |run|
    ensures run[i].free + run[i].used + HeldByProducer(run[i]) + HeldByConsumer(run[i]) == 25
    ensures run[i].consumed <= run[i].submitted
    ensures run[i].producer.PCopying? && run[i].consumer.CReading? ==> run[i].nextIn != run[i].nextOut
  {
    hide Mod, Run;
    RunInv(run, i);
    if run[i].producer.PCopying? {
      SlotNotShared(run[i]);
    }
  }

  /** Nothing is lost: once both threads are idle and no slot is used, every submitted segment has
      been consumed. */
  lemma RunDrained<T(!new)>(run: seq<State<T>>, i: nat)
    requires Run(run) && i < |run|
    requires run[i].producer.PIdle? && run[i].consumer.CIdle? && run[i].used == 0
    ensures run[i].consumed == run[i].submitted
  {
    hide Mod, Run;
    RunInv(run, i);
  }

  // ----- nothing gets stuck -----

  ghost predicate ProducerStep<T(!new)>(s: State<T>, t: State<T>) {
    (exists seg :: PAcquire(s, t, seg)) || PCopy(s, t) || PBump(s, t) || PRelease(s, t)
  }

  ghost predicate ConsumerStep<T>(s: State<T>, t: State<T>) {
    CAcquire(s, t) || CRead(s, t) || CBump(s, t) || CRelease(s, t) || CDone(s, t)
  }

  /** process() waits only while all slots are taken. */
  lemma ProducerLive<T(!new)>(s: State<T>, seg: seq<T>)
    requires Inv(s) && |seg| == s.len && (s.producer.PIdle? ==> s.free > 0)
    ensures exists t :: ProducerStep(s, t)
  {
    hide Mod;
    match s.producer
    case PIdle =>
      var t := s.(free := s.free - 1, producer := PCopying(0), submitted := s.submitted + [seg]);
      assert PAcquire(s, t, seg);
      assert ProducerStep(s, t);
    case PCopying(i) =>
      if i < s.len {
        var t := s.(slots := s.slots[s.nextIn := s.slots[s.nextIn][i := s.submitted[|s.submitted| - 1][i]]],
                    producer := PCopying(i + 1));
        assert PCopy(s, t);
        assert ProducerStep(s, t);
      } else {
        var t := s.(nextIn := Mod(s.nextIn + 1, Slots), producer := PBumped);
        assert PBump(s, t);
        assert ProducerStep(s, t);
      }
    case PBumped =>
      var t := s.(used := s.used + 1, producer := PIdle);
      assert PRelease(s, t);
      assert ProducerStep(s, t);
  }

  /** run() waits only while no slot is filled. */
  lemma ConsumerLive<T(!new)>(s: State<T>)
    requires Inv(s) && (s.consumer.CIdle? ==> s.used > 0)
    ensures exists t :: ConsumerStep(s, t)
  {
    hide Mod;
    match s.consumer
    case CIdle =>
      var t := s.(used := s.used - 1, consumer := CReading([]));
      assert CAcquire(s, t);
      assert ConsumerStep(s, t);
    case CReading(got) =>
      if |got| < s.len {
        var t := s.(consumer := CReading(got + [s.slots[s.nextOut][|got|]]));
        assert CRead(s, t);
        assert ConsumerStep(s, t);
      } else {
        var t := s.(nextOut := Mod(s.nextOut + 1, Slots), consumer := CBumped, consumed := s.consumed + [got]);
        assert CBump(s, t);
        assert ConsumerStep(s, t);
      }
    case CBumped =>
      var t := s.(free := s.free + 1, consumer := CDecoding);
      assert CRelease(s, t);
      assert ConsumerStep(s, t);
    case CDecoding =>
      var t := s.(consumer := CIdle);
      assert CDone(s, t);
      assert ConsumerStep(s, t);
  }

  /** In every state of every interleaving the two sides do not wait for each other: process() goes on unless it needs a
      slot and none is free, run() goes on unless it needs a segment and none is ready, and never do both wait. */
  lemma RunLive<T(!new)>(run: seq<State<T>>, i: nat, seg: seq<T>)
    requires Run(run) && i < |run| && |seg| == run[i].len
    ensures (exists t :: ProducerStep(run[i], t)) || (run[i].producer.PIdle? && run[i].free == 0)
    ensures (exists t :: ConsumerStep(run[i], t)) || (run[i].consumer.CIdle? && run[i].used == 0)
    ensures (exists t :: ProducerStep(run[i], t)) || (exists t :: ConsumerStep(run[i], t))
  {
    hide Run, ProducerStep, ConsumerStep, Shape, Data, InOrder;
    RunInv(run, i);
    var s := run[i];
    if !(s.producer.PIdle? && s.free == 0) {
      ProducerLive(s, seg);
    }
    if !(s.consumer.CIdle? && s.used == 0) {
      ConsumerLive(s);
    }
  }
}
