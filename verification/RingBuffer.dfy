/** The single-reader single-writer ring buffer as a protocol: one writer and one reader interleave at
    the granularity of index loads, element copies and index stores. */
module RingBufferProtocol {
  import opened Modular

  datatype Option<T> = None | Some(value: T)

  /** Where the writer stands in put_data_into_ring_buffer. */
  datatype Writer<T> =
    | WIdle
    | WCopying(data: seq<T>, done: nat)  // free space was loaded; data is what fits

  /** Where the reader stands in get_data_from_ring_buffer or skip_data_in_ring_buffer. */
  datatype Reader<T> =
    | RIdle
    | RCopying(count: nat, got: seq<T>)  // the fill was loaded; count elements will be taken
    | SkipReload                         // the request exceeded the first loaded fill
    | SkipStore(count: nat)

  /** size elements of storage and two indices running modulo twice the size. The last two fields
      are the history: everything published by the writer, and what the reader took, position by
      position (None for skipped elements). */
  datatype State<T> = State(
    size: nat, buf: seq<T>, wi: nat, ri: nat,
    writer: Writer<T>, reader: Reader<T>,
    accepted: seq<T>, taken: seq<Option<T>>)

  /** get_ring_buffer_read_available: the difference of the indices under bigMask. */
  function Fill<T>(s: State<T>): (n: nat)
    requires s.size > 0
  {
    Mod(s.wi - s.ri, 2 * s.size)
  }

  function Space<T>(s: State<T>): int
    requires s.size > 0
  {
    s.size - Fill(s)
  }

  function Min(a: int, b: int): int {
    if a <= b then a else b
  }

  /** The cell of element k of a transfer that starts at index idx: the first region runs to the end
      of the storage, the second one starts at 0. */
  function Cell(idx: nat, k: nat, size: nat): nat
    requires size > 0
  {
    var start := Mod(idx, size);
    if start + k < size then start + k else start + k - size
  }

  // ----- atomic steps -----

  ghost predicate Init<T>(s: State<T>) {
    && s.size > 0 && |s.buf| == s.size && s.wi == 0 && s.ri == 0
    && s.writer.WIdle? && s.reader.RIdle? && s.accepted == [] && s.taken == []
  }

  /** The writer is asked to put req: it loads the read index and settles how much fits. */
  ghost predicate WLoad<T>(s: State<T>, t: State<T>, req: seq<T>) {
    && s.size > 0 && s.writer.WIdle? && Space(s) >= 0
    && t == s.(writer := WCopying(req[..Min(|req|, Space(s))], 0))
  }

  ghost predicate WCopy<T>(s: State<T>, t: State<T>) {
    && s.size > 0 && |s.buf| == s.size && s.writer.WCopying? && s.writer.done < |s.writer.data|
    && var c := Cell(s.wi, s.writer.done, s.size);
       c < s.size && t == s.(buf := s.buf[c := s.writer.data[s.writer.done]],
                             writer := s.writer.(done := s.writer.done + 1))
  }

  /** The writer stores its index, which publishes the elements. */
  ghost predicate WStore<T>(s: State<T>, t: State<T>) {
    && s.size > 0 && s.writer.WCopying? && s.writer.done == |s.writer.data|
    && t == s.(wi := Mod(s.wi + |s.writer.data|, 2 * s.size), writer := WIdle,
               accepted := s.accepted + s.writer.data)
  }

  ghost predicate RLoad<T>(s: State<T>, t: State<T>, req: nat) {
    && s.size > 0 && s.reader.RIdle?
    && t == s.(reader := RCopying(Min(req, Fill(s)), []))
  }

  ghost predicate RCopy<T>(s: State<T>, t: State<T>) {
    && s.size > 0 && |s.buf| == s.size && s.reader.RCopying? && |s.reader.got| < s.reader.count
    && var c := Cell(s.ri, |s.reader.got|, s.size);
       c < s.size && t == s.(reader := s.reader.(got := s.reader.got + [s.buf[c]]))
  }

  function Somes<T>(xs: seq<T>): (r: seq<Option<T>>)
    ensures |r| == |xs| && forall i :: 0 <= i < |r| ==> r[i] == Some(xs[i])
  {
    seq(|xs|, i requires 0 <= i < |xs| => Some(xs[i]))
  }

  function Nones<T>(n: nat): (r: seq<Option<T>>)
    ensures |r| == n && forall i :: 0 <= i < |r| ==> r[i] == None
  {
    seq(n, _ => None)
  }

  /** The reader stores its index, which frees the cells. */
  ghost predicate RStore<T>(s: State<T>, t: State<T>) {
    && s.size > 0 && s.reader.RCopying? && |s.reader.got| == s.reader.count
    && t == s.(ri := Mod(s.ri + s.reader.count, 2 * s.size), reader := RIdle,
               taken := s.taken + Somes(s.reader.got))
  }

  /** skip_data_in_ring_buffer compares the request with the fill ... */
  ghost predicate SkipLoad<T>(s: State<T>, t: State<T>, req: nat) {
    && s.size > 0 && s.reader.RIdle?
    && t == s.(reader := if req > Fill(s) then SkipReload else SkipStore(req))
  }

  /** ... loads the fill a second time if the request was larger ... */
  ghost predicate SkipAgain<T>(s: State<T>, t: State<T>) {
    s.size > 0 && s.reader.SkipReload? && t == s.(reader := SkipStore(Fill(s)))
  }

  /** ... and advances the read index. */
  ghost predicate SkipAdvance<T>(s: State<T>, t: State<T>) {
    && s.size > 0 && s.reader.SkipStore?
    && t == s.(ri := Mod(s.ri + s.reader.count, 2 * s.size), reader := RIdle,
               taken := s.taken + Nones(s.reader.count))
  }

  ghost predicate WriterStep<T(!new)>(s: State<T>, t: State<T>) {
    (exists req :: WLoad(s, t, req)) || WCopy(s, t) || WStore(s, t)
  }

  ghost predicate ReaderStep<T>(s: State<T>, t: State<T>) {
    || (exists req :: RLoad(s, t, req)) || RCopy(s, t) || RStore(s, t)
    || (exists req :: SkipLoad(s, t, req)) || SkipAgain(s, t) || SkipAdvance(s, t)
  }

  ghost predicate Next<T(!new)>(s: State<T>, t: State<T>) {
    WriterStep(s, t) || ReaderStep(s, t)
  }

  // ----- the invariant -----

  /** The indices are the history lengths reduced modulo twice the size, at most size elements are
      in flight, and every one of them is in its cell. */
  ghost predicate Core<T>(s: State<T>) {
    var w, r := |s.accepted|, |s.taken|;
    && s.size > 0 && |s.buf| == s.size
    && s.wi == Mod(w, 2 * s.size) && s.ri == Mod(r, 2 * s.size)
    && r <= w <= r + s.size
    && (forall j :: r <= j < w ==> s.buf[Mod(j, s.size)] == s.accepted[j])
  }

  /** What the writer copied so far is in the free cells behind the published elements. */
  ghost predicate WriterInv<T>(s: State<T>)
    requires s.size > 0 && |s.buf| == s.size
  {
    var w := |s.accepted|;
    s.writer.WCopying? ==>
      && s.writer.done <= |s.writer.data| && w + |s.writer.data| <= |s.taken| + s.size
      && forall k :: w <= k < w + s.writer.done ==> s.buf[Mod(k, s.size)] == s.writer.data[k - w]
  }

  /** What the reader copied so far are the next published elements. */
  ghost predicate ReaderInv<T>(s: State<T>) {
    var r := |s.taken|;
    match s.reader
    case RIdle => true
    case RCopying(count, got) =>
      && |got| <= count && r + count <= |s.accepted|
      && forall k :: 0 <= k < |got| ==> got[k] == s.accepted[r + k]
    case SkipReload => true
    case SkipStore(count) => r + count <= |s.accepted|
  }

  /** Each element the reader took is the one the writer published at that position. */
  ghost predicate History<T>(s: State<T>) {
    && |s.taken| <= |s.accepted|
    && forall i :: 0 <= i < |s.taken| && s.taken[i].Some? ==> s.taken[i].value == s.accepted[i]
  }

  ghost predicate Inv<T>(s: State<T>) {
    Core(s) && WriterInv(s) && ReaderInv(s) && History(s)
  }

  lemma FillIs<T>(s: State<T>)
    requires Core(s)
    ensures Fill(s) == |s.accepted| - |s.taken|
  {
    hide Mod;
    ModDistance(|s.taken|, |s.accepted|, 2 * s.size);
  }

  lemma CellIs(idx: nat, x: nat, k: nat, size: nat)
    requires size > 0 && idx == Mod(x, 2 * size) && k < size
    ensures Cell(idx, k, size) == Mod(x + k, size)
  {
    hide Mod;
    ModTwice(x, size);
    ModAdd(x, k, size);
    var start := Mod(idx, size);
    if start + k < size {
      ModSmall(start + k, size);
    } else {
      ModAddMultiple(start + k - size, 1, size);
      ModSmall(start + k - size, size);
    }
  }

  /** The cell the writer fills holds none of the elements the reader can still take. */
  lemma NoOverwrite<T>(s: State<T>, t: State<T>)
    requires Inv(s) && WCopy(s, t)
    ensures forall j :: |s.taken| <= j < |s.accepted| ==> Mod(j, s.size) != Cell(s.wi, s.writer.done, s.size)
    ensures forall j :: |s.accepted| <= j < |s.accepted| + s.writer.done ==>
              Mod(j, s.size) != Cell(s.wi, s.writer.done, s.size)
  {
    hide Mod, Cell;
    var w, k := |s.accepted|, s.writer.done;
    CellIs(s.wi, w, k, s.size);
    forall j | |s.taken| <= j < w + k
      ensures Mod(j, s.size) != Mod(w + k, s.size)
    {
      ModDistinct(j, w + k, s.size);
    }
  }

  lemma InitInv<T>(s: State<T>)
    requires Init(s)
    ensures Inv(s)
  {
    hide Mod;
    ModSmall(0, 2 * s.size);
  }

  lemma WLoadInv<T>(s: State<T>, t: State<T>, req: seq<T>)
    requires Inv(s) && WLoad(s, t, req)
    ensures Inv(t)
  {
    hide Mod, Fill;
    FillIs(s);
  }

  lemma WCopyInv<T>(s: State<T>, t: State<T>)
    requires Inv(s) && WCopy(s, t)
    ensures Inv(t)
  {
    hide Mod, Cell;
    NoOverwrite(s, t);
    CellIs(s.wi, |s.accepted|, s.writer.done, s.size);
  }

  lemma WStoreInv<T>(s: State<T>, t: State<T>)
    requires Inv(s) && WStore(s, t)
    ensures Inv(t)
  {
    hide Mod;
    ModAdd(|s.accepted|, |s.writer.data|, 2 * s.size);
  }

  lemma RLoadInv<T>(s: State<T>, t: State<T>, req: nat)
    requires Inv(s) && RLoad(s, t, req)
    ensures Inv(t)
  {
    hide Mod, Fill;
    FillIs(s);
  }

  lemma RCopyInv<T>(s: State<T>, t: State<T>)
    requires Inv(s) && RCopy(s, t)
    ensures Inv(t)
  {
    hide Mod, Cell;
    CellIs(s.ri, |s.taken|, |s.reader.got|, s.size);
  }

  lemma RStoreInv<T>(s: State<T>, t: State<T>)
    requires Inv(s) && RStore(s, t)
    ensures Inv(t)
  {
    hide Mod;
    ModAdd(|s.taken|, s.reader.count, 2 * s.size);
  }

  lemma SkipInv<T>(s: State<T>, t: State<T>)
    requires Inv(s) && ((exists req :: SkipLoad(s, t, req)) || SkipAgain(s, t))
    ensures Inv(t)
  {
    hide Mod, Fill;
    FillIs(s);
  }

  lemma SkipAdvanceInv<T>(s: State<T>, t: State<T>)
    requires Inv(s) && SkipAdvance(s, t)
    ensures Inv(t)
  {
    hide Mod;
    ModAdd(|s.taken|, s.reader.count, 2 * s.size);
  }

  lemma NextInv<T(!new)>(s: State<T>, t: State<T>)
    requires Inv(s) && Next(s, t)
    ensures Inv(t)
  {
    hide *;
    NextCases(s, t);
    if req :| WLoad(s, t, req) {
      WLoadInv(s, t, req);
    } else if WCopy(s, t) {
      WCopyInv(s, t);
    } else if WStore(s, t) {
      WStoreInv(s, t);
    } else if req :| RLoad(s, t, req) {
      RLoadInv(s, t, req);
    } else if RCopy(s, t) {
      RCopyInv(s, t);
    } else if RStore(s, t) {
      RStoreInv(s, t);
    } else if SkipAdvance(s, t) {
      SkipAdvanceInv(s, t);
    } else {
      SkipInv(s, t);
    }
  }

  lemma NextCases<T(!new)>(s: State<T>, t: State<T>)
    requires Next(s, t)
    ensures (exists req :: WLoad(s, t, req)) || WCopy(s, t) || WStore(s, t)
         || (exists req :: RLoad(s, t, req)) || RCopy(s, t) || RStore(s, t)
         || (exists req :: SkipLoad(s, t, req)) || SkipAgain(s, t) || SkipAdvance(s, t)
  {
    hide WLoad, WCopy, WStore, RLoad, RCopy, RStore, SkipLoad, SkipAgain, SkipAdvance;
  }

  // ----- refinement of an unbounded queue -----

  /** What a consumer could take now: the cells from the read index on. */
  function Contents<T>(s: State<T>): (q: seq<T>)
    requires s.size > 0 && |s.buf| == s.size
    ensures |q| == Fill(s)
  {
    seq(Fill(s), k requires 0 <= k < Fill(s) => s.buf[Mod(s.ri + k, s.size)])
  }

  datatype Event<T> = Silent | Enqueue(xs: seq<T>) | Dequeue(xs: seq<T>) | Drop(n: nat)

  ghost predicate QueueStep<T>(q: seq<T>, e: Event<T>, q': seq<T>) {
    match e
    case Silent => q' == q
    case Enqueue(xs) => q' == q + xs
    case Dequeue(xs) => xs <= q && q' == q[|xs|..]
    case Drop(n) => n <= |q| && q' == q[n..]
  }

  /** The queue operation a step stands for: only the index stores are visible. */
  ghost function Label<T>(s: State<T>, t: State<T>): Event<T> {
    if WStore(s, t) then Enqueue(s.writer.data)
    else if RStore(s, t) then Dequeue(s.reader.got)
    else if SkipAdvance(s, t) then Drop(s.reader.count)
    else Silent
  }

  lemma ContentsIs<T>(s: State<T>)
    requires Inv(s)
    ensures Contents(s) == s.accepted[|s.taken|..]
    ensures 0 <= Fill(s) <= s.size && 0 <= Space(s) <= s.size
  {
    hide Mod, Fill;
    FillIs(s);
    var r := |s.taken|;
    var q := Contents(s);
    forall k | 0 <= k < |q|
      ensures q[k] == s.accepted[r + k]
    {
      ModTwice(r, s.size);
      ModAdd(s.ri, k, s.size);
      ModAdd(r, k, s.size);
    }
  }

  lemma HistoryOf<T(!new)>(s: State<T>, t: State<T>)
    requires Inv(s) && Next(s, t)
    ensures t.accepted == s.accepted + (if WStore(s, t) then s.writer.data else [])
    ensures |t.taken| == |s.taken| + (if RStore(s, t) then |s.reader.got| else if SkipAdvance(s, t) then s.reader.count else 0)
    ensures WStore(s, t) ==> !RStore(s, t) && !SkipAdvance(s, t)
  {
    hide Mod, Fill, Cell, Inv;
  }

  /** Every step of the protocol is a step of an unbounded queue, or invisible. */
  lemma Refines<T(!new)>(s: State<T>, t: State<T>)
    requires Inv(s) && Next(s, t)
    ensures Inv(t) && QueueStep(Contents(s), Label(s, t), Contents(t))
  {
    hide Mod, Fill, Cell, Next, Contents, WStore, RStore, SkipAdvance;
    NextInv(s, t);
    ContentsIs(s);
    ContentsIs(t);
    HistoryOf(s, t);
    StoreCounts(s, t);
  }

  lemma StoreCounts<T>(s: State<T>, t: State<T>)
    ensures WStore(s, t) ==> s.writer.WCopying?
    ensures RStore(s, t) ==> s.reader.RCopying? && |s.reader.got| == s.reader.count
    ensures SkipAdvance(s, t) ==> s.reader.SkipStore?
  {
    hide Mod;
  }

  // ----- no operation waits -----

  /** In every reachable state the writer can go on: in the middle of a put, or with a new one, of which it takes as much as
      is not filled. */
  lemma WriterGoesOn<T(!new)>(s: State<T>, req: seq<T>)
    requires Inv(s)
    ensures s.writer.WIdle? ==>
              var free := s.size - (|s.accepted| - |s.taken|);
              && 0 <= free
              && (exists t :: WriterStep(s, t) && t.writer == WCopying(if |req| <= free then req else req[..free], 0))
    ensures exists t :: WriterStep(s, t)
  {
    hide Mod;
    FillIs(s);
    match s.writer
    case WIdle =>
      var t := s.(writer := WCopying(req[..Min(|req|, Space(s))], 0));
      assert WLoad(s, t, req);
      assert WriterStep(s, t);
    case WCopying(data, done) =>
      if done < |data| {
        CellIs(s.wi, |s.accepted|, done, s.size);
        var t := s.(buf := s.buf[Cell(s.wi, done, s.size) := data[done]], writer := WCopying(data, done + 1));
        assert WCopy(s, t);
        assert WriterStep(s, t);
      } else {
        var t := s.(wi := Mod(s.wi + |data|, 2 * s.size), writer := WIdle, accepted := s.accepted + data);
        assert WStore(s, t);
        assert WriterStep(s, t);
      }
  }

  /** So can the reader, with a get that takes as much as is filled, or a skip. */
  lemma ReaderGoesOn<T(!new)>(s: State<T>, n: nat)
    requires Inv(s)
    ensures s.reader.RIdle? ==>
              var filled := |s.accepted| - |s.taken|;
              && 0 <= filled
              && (exists t :: ReaderStep(s, t) && t.reader == RCopying(if n <= filled then n else filled, []))
              && (exists t :: ReaderStep(s, t) && t.reader == if n <= filled then SkipStore(n) else SkipReload)
    ensures exists t :: ReaderStep(s, t)
  {
    hide Mod, Cell;
    FillIs(s);
    match s.reader
    case RIdle =>
      var t := s.(reader := RCopying(Min(n, Fill(s)), []));
      assert RLoad(s, t, n);
      assert ReaderStep(s, t);
      var u := s.(reader := if n > Fill(s) then SkipReload else SkipStore(n));
      assert SkipLoad(s, u, n);
      assert ReaderStep(s, u);
    case RCopying(count, got) =>
      if |got| < count {
        CellIs(s.ri, |s.taken|, |got|, s.size);
        var t := s.(reader := RCopying(count, got + [s.buf[Cell(s.ri, |got|, s.size)]]));
        assert RCopy(s, t);
        assert ReaderStep(s, t);
      } else {
        var t := s.(ri := Mod(s.ri + count, 2 * s.size), reader := RIdle, taken := s.taken + Somes(got));
        assert RStore(s, t);
        assert ReaderStep(s, t);
      }
    case SkipReload =>
      var t := s.(reader := SkipStore(Fill(s)));
      assert SkipAgain(s, t);
      assert ReaderStep(s, t);
    case SkipStore(count) =>
      var t := s.(ri := Mod(s.ri + count, 2 * s.size), reader := RIdle, taken := s.taken + Nones(count));
      assert SkipAdvance(s, t);
      assert ReaderStep(s, t);
  }

  // ----- whole runs -----

  ghost predicate Run<T(!new)>(run: seq<State<T>>) {
    && |run| > 0 && Init(run[0])
    && forall i :: 0 <= i < |run| - 1 ==> Next(run[i], run[i + 1])
  }

  lemma {:induction false} RunInv<T(!new)>(run: seq<State<T>>, i: nat)
    requires Run(run) && i < |run|
    ensures Inv(run[i])
  {
    hide Inv, Init, Next;
    if i == 0 {
      InitInv(run[0]);
    } else {
      RunInv(run, i - 1);
      assert Next(run[i - 1], run[i - 1 + 1]);
      NextInv(run[i - 1], run[i]);
    }
  }

  /** The values the reader got, in order. */
  function Values<T>(taken: seq<Option<T>>): seq<T> {
    if taken == [] then []
    else
      var n := |taken| - 1;
      Values(taken[..n]) + (match taken[n] case Some(v) => [v] case None => [])
  }

  lemma {:induction false} ValuesPrefix<T>(taken: seq<Option<T>>, accepted: seq<T>)
    requires |taken| <= |accepted|
    requires forall i :: 0 <= i < |taken| ==> taken[i] == Some(accepted[i])
    ensures Values(taken) == accepted[..|taken|]
  {
    if taken != [] {
      var n := |taken| - 1;
      ValuesPrefix(taken[..n], accepted);
    }
  }

  /** In every interleaving, at every moment: the fill is within 0..size, what the reader took is
      position by position what the writer published, and without skips the output is a prefix of
      the input. */
  lemma RunSafe<T(!new)>(run: seq<State<T>>, i: nat)
    requires Run(run) && i < |run|
    ensures History(run[i]) && run[i].size > 0
    ensures Fill(run[i]) == |run[i].accepted| - |run[i].taken| <= run[i].size
    ensures (forall j :: 0 <= j < |run[i].taken| ==> run[i].taken[j].Some?) ==>
              Values(run[i].taken) <= run[i].accepted
  {
    hide Mod, Fill, Run;
    RunInv(run, i);
    FillIs(run[i]);
    var s := run[i];
    if forall j :: 0 <= j < |s.taken| ==> s.taken[j].Some? {
      ValuesPrefix(s.taken, s.accepted);
    }
  }
}

/** The RingBuffer class. Its methods carry the protocol state along as a ghost field: put is a
    sequence of writer steps, get and skip are sequences of reader steps. */
module RingBufferClass {
  import opened Modular
  import opened RingBufferProtocol

  class RingBuffer<T(0)> {
    const buffer: array<T>
    var writeIndex: nat
    var readIndex: nat
    ghost var state: State<T>

    ghost predicate Tracks()
      reads this, buffer
    {
      && state.buf == buffer[..] && state.size == buffer.Length
      && state.wi == writeIndex && state.ri == readIndex && Inv(state)
    }

    ghost predicate Valid()
      reads this, buffer
    {
      Tracks() && state.writer.WIdle? && state.reader.RIdle?
    }

    constructor (size: nat)
      requires size > 0
      ensures Valid() && Contents(state) == [] && buffer.Length == size && fresh(buffer)
    {
      buffer := new T[size];
      writeIndex := 0;
      readIndex := 0;
      new;
      state := State(size, buffer[..], 0, 0, WIdle, RIdle, [], []);
      InitInv(state);
      ContentsIs(state);
    }

    function ReadAvailable(): (n: nat)
      requires buffer.Length > 0
      reads this
    {
      Mod(writeIndex - readIndex, 2 * buffer.Length)
    }

    /** _get_ring_buffer_write_regions and its read twin: where a transfer of n elements from index
        idx starts and how many elements come before the wrap. */
    method Regions(idx: nat, n: nat) returns (start: nat, size1: nat, size2: nat)
      requires 0 < buffer.Length && n <= buffer.Length
      ensures size1 + size2 == n && start + size1 <= buffer.Length && size2 <= buffer.Length
      ensures forall k :: 0 <= k < n ==> Cell(idx, k, buffer.Length) == if k < size1 then start + k else k - size1
    {
      start := Mod(idx, buffer.Length);
      if start + n > buffer.Length {
        size1 := buffer.Length - start;
        size2 := n - size1;
      } else {
        size1 := n;
        size2 := 0;
      }
    }

    /** Copies element k of the pending put into its cell. */
    method StoreElement(x: T, c: nat)
      requires Tracks() && state.writer.WCopying? && state.writer.done < |state.writer.data|
      requires x == state.writer.data[state.writer.done] && c == Cell(writeIndex, state.writer.done, buffer.Length)
      modifies buffer, this`state
      ensures Tracks() && state == old(state).(buf := state.buf, writer := old(state).writer.(done := old(state).writer.done + 1))
    {
      hide Mod, Cell, Core, WriterInv, ReaderInv, History;
      assert buffer.Length > 0 && c < buffer.Length by { CellRange(state); }
      buffer[c] := x;
      ghost var next := state.(buf := buffer[..], writer := state.writer.(done := state.writer.done + 1));
      assert WCopy(state, next);
      WCopyInv(state, next);
      state := next;
    }

    /** put_data_into_ring_buffer: appends as much of data as fits. */
    method Put(data: seq<T>) returns (n: nat)
      requires Valid()
      modifies this`writeIndex, this`state, buffer
      ensures Valid() && n == Min(|data|, buffer.Length - |old(Contents(state))|)
      ensures Contents(state) == old(Contents(state)) + data[..n]
      ensures state.accepted == old(state.accepted) + data[..n] && state.taken == old(state.taken)
    {
      hide Mod, Cell, Core, WriterInv, ReaderInv, History, Contents;
      ContentsIs(state);
      CoreParts(state);
      n := Min(|data|, buffer.Length - ReadAvailable());
      ghost var loaded := state.(writer := WCopying(data[..n], 0));
      WLoadInv(state, loaded, data);
      state := loaded;
      var start, size1, size2 := Regions(writeIndex, n);
      for k := 0 to size1
        invariant Tracks() && state == loaded.(buf := state.buf, writer := WCopying(data[..n], k))
      {
        StoreElement(data[k], start + k);
      }
      for k := 0 to size2
        invariant Tracks() && state == loaded.(buf := state.buf, writer := WCopying(data[..n], size1 + k))
      {
        StoreElement(data[size1 + k], k);
      }
      writeIndex := Mod(writeIndex + n, 2 * buffer.Length);
      ghost var next := state.(wi := writeIndex, writer := WIdle, accepted := state.accepted + data[..n]);
      WStoreInv(state, next);
      ghost var a, r := state.accepted, |state.taken|;
      assert (a + data[..n])[r..] == a[r..] + data[..n];
      state := next;
      ContentsIs(state);
    }

    /** get_data_from_ring_buffer: takes up to count elements from the front. */
    method Get(count: nat) returns (data: seq<T>)
      requires Valid()
      modifies this`readIndex, this`state
      ensures Valid() && |data| == Min(count, |old(Contents(state))|)
      ensures old(Contents(state)) == data + Contents(state)
      ensures state.accepted == old(state.accepted) && state.taken == old(state.taken) + Somes(data)
    {
      hide Mod, Cell, Core, WriterInv, ReaderInv, History, Contents;
      ContentsIs(state);
      CoreParts(state);
      var n := Min(count, ReadAvailable());
      ghost var loaded := state.(reader := RCopying(n, []));
      RLoadInv(state, loaded, count);
      state := loaded;
      var start, size1, size2 := Regions(readIndex, n);
      data := [];
      for k := 0 to size1
        invariant Tracks() && state == loaded.(reader := RCopying(n, data)) && |data| == k
      {
        data := LoadElement(data, n, start + k);
      }
      for k := 0 to size2
        invariant Tracks() && state == loaded.(reader := RCopying(n, data)) && |data| == size1 + k
      {
        data := LoadElement(data, n, k);
      }
      readIndex := Mod(readIndex + n, 2 * buffer.Length);
      ghost var next := state.(ri := readIndex, reader := RIdle, taken := state.taken + Somes(data));
      RStoreInv(state, next);
      TakenAre(state);
      state := next;
      ContentsIs(state);
    }

    method LoadElement(data: seq<T>, ghost n: nat, c: nat) returns (data': seq<T>)
      requires Tracks() && state.reader == RCopying(n, data) && |data| < n
      requires c == Cell(readIndex, |data|, buffer.Length)
      modifies this`state
      ensures Tracks() && |data'| == |data| + 1 && state == old(state).(reader := RCopying(n, data'))
    {
      hide Mod, Cell, Core, WriterInv, ReaderInv, History;
      assert buffer.Length > 0 && c < buffer.Length by { CoreParts(state); ReaderCellRange(state); }
      data' := data + [buffer[c]];
      ghost var next := state.(reader := RCopying(n, data'));
      RCopyInv(state, next);
      state := next;
    }

    /** skip_data_in_ring_buffer. */
    method Skip(count: nat) returns (n: nat)
      requires Valid()
      modifies this`readIndex, this`state
      ensures Valid() && n == Min(count, |old(Contents(state))|) && Contents(state) == old(Contents(state))[n..]
    {
      hide Mod, Core, WriterInv, ReaderInv, History, Contents;
      ContentsIs(state);
      CoreParts(state);
      n := count;
      if n > ReadAvailable() {
        n := ReadAvailable();
      }
      ghost var loaded := state.(reader := SkipStore(n));
      SkipLoaded(state, loaded, count);
      state := loaded;
      readIndex := Mod(readIndex + n, 2 * buffer.Length);
      ghost var next := state.(ri := readIndex, reader := RIdle, taken := state.taken + Nones(n));
      SkipAdvanceInv(state, next);
      CoreParts(next);
      ghost var a, r := state.accepted, |state.taken|;
      assert a[r + n..] == a[r..][n..];
      state := next;
      ContentsIs(state);
    }
  }

  lemma CoreParts<T>(s: State<T>)
    requires Inv(s)
    ensures s.size > 0 && |s.buf| == s.size && |s.taken| <= |s.accepted|
  {
  }

  lemma CellRange<T>(s: State<T>)
    requires Inv(s) && s.writer.WCopying? && s.writer.done < |s.writer.data|
    ensures s.size > 0 && Cell(s.wi, s.writer.done, s.size) < s.size
  {
    hide Mod;
  }

  lemma ReaderCellRange<T>(s: State<T>)
    requires Inv(s) && s.reader.RCopying? && |s.reader.got| < s.reader.count
    ensures s.size > 0 && Cell(s.ri, |s.reader.got|, s.size) < s.size
  {
    hide Mod;
  }

  /** A finished read holds the front of the queue. */
  lemma TakenAre<T>(s: State<T>)
    requires Inv(s) && s.reader.RCopying? && |s.reader.got| == s.reader.count
    ensures s.accepted[|s.taken|..] == s.reader.got + s.accepted[|s.taken| + s.reader.count..]
  {
    hide Mod;
  }

  lemma SkipLoaded<T>(s: State<T>, t: State<T>, req: nat)
    requires Inv(s) && s.size > 0 && s.reader.RIdle? && t == s.(reader := SkipStore(Min(req, Fill(s))))
    ensures Inv(t)
  {
    hide Mod, Fill;
    FillIs(s);
  }
}
