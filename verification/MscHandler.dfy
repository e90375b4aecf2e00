/** The main service channel: 18 blocks of soft bits make a common interleaved frame (CIF), and each backend gets the
    slice of its sub-channel. */
module MscHandlerClass {
  import opened FibTables
  import opened FibParser
  import opened FibInvariant

  const CU_BITS := 64
  const BLOCK := 3072
  const BLOCKS := 18
  const CIF_BITS := 55296

  /** The part of a running service that matters here: the capacity units it was started with. */
  datatype Service = Service(start: nat, size: nat)

  predicate Fits(b: Service) {
    b.start + b.size <= UNITS
  }

  /** The bits of a slice. */
  function Slice<T>(cif: seq<T>, b: Service): (r: seq<T>)
    requires |cif| == CIF_BITS && Fits(b)
    ensures |r| == CU_BITS * b.size
  {
    cif[CU_BITS * b.start..CU_BITS * (b.start + b.size)]
  }

  function Slices<T>(cif: seq<T>, bs: seq<Service>): (r: seq<seq<T>>)
    requires |cif| == CIF_BITS && forall k :: 0 <= k < |bs| ==> Fits(bs[k])
    ensures |r| == |bs| && forall k :: 0 <= k < |bs| ==> r[k] == Slice(cif, bs[k])
  {
    seq(|bs|, k requires 0 <= k < |bs| => Slice(cif, bs[k]))
  }

  /** The concatenation of blocks. */
  function Joined<T>(bs: seq<seq<T>>): (r: seq<T>)
    requires forall k :: 0 <= k < |bs| ==> |bs[k]| == BLOCK
    ensures |r| == BLOCK * |bs|
  {
    if bs == [] then [] else Joined(bs[..|bs| - 1]) + bs[|bs| - 1]
  }

  class MscHandler {
    const cif: array<int>
    var backends: seq<Service>

    ghost predicate Valid()
      reads this
    {
      cif.Length == CIF_BITS && forall k :: 0 <= k < |backends| ==> Fits(backends[k])
    }

    constructor ()
      ensures Valid() && fresh(cif) && backends == []
    {
      cif := new int[CIF_BITS](_ => 0);
      backends := [];
    }

    /** set_channel, for a service found in a configuration. */
    method SetChannel(e: SubChannel)
      requires Valid() && e.start + e.size <= UNITS
      modifies this`backends
      ensures Valid() && backends == old(backends) + [Service(e.start, e.size)]
    {
      backends := backends + [Service(e.start, e.size)];
    }

    /** process_block: the block goes to its place; the last block of a CIF hands every backend its slice. */
    method ProcessBlock(soft: array<int>, blockNr: nat) returns (delivered: seq<seq<int>>)
      requires Valid() && blockNr >= 4 && soft.Length == BLOCK && soft != cif
      modifies cif
      ensures var i := (blockNr - 4) % BLOCKS;
              && cif[..] == old(cif[..BLOCK * i]) + soft[..] + old(cif[BLOCK * (i + 1)..])
              && delivered == if i == BLOCKS - 1 then Slices(cif[..], backends) else []
    {
      var i := (blockNr - 4) % BLOCKS;
      ghost var before := cif[..];
      Copy(soft, i);
      assert cif[..BLOCK * i] == before[..BLOCK * i];
      delivered := [];
      if i < BLOCKS - 1 {
        return;
      }
      for k := 0 to |backends|
        invariant |delivered| == k && forall j :: 0 <= j < k ==> delivered[j] == Slice(cif[..], backends[j])
      {
        var b := backends[k];
        assert cif[..][CU_BITS * b.start..CU_BITS * (b.start + b.size)] == cif[CU_BITS * b.start..CU_BITS * (b.start + b.size)];
        delivered := delivered + [cif[CU_BITS * b.start..CU_BITS * (b.start + b.size)]];
      }
    }

    method Copy(soft: array<int>, i: nat)
      requires Valid() && soft.Length == BLOCK && soft != cif && i < BLOCKS
      modifies cif
      ensures cif[..] == old(cif[..BLOCK * i]) + soft[..] + old(cif[BLOCK * (i + 1)..])
    {
      for j := 0 to BLOCK
        invariant forall k :: 0 <= k < j ==> cif[BLOCK * i + k] == soft[k]
        invariant forall k :: 0 <= k < CIF_BITS && !(BLOCK * i <= k < BLOCK * i + j) ==> cif[k] == old(cif[k])
      {
        cif[BLOCK * i + j] := soft[j];
      }
      forall k | BLOCK * i <= k < BLOCK * (i + 1)
        ensures cif[k] == soft[k - BLOCK * i]
      {
        assert cif[BLOCK * i + (k - BLOCK * i)] == soft[k - BLOCK * i];
      }
    }

    /** The 18 blocks of a CIF, whatever the buffer held before: every backend gets its slice of their concatenation. */
    method ProcessCif(blocks: seq<array<int>>, first: nat) returns (delivered: seq<seq<int>>)
      requires Valid() && |blocks| == BLOCKS && first >= 4 && (first - 4) % BLOCKS == 0
      requires forall k :: 0 <= k < BLOCKS ==> blocks[k].Length == BLOCK && blocks[k] != cif
      modifies cif
      ensures var sent := seq(BLOCKS, k requires 0 <= k < BLOCKS => old(blocks[k][..]));
              delivered == Slices(Joined(sent), backends)
    {
      ghost var sent := seq(BLOCKS, k requires 0 <= k < BLOCKS => old(blocks[k][..]));
      delivered := [];
      assert cif[..0] == Joined(sent[..0]);
      for k := 0 to BLOCKS
        invariant cif[..BLOCK * k] == Joined(sent[..k])
        invariant k == BLOCKS ==> delivered == Slices(cif[..], backends)
      {
        ghost var before := cif[..];
        delivered := ProcessBlock(blocks[k], first + k);
        assert (first + k - 4) % BLOCKS == k;
        assert blocks[k][..] == sent[k];
        assert sent[..k + 1][..k] == sent[..k];
        assert cif[..BLOCK * (k + 1)] == before[..BLOCK * k] + sent[k];
      }
      assert cif[..BLOCK * BLOCKS] == cif[..];
      assert sent[..BLOCKS] == sent;
    }
  }

  // ----- slices of a configuration -----

  function ServiceOf(e: SubChannel): Service {
    Service(e.start, e.size)
  }

  /** Bit x of the CIF lies in a capacity unit of the service. */
  predicate Reads(b: Service, x: nat) {
    b.start <= x / 64 < b.start + b.size
  }

  /** A slice is all the bits of the service's capacity units, in order. */
  lemma SliceIsUnits<T>(cif: seq<T>, b: Service)
    requires |cif| == CIF_BITS && Fits(b)
    ensures forall x :: 0 <= x < |cif| ==> (Reads(b, x) <==> 0 <= x - 64 * b.start < |Slice(cif, b)|)
    ensures forall x :: 0 <= x < |cif| && Reads(b, x) ==> Slice(cif, b)[x - 64 * b.start] == cif[x]
  {
  }

  /** In every reachable state, in both configurations: each sub-channel has a slice inside the CIF, and the slices of
      two sub-channels have no bit in common. */
  lemma SlicesLegal(es: seq<Event>, next: bool, i: nat, j: nat)
    requires var s := (if next then Run(es).next else Run(es).curr).s1; i < j < |s|
    ensures var s := (if next then Run(es).next else Run(es).curr).s1;
            var a, b := ServiceOf(s[i].value), ServiceOf(s[j].value);
            && Fits(a) && Fits(b) && s[i].key != s[j].key
            && forall x :: !(Reads(a, x) && Reads(b, x))
  {
    hide Run;
    RunInv(es);
    var s := (if next then Run(es).next else Run(es).curr).s1;
    assert Apart(s[i].value, s[j].value);
  }
}
