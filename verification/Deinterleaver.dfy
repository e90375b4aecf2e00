/** The 16-deep time de-interleaver of Backend::_process_segment, the inverse of the time interleaving
    of section 12 of EN 300 401. */
module Deinterleaver {
  import opened Modular
  import HandOff = BackendHandOff

  const Map: seq<nat> := [0, 8, 4, 12, 2, 10, 6, 14, 1, 9, 5, 13, 3, 11, 7, 15]

  /** The delay, in CIFs, of bit i. */
  function Delay(i: nat): (d: nat)
    ensures d < 16
  {
    Map[i % 16]
  }

  datatype Option<T> = None | Some(value: T)

  /** The vector handed to the deconvolver when segment n of fed arrives, n >= 16. */
  function Output(fed: seq<seq<int>>, n: nat, len: nat): (r: seq<int>)
    requires 16 <= n <= |fed| && forall k :: 0 <= k < |fed| ==> |fed[k]| == len
    ensures |r| == len && forall i :: 0 <= i < len ==> r[i] == fed[n - 16 + Delay(i)][i]
  {
    seq(len, i requires 0 <= i < len => fed[n - 16 + Delay(i)][i])
  }

  class Backend {
    const fragmentSize: nat
    const interleaveData: array2<int>
    var interleaverIndex: nat
    var countForInterleaver: nat
    ghost var fed: seq<seq<int>>

    /** Row j mod 16 holds segment j for the last 16 segments; unused rows hold zeros. */
    ghost predicate Valid()
      reads this, interleaveData
    {
      var n := |fed|;
      && interleaveData.Length0 == 16 && interleaveData.Length1 == fragmentSize
      && interleaverIndex == Mod(n, 16) && countForInterleaver == (if n < 16 then n else 16)
      && (forall k :: 0 <= k < n ==> |fed[k]| == fragmentSize)
      && (forall j, i :: n - 16 <= j < n && 0 <= j && 0 <= i < fragmentSize ==> interleaveData[Mod(j, 16), i] == fed[j][i])
    }

    constructor (fragmentSize: nat)
      ensures Valid() && fed == [] && this.fragmentSize == fragmentSize && fresh(interleaveData)
    {
      this.fragmentSize := fragmentSize;
      interleaveData := new int[16, fragmentSize]((_, _) => 0);
      interleaverIndex := 0;
      countForInterleaver := 0;
      fed := [];
      ModSmall(0, 16);
    }

    /** The exchange loop: reads each bit from the row its delay points to, then stores the new bit. */
    method Exchange(data: seq<int>) returns (tempX: array<int>)
      requires interleaveData.Length0 == 16 && interleaveData.Length1 == fragmentSize == |data| && interleaverIndex < 16
      modifies interleaveData
      ensures fresh(tempX) && tempX.Length == fragmentSize
      ensures forall c :: 0 <= c < fragmentSize ==>
                tempX[c] == old(interleaveData[Mod(interleaverIndex + Delay(c), 16), c])
      ensures forall k, c :: 0 <= k < 16 && 0 <= c < fragmentSize ==>
                interleaveData[k, c] == if k == interleaverIndex then data[c] else old(interleaveData[k, c])
    {
      hide Mod, Delay;
      tempX := new int[fragmentSize](_ => 0);
      for i := 0 to fragmentSize
        invariant forall k, c :: 0 <= k < 16 && i <= c < fragmentSize ==> interleaveData[k, c] == old(interleaveData[k, c])
        invariant forall k, c :: 0 <= k < 16 && 0 <= c < i ==>
                    interleaveData[k, c] == if k == interleaverIndex then data[c] else old(interleaveData[k, c])
        invariant forall c :: 0 <= c < i ==> tempX[c] == old(interleaveData[Mod(interleaverIndex + Delay(c), 16), c])
      {
        tempX[i] := interleaveData[Mod(interleaverIndex + Delay(i), 16), i];
        interleaveData[interleaverIndex, i] := data[i];
      }
    }

    /** _process_segment up to the deconvolver: None while the de-interleaver is filling. */
    method ProcessSegment(data: seq<int>) returns (r: Option<seq<int>>)
      requires Valid() && |data| == fragmentSize
      modifies this`interleaverIndex, this`countForInterleaver, this`fed, interleaveData
      ensures Valid() && fed == old(fed) + [data]
      ensures r.None? <==> |old(fed)| < 16
      ensures r.Some? ==> r.value == Output(old(fed), |old(fed)|, fragmentSize)
    {
      hide Mod, Delay;
      ghost var n := |fed|;
      var tempX := Exchange(data);
      if n >= 16 {
        forall c | 0 <= c < fragmentSize
          ensures tempX[c] == fed[n - 16 + Delay(c)][c]
        {
          RowOf(n, Delay(c));
        }
      }
      forall j, i | n - 15 <= j < n && 0 <= j && 0 <= i < fragmentSize
        ensures interleaveData[Mod(j, 16), i] == fed[j][i]
      {
        ModDistinct(j, n, 16);
      }
      ModAdd(n, 1, 16);
      interleaverIndex := Mod(interleaverIndex + 1, 16);
      fed := fed + [data];
      if countForInterleaver <= 15 {
        countForInterleaver := countForInterleaver + 1;
        return None;
      }
      r := Some(tempX[..]);
      assert r.value == Output(fed[..n], n, fragmentSize);
      assert fed[..n] == old(fed);
    }
  }

  /** The row read for delay d holds the segment of 16 - d CIFs ago. */
  lemma RowOf(n: nat, d: nat)
    requires 16 <= n && d < 16
    ensures Mod(Mod(n, 16) + d, 16) == Mod(n - 16 + d, 16)
  {
    hide Mod;
    ModAdd(n, d, 16);
    ModAddMultiple(n - 16 + d, 1, 16);
  }

  // ----- against the transmitter -----

  /** The delay of bit i in the standard's interleaver: the four low bits of i, reversed. */
  function SentDelay(i: nat): nat {
    8 * (i % 2) + 4 * (i / 2 % 2) + 2 * (i / 4 % 2) + i / 8 % 2
  }

  /** The receiver's table holds the transmitter's delays. */
  lemma DelayIsSent(i: nat)
    ensures Delay(i) == SentDelay(i)
  {
    LowBits(i / 16, i % 16);
    MapReverses(i % 16);
  }

  lemma LowBits(q: nat, r: nat)
    requires r < 16
    ensures SentDelay(16 * q + r) == SentDelay(r)
  {
    Split(8 * q + r / 2, r % 2, 2);
    Split(4 * q + r / 4, r % 4, 4);
    Split(2 * q + r / 8, r % 8, 8);
    EvenPart(4 * q, r / 2);
    EvenPart(2 * q, r / 4);
    EvenPart(q, r / 8);
  }

  lemma EvenPart(k: nat, x: nat)
    ensures (2 * k + x) % 2 == x % 2
  {
  }

  lemma MapReverses(r: nat)
    requires r < 16
    ensures Map[r] == SentDelay(r)
  {
  }

  /** What the standard's interleaver sends: bit i of CIF r is bit i of frame r - delay. Bits of
      frames before the first one are arbitrary. */
  ghost predicate Interleaved(fed: seq<seq<int>>, b: seq<seq<int>>, len: nat) {
    && |fed| <= |b|
    && (forall n :: 0 <= n < |fed| ==> |fed[n]| == len) && (forall n :: 0 <= n < |b| ==> |b[n]| == len)
    && forall n, i :: 0 <= i < len && SentDelay(i) <= n < |fed| ==> fed[n][i] == b[n - SentDelay(i)][i]
  }

  /** Every vector handed to the deconvolver is the frame of exactly 16 CIFs earlier. */
  lemma OutputIsDelayed(fed: seq<seq<int>>, b: seq<seq<int>>, len: nat, n: nat)
    requires Interleaved(fed, b, len) && 16 <= n <= |fed|
    ensures Output(fed, n, len) == b[n - 16]
  {
    hide SentDelay, Delay;
    forall i | 0 <= i < len
      ensures Output(fed, n, len)[i] == b[n - 16][i]
    {
      DelayIsSent(i);
      assert fed[n - 16 + SentDelay(i)][i] == b[n - 16 + SentDelay(i) - SentDelay(i)][i];
    }
  }

  /** All vectors handed to the deconvolver while fed arrives. */
  function Outputs(fed: seq<seq<int>>, len: nat): (r: seq<seq<int>>)
    requires forall k :: 0 <= k < |fed| ==> |fed[k]| == len
    ensures |r| == (if |fed| < 16 then 0 else |fed| - 16)
    ensures forall n :: 16 <= n < |fed| ==> r[n - 16] == Output(fed, n, len)
  {
    if |fed| < 16 then []
    else seq(|fed| - 16, m requires 0 <= m < |fed| - 16 => Output(fed, m + 16, len))
  }

  /** The delivered vectors are the first frames, from frame 0 on. */
  lemma OutputsAreFrames(fed: seq<seq<int>>, b: seq<seq<int>>, len: nat)
    requires Interleaved(fed, b, len)
    ensures Outputs(fed, len) == b[..if |fed| < 16 then 0 else |fed| - 16]
  {
    hide SentDelay, Delay, Output;
    forall m | 0 <= m < |fed| - 16
      ensures Outputs(fed, len)[m] == b[m]
    {
      OutputIsDelayed(fed, b, len, m + 16);
      assert Outputs(fed, len)[m + 16 - 16] == Output(fed, m + 16, len);
    }
  }

  /** The threaded backend as a whole: in every interleaving of process() and run(), what the
      deconvolver has been given is a prefix of the transmitted frames. */
  lemma ThreadedDelivery(run: seq<HandOff.State<int>>, i: nat, b: seq<seq<int>>, len: nat)
    requires HandOff.Run(run) && i < |run| && Interleaved(run[i].submitted, b, len)
    ensures Interleaved(run[i].consumed, b, len)
    ensures Outputs(run[i].consumed, len) <= b
  {
    hide SentDelay, Delay, Outputs;
    HandOff.RunSafe(run, i);
    OutputsAreFrames(run[i].consumed, b, len);
  }
}
