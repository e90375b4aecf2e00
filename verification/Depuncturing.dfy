/** The deconvolvers of a sub-channel up to the Viterbi decoder: the list of addresses built once, and the bits of every
    segment put in their places. */
module Depuncturing {
  import opened Modular
  import opened ProtectionTable
  import opened Puncturing
  import opened FibTables
  import opened FibParser
  import opened FibInvariant

  // ----- the profile of a sub-channel -----

  predicate Matches(i: nat, bitRate: int, level: int)
    requires i < 64
  {
    ProfileRow(i).bitRate == bitRate && ProfileRow(i).level == level
  }

  /** find_index: the first profile with the bit rate and level, or -1. */
  method FindIndex(bitRate: int, level: int) returns (r: int)
    ensures -1 <= r < 64
    ensures r == -1 ==> forall i :: 0 <= i < 64 ==> !Matches(i, bitRate, level)
    ensures r >= 0 ==> Matches(r, bitRate, level) && forall i :: 0 <= i < r ==> !Matches(i, bitRate, level)
  {
    hide Matches;
    for i := 0 to 64
      invariant forall k :: 0 <= k < i ==> !Matches(k, bitRate, level)
    {
      if Matches(i, bitRate, level) {
        return i;
      }
    }
    r := -1;
  }

  /** The rows are ordered by rising bit rate and falling level. */
  predicate Before(p: Profile, q: Profile) {
    p.bitRate < q.bitRate || (p.bitRate == q.bitRate && p.level > q.level)
  }

  lemma RowsOrdered(i: nat)
    requires i < 63
    ensures Before(ProfileRow(i), ProfileRow(i + 1))
  {
  }

  lemma {:induction false} RowsBefore(i: nat, j: nat)
    requires i < j < 64
    ensures Before(ProfileRow(i), ProfileRow(j))
  {
    hide ProfileRow;
    RowsOrdered(j - 1);
    if i < j - 1 {
      RowsBefore(i, j - 1);
    }
  }

  /** No two profiles have the same bit rate and level. */
  lemma MatchUnique(i: nat, j: nat, bitRate: int, level: int)
    requires i < 64 && j < 64 && Matches(i, bitRate, level) && Matches(j, bitRate, level)
    ensures i == j
  {
    hide ProfileRow;
    if i < j {
      RowsBefore(i, j);
    } else if j < i {
      RowsBefore(j, i);
    }
  }

  // ----- the addresses -----

  /** _extract_viterbi_block_addresses: l blocks of 128 bits. */
  method Extract(addresses: seq<nat>, counter: nat, l: nat, pi: Pi) returns (r: seq<nat>, next: nat)
    ensures r == addresses + Part(counter, 128 * l, pi) && next == counter + 128 * l
  {
    hide Part, Kept;
    r, next := addresses, counter;
    PartEmpty(counter, pi);
    for i := 0 to l
      invariant next == counter + 128 * i && r == addresses + Part(counter, 128 * i, pi)
    {
      for j := 0 to 128
        invariant next == counter + 128 * i + j && r == addresses + Part(counter, 128 * i + j, pi)
      {
        KeptRepeats(pi, i, j);
        PartNext(counter, 128 * i + j, pi);
        if Kept(pi, j % 32) {
          r := r + [next];
        }
        next := next + 1;
      }
    }
  }

  lemma KeptRepeats(pi: Pi, i: nat, j: nat)
    ensures Kept(pi, 128 * i + j) <==> Kept(pi, j % 32)
  {
    hide Code;
    var q, r := 4 * i + j / 32, j % 32;
    assert 128 * i + j == 32 * q + r == 4 * (8 * q + r / 4) + r % 4;
    Split(q, r, 32);
    Split(8 * q + r / 4, r % 4, 4);
  }

  lemma PartNext(from: nat, n: nat, pi: Pi)
    ensures Part(from, n + 1, pi) == Part(from, n, pi) + if Kept(pi, n) then [from + n] else []
  {
    hide Kept;
  }

  /** The four parts and the tail of 24 bits. */
  method Build(p: Profile) returns (r: seq<nat>)
    ensures r == Addresses(p)
  {
    hide Part, Kept;
    var counter;
    r, counter := Extract([], 0, p.l1, p.p1);
    r, counter := Extract(r, counter, p.l2, p.p2);
    r, counter := Extract(r, counter, p.l3, p.p3);
    r, counter := Extract(r, counter, p.l4, p.p4);
    ghost var all := r;
    PartEmpty(Span(p), 8);
    for i := 0 to 24
      invariant counter == Span(p) + i && r == all + Part(Span(p), i, 8)
    {
      PartNext(Span(p), i, 8);
      if Kept(8, i) {
        r := r + [counter];
      }
      counter := counter + 1;
    }
  }

  // ----- the deconvolver -----

  /** The bits of the mother code that are sent. */
  function Punctured(word: seq<int>, addresses: seq<nat>): (r: seq<int>)
    requires forall k :: 0 <= k < |addresses| ==> addresses[k] < |word|
    ensures |r| == |addresses| && forall k :: 0 <= k < |r| ==> r[k] == word[addresses[k]]
  {
    seq(|addresses|, k requires 0 <= k < |addresses| => word[addresses[k]])
  }

  class Protection {
    const profile: Profile
    const addresses: seq<nat>
    const viterbiBlock: array<int>

    /** The addresses lie inside the block; what is not sent counts as undecided. */
    ghost predicate Valid()
      reads viterbiBlock
    {
      && viterbiBlock.Length == BlockSize(profile) && Span(profile) + 24 <= viterbiBlock.Length
      && addresses == Addresses(profile) && (forall k :: 0 <= k < |addresses| ==> addresses[k] < viterbiBlock.Length)
      && forall a :: 0 <= a < viterbiBlock.Length && !Carried(profile, a) ==> viterbiBlock[a] == 0
    }

    /** Any profile that is no longer than the block. */
    constructor (p: Profile)
      requires Span(p) + 24 <= BlockSize(p)
      ensures Valid() && profile == p && fresh(viterbiBlock)
    {
      profile := p;
      var built := Build(p);
      addresses := built;
      viterbiBlock := new int[BlockSize(p)](_ => 0);
      new;
      AddressesInside(p);
    }

    /** deconvolve up to Viterbi: in every segment the bits sent go to their places; the others stay undecided. */
    method Depuncture(v: seq<int>)
      requires Valid() && |addresses| <= |v|
      modifies viterbiBlock
      ensures Valid() && Punctured(viterbiBlock[..], addresses) == v[..|addresses|]
    {
      hide Addresses, Carried;
      AddressesAre(profile);
      for k := 0 to |addresses|
        invariant forall i :: 0 <= i < k ==> viterbiBlock[addresses[i]] == v[i]
        invariant forall a :: 0 <= a < viterbiBlock.Length && !Carried(profile, a) ==> viterbiBlock[a] == 0
      {
        assert addresses[k] in addresses;
        viterbiBlock[addresses[k]] := v[k];
      }
    }
  }

  lemma AddressesInside(p: Profile)
    ensures forall k :: 0 <= k < |Addresses(p)| ==> Addresses(p)[k] < Span(p) + 24
  {
    hide Addresses, Kept;
    AddressesAre(p);
    forall k | 0 <= k < |Addresses(p)|
      ensures Addresses(p)[k] < Span(p) + 24
    {
      assert Addresses(p)[k] in Addresses(p);
    }
  }

  /** UepProtection: the profile of the bit rate and level; without one the second profile is taken. */
  method UepProtection(bitRate: nat, level: int) returns (r: Protection)
    requires bitRate >= 32
    ensures fresh(r) && fresh(r.viterbiBlock) && r.Valid()
    ensures forall i :: 0 <= i < 64 && Matches(i, bitRate, level) ==> r.profile == ProfileRow(i)
  {
    hide Matches, ProfileRow, Span;
    var i := FindIndex(bitRate, level);
    if i == -1 {
      SecondFits(bitRate);
      r := new Protection(ProfileRow(1).(bitRate := bitRate));
    } else {
      ProfileFits(i);
      r := new Protection(ProfileRow(i));
      forall k | 0 <= k < 64 && Matches(k, bitRate, level)
        ensures k == i
      {
        MatchUnique(k, i, bitRate, level);
      }
    }
  }

  lemma SecondFits(bitRate: nat)
    requires bitRate >= 32
    ensures var p := ProfileRow(1).(bitRate := bitRate); Span(p) + 24 <= BlockSize(p)
  {
  }

  lemma ProfileFits(i: nat)
    requires i < 64
    ensures Span(ProfileRow(i)) + 24 == BlockSize(ProfileRow(i))
  {
    hide ProfileRow, Span, BlockSize, UepRow;
    UepAgrees(i);
    ShortProfile();
    if i != 23 {
      AgreesIs(ProfileRow(i), UepRow(i));
    }
  }

  lemma AgreesIs(p: Profile, row: Row)
    requires Agrees(p, row)
    ensures p.bitRate == row.bitRate && p.level == row.level && Span(p) + 24 == BlockSize(p)
    ensures 64 * row.units - 8 <= BitsSent(p) <= 64 * row.units
  {
    hide Span, BlockSize, BitsSent;
  }

  /** EepProtection: the level holds the option in its third bit. */
  method EepProtection(bitRate: nat, level: nat) returns (r: Protection)
    requires level < 8 && bitRate > 0 && bitRate % (if level < 4 then 8 else 32) == 0
    ensures fresh(r) && fresh(r.viterbiBlock) && r.Valid()
    ensures r.profile == EepProfile(level / 4, level % 4, bitRate / if level < 4 then 8 else 32)
  {
    hide EepProfile, Span, BlockSize;
    var option, n := level / 4, bitRate / if level < 4 then 8 else 32;
    EepAgrees(option, level % 4, n);
    r := new Protection(EepProfile(option, level % 4, n));
  }

  // ----- every sub-channel of a reachable configuration -----

  /** The profile of a stored sub-channel. */
  ghost function ProfileOf(e: SubChannel): Profile
    requires Profiled(e) && Supported(e) && e.bitRate > 0
  {
    match e.form
    case Short(_, index) => ProfileRow(index)
    case Long(option) =>
      StepsPositive(e);
      EepProfile(option, e.level % 4, if option == 0 then e.bitRate / 8 else e.bitRate / 32)
  }

  lemma StepsPositive(e: SubChannel)
    requires Profiled(e) && Supported(e) && e.bitRate > 0 && e.form.Long?
    ensures if e.form.option == 0 then e.bitRate % 8 == 0 && e.bitRate / 8 == e.size / EepA(e.level % 4) > 0
            else e.bitRate % 32 == 0 && e.bitRate / 32 == e.size / EepB(e.level % 4) > 0
  {
    hide EepA, EepB;
    if e.form.option == 0 {
      Split(e.size / EepA(e.level), 0, 8);
    } else {
      Split(e.size / EepB(e.level - 4), 0, 32);
    }
  }

  /** The capacity units of one step of bit rate. */
  function StepUnits(e: SubChannel): nat
    requires Profiled(e) && Supported(e) && e.form.Long?
  {
    if e.form.option == 0 then EepA(e.level) else EepB(e.level - 4)
  }

  /** n steps of u units each. */
  lemma StepsCarry(p: Profile, size: nat, u: nat, n: nat)
    requires u > 0 && n == size / u && BitsSent(p) == 64 * (n * u)
    ensures |Addresses(p)| == 64 * (size - size % u)
  {
    hide Addresses, BitsSent;
    AddressCount(p);
    assert size == u * n + size % u;
  }

  lemma LongCarries(e: SubChannel)
    requires Profiled(e) && Supported(e) && e.bitRate > 0 && e.form.Long?
    ensures StepUnits(e) > 0 && |Addresses(ProfileOf(e))| == 64 * (e.size - e.size % StepUnits(e))
  {
    hide EepProfile, Addresses, EepA, EepB, Span, BlockSize, BitsSent;
    StepsPositive(e);
    var n := if e.form.option == 0 then e.bitRate / 8 else e.bitRate / 32;
    EepAgrees(e.form.option, e.level % 4, n);
    StepsCarry(ProfileOf(e), e.size, StepUnits(e), n);
  }

  lemma ShortCarries(e: SubChannel)
    requires Profiled(e) && e.bitRate > 0 && e.form.Short?
    ensures Matches(e.form.tableIndex, e.bitRate, e.level)
    ensures 64 * e.size - |Addresses(ProfileOf(e))| == 404 <==> e.form.tableIndex == 23
    ensures 64 * e.size - |Addresses(ProfileOf(e))| in {0, 4, 8} <==> e.form.tableIndex != 23
  {
    hide ProfileRow, UepRow, Addresses, Span, BlockSize, BitsSent;
    var i := e.form.tableIndex;
    UepAgrees(i);
    ShortProfile();
    AddressCount(ProfileRow(i));
  }

  /** In every reachable state, for every sub-channel with a known profile: its deconvolver needs no more bits than the
      slice of the sub-channel holds. Unequal error protection leaves 0, 4 or 8 bits, except with index 23; equal error
      protection leaves the capacity units that do not fill a step. */
  lemma RunCarries(es: seq<Event>, next: bool, i: nat)
    requires var s := (if next then Run(es).next else Run(es).curr).s1;
             i < |s| && Supported(s[i].value) && s[i].value.bitRate > 0
    ensures var e := (if next then Run(es).next else Run(es).curr).s1[i].value;
            && Profiled(e) && |Addresses(ProfileOf(e))| <= 64 * e.size
            && (e.form.Short? ==>
                  && Matches(e.form.tableIndex, e.bitRate, e.level)
                  && (64 * e.size - |Addresses(ProfileOf(e))| in {0, 4, 8} <==> e.form.tableIndex != 23))
            && (e.form.Long? ==>
                  StepUnits(e) > 0 && 64 * e.size - |Addresses(ProfileOf(e))| == 64 * (e.size % StepUnits(e)))
  {
    hide Run, Addresses, ProfileOf, StepUnits, Matches, Profiled, Supported;
    RunInv(es);
    var e := (if next then Run(es).next else Run(es).curr).s1[i].value;
    assert Profiled(e);
    if e.form.Short? {
      ShortCarries(e);
    } else {
      LongCarries(e);
    }
  }
}
