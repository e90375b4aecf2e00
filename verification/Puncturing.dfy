/** Puncturing (section 11 of EN 300 401): which bits of the mother code a sub-channel carries, and how the receiver puts
    them back in their places before Viterbi decoding. */
module Puncturing {
  import opened Modular
  import opened ProtectionTable

  /** cPI_Codes: of each group of four bits of the mother code, so many are sent. */
  const PiCodes: seq<seq<nat>> := [
    [2, 1, 1, 1, 1, 1, 1, 1], [2, 1, 1, 1, 2, 1, 1, 1], [2, 1, 2, 1, 2, 1, 1, 1], [2, 1, 2, 1, 2, 1, 2, 1],
    [2, 2, 2, 1, 2, 1, 2, 1], [2, 2, 2, 1, 2, 2, 2, 1], [2, 2, 2, 2, 2, 2, 2, 1], [2, 2, 2, 2, 2, 2, 2, 2],
    [3, 2, 2, 2, 2, 2, 2, 2], [3, 2, 2, 2, 3, 2, 2, 2], [3, 2, 3, 2, 3, 2, 2, 2], [3, 2, 3, 2, 3, 2, 3, 2],
    [3, 3, 3, 2, 3, 2, 3, 2], [3, 3, 3, 2, 3, 3, 3, 2], [3, 3, 3, 3, 3, 3, 3, 2], [3, 3, 3, 3, 3, 3, 3, 3],
    [4, 3, 3, 3, 3, 3, 3, 3], [4, 3, 3, 3, 4, 3, 3, 3], [4, 3, 4, 3, 4, 3, 3, 3], [4, 3, 4, 3, 4, 3, 4, 3],
    [4, 4, 4, 3, 4, 3, 4, 3], [4, 4, 4, 3, 4, 4, 4, 3], [4, 4, 4, 4, 4, 4, 4, 3], [4, 4, 4, 4, 4, 4, 4, 4]]

  type Pi = pi: nat | 1 <= pi <= 24 witness 1

  function Code(pi: Pi): (r: seq<nat>)
    ensures |r| == 8 && forall g :: 0 <= g < 8 ==> r[g] <= 4
  {
    PiCodes[pi - 1]
  }

  /** Bit j of the mother code is sent under code pi. */
  predicate Kept(pi: Pi, j: nat) {
    j % 4 < Code(pi)[j % 32 / 4]
  }

  // ----- profiles -----

  /** Four parts: l blocks of 128 bits of the mother code each, punctured with code p. */
  datatype Profile = Profile(bitRate: nat, level: nat, l1: nat, l2: nat, l3: nat, l4: nat, p1: Pi, p2: Pi, p3: Pi, p4: Pi)

  function Profiles0(i: nat): Profile {
    if i == 0 then Profile(32, 5, 3, 4, 17, 0, 5, 3, 2, 1)
    else if i == 1 then Profile(32, 4, 3, 3, 18, 0, 11, 6, 5, 1)
    else if i == 2 then Profile(32, 3, 3, 4, 14, 3, 15, 9, 6, 8)
    else if i == 3 then Profile(32, 2, 3, 4, 14, 3, 22, 13, 8, 13)
    else if i == 4 then Profile(32, 1, 3, 5, 13, 3, 24, 17, 12, 17)
    else if i == 5 then Profile(48, 5, 4, 3, 26, 3, 5, 4, 2, 3)
    else if i == 6 then Profile(48, 4, 3, 4, 26, 3, 9, 6, 4, 6)
    else Profile(48, 3, 3, 4, 26, 3, 15, 10, 6, 9)
  }

  function Profiles8(i: nat): Profile {
    if i == 8 then Profile(48, 2, 3, 4, 26, 3, 24, 14, 8, 15)
    else if i == 9 then Profile(48, 1, 3, 5, 25, 3, 24, 18, 13, 18)
    else if i == 10 then Profile(56, 5, 6, 10, 23, 3, 5, 4, 2, 3)
    else if i == 11 then Profile(56, 4, 6, 10, 23, 3, 9, 6, 4, 5)
    else if i == 12 then Profile(56, 3, 6, 12, 21, 3, 16, 7, 6, 9)
    else if i == 13 then Profile(56, 2, 6, 10, 23, 3, 23, 13, 8, 13)
    else if i == 14 then Profile(64, 5, 6, 9, 31, 2, 5, 3, 2, 3)
    else Profile(64, 4, 6, 9, 33, 0, 11, 6, 5, 1)
  }

  function Profiles16(i: nat): Profile {
    if i == 16 then Profile(64, 3, 6, 12, 27, 3, 16, 8, 6, 9)
    else if i == 17 then Profile(64, 2, 6, 10, 29, 3, 23, 13, 8, 13)
    else if i == 18 then Profile(64, 1, 6, 11, 28, 3, 24, 18, 12, 18)
    else if i == 19 then Profile(80, 5, 6, 10, 41, 3, 6, 3, 2, 3)
    else if i == 20 then Profile(80, 4, 6, 10, 41, 3, 11, 6, 5, 6)
    else if i == 21 then Profile(80, 3, 6, 11, 40, 3, 16, 8, 6, 7)
    else if i == 22 then Profile(80, 2, 6, 10, 41, 3, 23, 13, 8, 13)
    else Profile(80, 1, 6, 10, 41, 3, 24, 7, 12, 18)
  }

  function Profiles24(i: nat): Profile {
    if i == 24 then Profile(96, 5, 7, 9, 53, 3, 5, 4, 2, 4)
    else if i == 25 then Profile(96, 4, 7, 10, 52, 3, 9, 6, 4, 6)
    else if i == 26 then Profile(96, 3, 6, 12, 51, 3, 16, 9, 6, 10)
    else if i == 27 then Profile(96, 2, 6, 10, 53, 3, 22, 12, 9, 12)
    else if i == 28 then Profile(96, 1, 6, 13, 50, 3, 24, 18, 13, 19)
    else if i == 29 then Profile(112, 5, 14, 17, 50, 3, 5, 4, 2, 5)
    else if i == 30 then Profile(112, 4, 11, 21, 49, 3, 9, 6, 4, 8)
    else Profile(112, 3, 11, 23, 47, 3, 16, 8, 6, 9)
  }

  function Profiles32(i: nat): Profile {
    if i == 32 then Profile(112, 2, 11, 21, 49, 3, 23, 12, 9, 14)
    else if i == 33 then Profile(128, 5, 12, 19, 62, 3, 5, 3, 2, 4)
    else if i == 34 then Profile(128, 4, 11, 21, 61, 3, 11, 6, 5, 7)
    else if i == 35 then Profile(128, 3, 11, 22, 60, 3, 16, 9, 6, 10)
    else if i == 36 then Profile(128, 2, 11, 21, 61, 3, 22, 12, 9, 14)
    else if i == 37 then Profile(128, 1, 11, 20, 62, 3, 24, 17, 13, 19)
    else if i == 38 then Profile(160, 5, 11, 19, 87, 3, 5, 4, 2, 4)
    else Profile(160, 4, 11, 23, 83, 3, 11, 6, 5, 9)
  }

  function Profiles40(i: nat): Profile {
    if i == 40 then Profile(160, 3, 11, 24, 82, 3, 16, 8, 6, 11)
    else if i == 41 then Profile(160, 2, 11, 21, 85, 3, 22, 11, 9, 13)
    else if i == 42 then Profile(160, 1, 11, 22, 84, 3, 24, 18, 12, 19)
    else if i == 43 then Profile(192, 5, 11, 20, 110, 3, 6, 4, 2, 5)
    else if i == 44 then Profile(192, 4, 11, 22, 108, 3, 10, 6, 4, 9)
    else if i == 45 then Profile(192, 3, 11, 24, 106, 3, 16, 10, 6, 11)
    else if i == 46 then Profile(192, 2, 11, 20, 110, 3, 22, 13, 9, 13)
    else Profile(192, 1, 11, 21, 109, 3, 24, 20, 13, 24)
  }

  function Profiles48(i: nat): Profile {
    if i == 48 then Profile(224, 5, 12, 22, 131, 3, 8, 6, 2, 6)
    else if i == 49 then Profile(224, 4, 12, 26, 127, 3, 12, 8, 4, 11)
    else if i == 50 then Profile(224, 3, 11, 20, 134, 3, 16, 10, 7, 9)
    else if i == 51 then Profile(224, 2, 11, 22, 132, 3, 24, 16, 10, 15)
    else if i == 52 then Profile(224, 1, 11, 24, 130, 3, 24, 20, 12, 20)
    else if i == 53 then Profile(256, 5, 11, 24, 154, 3, 6, 5, 2, 5)
    else if i == 54 then Profile(256, 4, 11, 24, 154, 3, 12, 9, 5, 10)
    else Profile(256, 3, 11, 27, 151, 3, 16, 10, 7, 10)
  }

  function Profiles56(i: nat): Profile {
    if i == 56 then Profile(256, 2, 11, 22, 156, 3, 24, 14, 10, 13)
    else if i == 57 then Profile(256, 1, 11, 26, 152, 3, 24, 19, 14, 18)
    else if i == 58 then Profile(320, 5, 11, 26, 200, 3, 8, 5, 2, 6)
    else if i == 59 then Profile(320, 4, 11, 25, 201, 3, 13, 9, 5, 10)
    else if i == 60 then Profile(320, 2, 11, 26, 200, 3, 24, 17, 9, 17)
    else if i == 61 then Profile(384, 5, 11, 27, 247, 3, 8, 6, 2, 7)
    else if i == 62 then Profile(384, 3, 11, 24, 250, 3, 16, 9, 7, 10)
    else Profile(384, 1, 12, 28, 245, 3, 24, 20, 14, 23)
  }

  /** cProfileTable; a part of no blocks has no code there. */
  function ProfileRow(i: nat): Profile
    requires i < 64
  {
    if i < 8 then Profiles0(i) else if i < 16 then Profiles8(i) else if i < 24 then Profiles16(i)
    else if i < 32 then Profiles24(i) else if i < 40 then Profiles32(i) else if i < 48 then Profiles40(i)
    else if i < 56 then Profiles48(i) else Profiles56(i)
  }

  /** Equal error protection, n steps of 8 kbit/s (option 0) or 32 kbit/s (option 1). */
  function EepProfile(option: nat, level: nat, n: nat): Profile
    requires option < 2 && level < 4 && n > 0
  {
    if option == 1 then
      var (p, q) := if level == 0 then (10, 9) else if level == 1 then (6, 5) else if level == 2 then (4, 3) else (2, 1);
      Profile(32 * n, level + 4, 24 * n - 3, 3, 0, 0, p, q, 1, 1)
    else if level == 0 then Profile(8 * n, level, 6 * n - 3, 3, 0, 0, 24, 23, 1, 1)
    else if level == 1 then
      if n == 1 then Profile(8 * n, level, 5, 1, 0, 0, 13, 12, 1, 1)
      else Profile(8 * n, level, 2 * n - 3, 4 * n + 3, 0, 0, 14, 13, 1, 1)
    else if level == 2 then Profile(8 * n, level, 6 * n - 3, 3, 0, 0, 8, 7, 1, 1)
    else Profile(8 * n, level, 4 * n - 3, 2 * n + 3, 0, 0, 3, 2, 1, 1)
  }

  /** Bits of the mother code before the tail. */
  function Span(p: Profile): nat {
    128 * (p.l1 + p.l2 + p.l3 + p.l4)
  }

  /** The size of viterbiBlock: four bits for each of 24 * bitRate data bits and six tail bits. */
  function BlockSize(p: Profile): nat {
    4 * (24 * p.bitRate) + 24
  }

  /** Bit a of the mother code is sent; the last 24 bits are punctured with code 8. */
  predicate Carried(p: Profile, a: nat) {
    var a1, a2, a3 := 128 * p.l1, 128 * (p.l1 + p.l2), 128 * (p.l1 + p.l2 + p.l3);
    if a < a1 then Kept(p.p1, a)
    else if a < a2 then Kept(p.p2, a - a1)
    else if a < a3 then Kept(p.p3, a - a2)
    else if a < Span(p) then Kept(p.p4, a - a3)
    else a < Span(p) + 24 && Kept(8, a - Span(p))
  }

  // ----- the addresses of the bits sent -----

  /** The first n bits from an address on, as far as they are sent. */
  function Part(from: nat, n: nat, pi: Pi): (r: seq<nat>)
  {
    if n == 0 then []
    else Part(from, n - 1, pi) + if Kept(pi, n - 1) then [from + n - 1] else []
  }

  function Addresses(p: Profile): seq<nat> {
    Part(0, 128 * p.l1, p.p1) + Part(128 * p.l1, 128 * p.l2, p.p2) + Part(128 * (p.l1 + p.l2), 128 * p.l3, p.p3)
    + Part(128 * (p.l1 + p.l2 + p.l3), 128 * p.l4, p.p4) + Part(Span(p), 24, 8)
  }

  ghost predicate Ascends(s: seq<nat>) {
    forall i, j :: 0 <= i < j < |s| ==> s[i] < s[j]
  }

  lemma {:induction false} PartIs(from: nat, n: nat, pi: Pi)
    ensures Ascends(Part(from, n, pi))
    ensures forall a :: a in Part(from, n, pi) <==> from <= a < from + n && Kept(pi, a - from)
  {
    hide Kept;
    if n > 0 {
      PartIs(from, n - 1, pi);
      var s := Part(from, n - 1, pi);
      forall i | 0 <= i < |s|
        ensures s[i] < from + n - 1
      {
        assert s[i] in s;
      }
    }
  }

  lemma AscendsJoin(s: seq<nat>, t: seq<nat>, m: nat)
    requires Ascends(s) && Ascends(t) && (forall a :: a in s ==> a < m) && (forall a :: a in t ==> m <= a)
    ensures Ascends(s + t)
  {
    forall i, j | 0 <= i < j < |s + t|
      ensures (s + t)[i] < (s + t)[j]
    {
      if i < |s| <= j {
        assert s[i] in s && t[j - |s|] in t;
      }
    }
  }

  /** The addresses are those of the bits sent, in order. */
  lemma AddressesAre(p: Profile)
    ensures Ascends(Addresses(p))
    ensures forall a :: a in Addresses(p) <==> Carried(p, a)
  {
    hide Kept, Part, Ascends;
    var a1, a2, a3 := 128 * p.l1, 128 * (p.l1 + p.l2), 128 * (p.l1 + p.l2 + p.l3);
    PartIs(0, 128 * p.l1, p.p1);
    PartIs(a1, 128 * p.l2, p.p2);
    PartIs(a2, 128 * p.l3, p.p3);
    PartIs(a3, 128 * p.l4, p.p4);
    PartIs(Span(p), 24, 8);
    var s1, s2, s3, s4, s5 := Part(0, 128 * p.l1, p.p1), Part(a1, 128 * p.l2, p.p2), Part(a2, 128 * p.l3, p.p3),
                              Part(a3, 128 * p.l4, p.p4), Part(Span(p), 24, 8);
    AscendsJoin(s1, s2, a1);
    AscendsJoin(s1 + s2, s3, a2);
    AscendsJoin(s1 + s2 + s3, s4, a3);
    AscendsJoin(s1 + s2 + s3 + s4, s5, Span(p));
  }

  // ----- how many there are -----

  function Sum8(s: seq<nat>): nat
    requires |s| == 8
  {
    s[0] + s[1] + s[2] + s[3] + s[4] + s[5] + s[6] + s[7]
  }

  /** Code pi sends 8 + pi of 32 bits: code rate 8 / (8 + pi). */
  lemma CodeRate(pi: Pi)
    ensures Sum8(Code(pi)) == 8 + pi
  {
  }

  /** The groups get their next bit in turn, in the order 0, 4, 2, 6, 1, 5, 3, 7. */
  function InTurn(pi: Pi): seq<nat> {
    [(pi + 15) / 8, (pi + 11) / 8, (pi + 13) / 8, (pi + 9) / 8, (pi + 14) / 8, (pi + 10) / 8, (pi + 12) / 8, (pi + 8) / 8]
  }

  lemma WeakCodes(pi: Pi)
    requires pi <= 12
    ensures Code(pi) == InTurn(pi)
  {
  }

  lemma StrongCodes(pi: Pi)
    requires pi > 12
    ensures Code(pi) == InTurn(pi)
  {
  }

  lemma CodeIs(pi: Pi)
    ensures Code(pi) == InTurn(pi)
  {
    hide Code, InTurn;
    if pi <= 12 {
      WeakCodes(pi);
    } else {
      StrongCodes(pi);
    }
  }

  /** A code sends all the bits of the weaker ones. */
  lemma CodesNested(pi: Pi, j: nat)
    requires pi < 24 && Kept(pi, j)
    ensures Kept(pi + 1, j)
  {
  }

  lemma GroupCount(from: nat, g: nat, pi: Pi)
    ensures |Part(from, 4 * g + 4, pi)| == |Part(from, 4 * g, pi)| + Code(pi)[g % 8]
  {
    hide *;
    GroupBit(g, 0, pi);
    GroupBit(g, 1, pi);
    GroupBit(g, 2, pi);
    GroupBit(g, 3, pi);
    PartStep(from, 4 * g, pi);
    PartStep(from, 4 * g + 1, pi);
    PartStep(from, 4 * g + 2, pi);
    PartStep(from, 4 * g + 3, pi);
  }

  lemma GroupBit(g: nat, k: nat, pi: Pi)
    requires k < 4
    ensures Kept(pi, 4 * g + k) <==> k < Code(pi)[g % 8]
  {
    hide Code;
    assert 4 * g + k == 32 * (g / 8) + (4 * (g % 8) + k);
    Split(g / 8, 4 * (g % 8) + k, 32);
    Split(g % 8, k, 4);
    Split(g, k, 4);
  }

  lemma PartStep(from: nat, n: nat, pi: Pi)
    ensures |Part(from, n + 1, pi)| == |Part(from, n, pi)| + if Kept(pi, n) then 1 else 0
  {
    hide Kept;
  }

  /** m times 32 bits hold m times 8 + pi bits to be sent. */
  lemma {:induction false} PartCount(from: nat, m: nat, pi: Pi)
    ensures |Part(from, 32 * m, pi)| == m * (8 + pi)
  {
    hide *;
    if m == 0 {
      PartEmpty(from, pi);
    } else {
      PartCount(from, m - 1, pi);
      EightGroups(from, 8 * (m - 1), pi);
      CodeRate(pi);
      assert m * (8 + pi) == (m - 1) * (8 + pi) + (8 + pi);
    }
  }

  lemma PartEmpty(from: nat, pi: Pi)
    ensures Part(from, 0, pi) == []
  {
  }

  lemma EightGroups(from: nat, g: nat, pi: Pi)
    requires g % 8 == 0
    ensures |Part(from, 4 * g + 32, pi)| == |Part(from, 4 * g, pi)| + Sum8(Code(pi))
  {
    hide Code, Part;
    GroupCount(from, g, pi);
    GroupCount(from, g + 1, pi);
    GroupCount(from, g + 2, pi);
    GroupCount(from, g + 3, pi);
    GroupCount(from, g + 4, pi);
    GroupCount(from, g + 5, pi);
    GroupCount(from, g + 6, pi);
    GroupCount(from, g + 7, pi);
  }

  lemma TailCount(from: nat)
    ensures |Part(from, 24, 8)| == 12
  {
    hide Part;
    PartEmpty(from, 8);
    GroupCount(from, 0, 8);
    GroupCount(from, 1, 8);
    GroupCount(from, 2, 8);
    GroupCount(from, 3, 8);
    GroupCount(from, 4, 8);
    GroupCount(from, 5, 8);
  }

  /** The bits sent of l blocks. */
  function Sends(l: nat, pi: Pi): nat {
    4 * l * (8 + pi)
  }

  /** The number of bits a sub-channel has to carry. */
  function BitsSent(p: Profile): nat {
    Sends(p.l1, p.p1) + Sends(p.l2, p.p2) + Sends(p.l3, p.p3) + Sends(p.l4, p.p4) + 12
  }

  lemma BlocksCount(from: nat, l: nat, pi: Pi)
    ensures |Part(from, 128 * l, pi)| == Sends(l, pi)
  {
    hide Part;
    PartCount(from, 4 * l, pi);
    assert 32 * (4 * l) == 128 * l;
  }

  lemma AddressCount(p: Profile)
    ensures |Addresses(p)| == BitsSent(p)
  {
    hide Part, Sends;
    BlocksCount(0, p.l1, p.p1);
    BlocksCount(128 * p.l1, p.l2, p.p2);
    BlocksCount(128 * (p.l1 + p.l2), p.l3, p.p3);
    BlocksCount(128 * (p.l1 + p.l2 + p.l3), p.l4, p.p4);
    TailCount(Span(p));
  }

  // ----- the tables agree -----

  /** The profile fills the Viterbi block, and its bits fill the sub-channel up to 0, 4 or 8 padding bits. */
  predicate Agrees(p: Profile, row: Row) {
    && p.bitRate == row.bitRate && p.level == row.level && Span(p) + 24 == BlockSize(p)
    && 64 * row.units - BitsSent(p) in {0, 4, 8}
  }

  lemma Agree0(i: nat)
    requires 0 <= i < 8
    ensures Agrees(Profiles0(i), Rows0(i))
  {
  }

  lemma Agree8(i: nat)
    requires 8 <= i < 16
    ensures Agrees(Profiles8(i), Rows8(i))
  {
  }

  lemma Agree16(i: nat)
    requires 16 <= i < 24
    ensures i != 23 ==> Agrees(Profiles16(i), Rows16(i))
  {
  }

  lemma Agree24(i: nat)
    requires 24 <= i < 32
    ensures Agrees(Profiles24(i), Rows24(i))
  {
  }

  lemma Agree32(i: nat)
    requires 32 <= i < 40
    ensures Agrees(Profiles32(i), Rows32(i))
  {
  }

  lemma Agree40(i: nat)
    requires 40 <= i < 48
    ensures Agrees(Profiles40(i), Rows40(i))
  {
  }

  lemma Agree48(i: nat)
    requires 48 <= i < 56
    ensures Agrees(Profiles48(i), Rows48(i))
  {
  }

  lemma Agree56(i: nat)
    requires 56 <= i < 64
    ensures Agrees(Profiles56(i), Rows56(i))
  {
  }

  /** Index 23, 84 capacity units at level 1 for 80 kbit/s: the profile takes 4972 of 5376 bits. */
  lemma ShortProfile()
    ensures var p, row := ProfileRow(23), UepRow(23);
            && p.bitRate == row.bitRate == 80 && p.level == row.level == 1 && Span(p) + 24 == BlockSize(p)
            && BitsSent(p) == 4972 && 64 * row.units == 5376
  {
  }

  /** Unequal error protection: for every index of the table, the bits the deconvolver takes fill the sub-channel, up to
      the padding of section 11.3.1, if and only if the index is not 23. */
  lemma UepAgrees(i: nat)
    requires i < 64
    ensures Agrees(ProfileRow(i), UepRow(i)) <==> i != 23
  {
    hide Agrees;
    if i < 32 {
      if i < 8 {
        Agree0(i);
      } else if i < 16 {
        Agree8(i);
      } else if i < 24 {
        Agree16(i);
        ShortDisagrees();
      } else {
        Agree24(i);
      }
    } else {
      if i < 40 {
        Agree32(i);
      } else if i < 48 {
        Agree40(i);
      } else if i < 56 {
        Agree48(i);
      } else {
        Agree56(i);
      }
    }
  }

  lemma ShortDisagrees()
    ensures !Agrees(ProfileRow(23), UepRow(23))
  {
    ShortProfile();
  }

  /** Equal error protection: n steps take exactly the capacity units of n steps, for every n. */
  lemma EepAgrees(option: nat, level: nat, n: nat)
    requires option < 2 && level < 4 && n > 0
    ensures var p := EepProfile(option, level, n);
            && Span(p) + 24 == BlockSize(p)
            && BitsSent(p) == 64 * (n * if option == 0 then EepA(level) else EepB(level))
  {
    hide EepProfile, EepA, EepB, Span, BlockSize, BitsSent;
    if option == 0 {
      EepAAgrees(level, n);
    } else {
      EepBAgrees(level, n);
    }
  }

  lemma EepAAgrees(level: nat, n: nat)
    requires level < 4 && n > 0
    ensures var p := EepProfile(0, level, n); Span(p) + 24 == BlockSize(p) && BitsSent(p) == 64 * (n * EepA(level))
  {
  }

  lemma EepBAgrees(level: nat, n: nat)
    requires level < 4 && n > 0
    ensures var p := EepProfile(1, level, n); Span(p) + 24 == BlockSize(p) && BitsSent(p) == 64 * (n * EepB(level))
  {
  }
}
