/** Sub-channel size, protection level and bit rate by table index (table 8 of EN 300 401), and the sizes per 8 or 32 kbit/s
    of equal error protection (tables 9 and 10). */
module ProtectionTable {
  /** Capacity units, protection level, kbit/s. */
  datatype Row = Row(units: nat, level: nat, bitRate: nat)

  function Rows0(i: nat): Row {
    if i == 0 then Row(16, 5, 32)
    else if i == 1 then Row(21, 4, 32)
    else if i == 2 then Row(24, 3, 32)
    else if i == 3 then Row(29, 2, 32)
    else if i == 4 then Row(35, 1, 32)
    else if i == 5 then Row(24, 5, 48)
    else if i == 6 then Row(29, 4, 48)
    else Row(35, 3, 48)
  }

  function Rows8(i: nat): Row {
    if i == 8 then Row(42, 2, 48)
    else if i == 9 then Row(52, 1, 48)
    else if i == 10 then Row(29, 5, 56)
    else if i == 11 then Row(35, 4, 56)
    else if i == 12 then Row(42, 3, 56)
    else if i == 13 then Row(52, 2, 56)
    else if i == 14 then Row(32, 5, 64)
    else Row(42, 4, 64)
  }

  function Rows16(i: nat): Row {
    if i == 16 then Row(48, 3, 64)
    else if i == 17 then Row(58, 2, 64)
    else if i == 18 then Row(70, 1, 64)
    else if i == 19 then Row(40, 5, 80)
    else if i == 20 then Row(52, 4, 80)
    else if i == 21 then Row(58, 3, 80)
    else if i == 22 then Row(70, 2, 80)
    else Row(84, 1, 80)
  }

  function Rows24(i: nat): Row {
    if i == 24 then Row(48, 5, 96)
    else if i == 25 then Row(58, 4, 96)
    else if i == 26 then Row(70, 3, 96)
    else if i == 27 then Row(84, 2, 96)
    else if i == 28 then Row(104, 1, 96)
    else if i == 29 then Row(58, 5, 112)
    else if i == 30 then Row(70, 4, 112)
    else Row(84, 3, 112)
  }

  function Rows32(i: nat): Row {
    if i == 32 then Row(104, 2, 112)
    else if i == 33 then Row(64, 5, 128)
    else if i == 34 then Row(84, 4, 128)
    else if i == 35 then Row(96, 3, 128)
    else if i == 36 then Row(116, 2, 128)
    else if i == 37 then Row(140, 1, 128)
    else if i == 38 then Row(80, 5, 160)
    else Row(104, 4, 160)
  }

  function Rows40(i: nat): Row {
    if i == 40 then Row(116, 3, 160)
    else if i == 41 then Row(140, 2, 160)
    else if i == 42 then Row(168, 1, 160)
    else if i == 43 then Row(96, 5, 192)
    else if i == 44 then Row(116, 4, 192)
    else if i == 45 then Row(140, 3, 192)
    else if i == 46 then Row(168, 2, 192)
    else Row(208, 1, 192)
  }

  function Rows48(i: nat): Row {
    if i == 48 then Row(116, 5, 224)
    else if i == 49 then Row(140, 4, 224)
    else if i == 50 then Row(168, 3, 224)
    else if i == 51 then Row(208, 2, 224)
    else if i == 52 then Row(232, 1, 224)
    else if i == 53 then Row(128, 5, 256)
    else if i == 54 then Row(168, 4, 256)
    else Row(192, 3, 256)
  }

  function Rows56(i: nat): Row {
    if i == 56 then Row(232, 2, 256)
    else if i == 57 then Row(280, 1, 256)
    else if i == 58 then Row(160, 5, 320)
    else if i == 59 then Row(208, 4, 320)
    else if i == 60 then Row(280, 2, 320)
    else if i == 61 then Row(192, 5, 384)
    else if i == 62 then Row(280, 3, 384)
    else Row(416, 1, 384)
  }

  /** cProtLevelTable. */
  function UepRow(i: nat): Row
    requires i < 64
  {
    if i < 8 then Rows0(i) else if i < 16 then Rows8(i) else if i < 24 then Rows16(i) else if i < 32 then Rows24(i)
    else if i < 40 then Rows32(i) else if i < 48 then Rows40(i) else if i < 56 then Rows48(i) else Rows56(i)
  }

  /** Capacity units per 8 kbit/s, option 0. */
  function EepA(level: nat): (r: nat)
    requires level < 4
    ensures r >= 4
  {
    if level == 0 then 12 else if level == 1 then 8 else if level == 2 then 6 else 4
  }

  /** Capacity units per 32 kbit/s, option 1. */
  function EepB(level: nat): (r: nat)
    requires level < 4
    ensures r >= 15
  {
    if level == 0 then 27 else if level == 1 then 21 else if level == 2 then 18 else 15
  }

  /** A bit rate of r kbit/s, coded, fits the capacity units: 15 r <= 32 units. */
  predicate Pays(row: Row) {
    15 * row.bitRate <= 32 * row.units && row.bitRate % 8 == 0 && 1 <= row.level <= 5
  }

  lemma Rows0Pay(i: nat)
    requires 0 <= i < 8
    ensures Pays(Rows0(i))
  {
  }

  lemma Rows8Pay(i: nat)
    requires 8 <= i < 16
    ensures Pays(Rows8(i))
  {
  }

  lemma Rows16Pay(i: nat)
    requires 16 <= i < 24
    ensures Pays(Rows16(i))
  {
  }

  lemma Rows24Pay(i: nat)
    requires 24 <= i < 32
    ensures Pays(Rows24(i))
  {
  }

  lemma Rows32Pay(i: nat)
    requires 32 <= i < 40
    ensures Pays(Rows32(i))
  {
  }

  lemma Rows40Pay(i: nat)
    requires 40 <= i < 48
    ensures Pays(Rows40(i))
  {
  }

  lemma Rows48Pay(i: nat)
    requires 48 <= i < 56
    ensures Pays(Rows48(i))
  {
  }

  lemma Rows56Pay(i: nat)
    requires 56 <= i < 64
    ensures Pays(Rows56(i))
  {
  }

  /** Every row of the table. */
  lemma UepPays(i: nat)
    requires i < 64
    ensures Pays(UepRow(i))
  {
    hide Pays, Rows0, Rows8, Rows16, Rows24, Rows32, Rows40, Rows48, Rows56;
    if i < 32 {
      if i < 8 {
        Rows0Pay(i);
      } else if i < 16 {
        Rows8Pay(i);
      } else if i < 24 {
        Rows16Pay(i);
      } else {
        Rows24Pay(i);
      }
    } else {
      if i < 40 {
        Rows32Pay(i);
      } else if i < 48 {
        Rows40Pay(i);
      } else if i < 56 {
        Rows48Pay(i);
      } else {
        Rows56Pay(i);
      }
    }
  }

  /** Equal error protection, whatever the size. */
  lemma EepPays(size: nat, level: nat)
    requires level < 4
    ensures 15 * (size / EepA(level) * 8) <= 32 * size
    ensures 15 * (size / EepB(level) * 32) <= 32 * size
  {
    QuotientBound(size, EepA(level), 4);
    QuotientBound(size, EepB(level), 15);
  }

  lemma QuotientBound(n: nat, t: nat, least: nat)
    requires 0 < least <= t
    ensures n / t * least <= n
  {
    var q := n / t;
    assert n == q * t + n % t;
    assert q * least <= q * t;
  }
}
