/** The tables of one multiplex configuration (sections 6.2 and 6.3 of EN 300 401) and the sub-parsers that fill them. */
module FibTables {
  import opened Modular
  import opened ProtectionTable

  /** Received bits. The sub-parsers trust the length fields and may read past the 256 bits of a FIB, so every
      address holds some bit. */
  type Bits = nat -> bool

  /** The n bits from an address, most significant first. */
  function GetBits(d: Bits, at: nat, n: nat): (r: nat)
    ensures r < Pow2(n)
  {
    if n == 0 then 0 else 2 * GetBits(d, at, n - 1) + (if d(at + n - 1) then 1 else 0)
  }

  /** The bit at offset k of the field is bit n-1-k of the value. */
  lemma {:induction false} BitOfField(d: Bits, at: nat, n: nat, k: nat)
    requires k < n
    ensures GetBits(d, at, n) / Pow2(n - 1 - k) % 2 == if d(at + k) then 1 else 0
  {
    var v, w := GetBits(d, at, n), GetBits(d, at, n - 1);
    if k == n - 1 {
      assert v == 2 * w + (if d(at + k) then 1 else 0) && Pow2(0) == 1;
    } else {
      BitOfField(d, at, n - 1, k);
      HalfFirst(v, Pow2(n - 2 - k));
      assert v / 2 == w;
    }
  }

  lemma HalfFirst(v: nat, p: nat)
    requires p > 0
    ensures v / (2 * p) == v / 2 / p
  {
    var q, r := v / 2 / p, v / 2 % p;
    assert v == (2 * p) * q + (2 * r + v % 2) by {
      assert v / 2 == p * q + r;
    }
    Split(q, 2 * r + v % 2, 2 * p);
  }

  // ----- keyed tables -----

  datatype Keyed<K, V> = Keyed(key: K, value: V)

  /** The index of the first entry with a key, or the size of the table. */
  function Lookup<K(==), V>(s: seq<Keyed<K, V>>, k: K): (i: nat)
    ensures i <= |s|
    ensures i < |s| ==> s[i].key == k
    ensures forall j :: 0 <= j < i ==> s[j].key != k
  {
    if s == [] then 0
    else
      var n := |s| - 1;
      var i := Lookup(s[..n], k);
      if i < n then i else if s[n].key == k then n else |s|
  }

  predicate Known<K(==), V>(s: seq<Keyed<K, V>>, k: K) {
    Lookup(s, k) < |s|
  }

  /** An entry is appended only under a new key. */
  function Insert<K(==), V>(s: seq<Keyed<K, V>>, k: K, v: V): seq<Keyed<K, V>> {
    if Known(s, k) then s else s + [Keyed(k, v)]
  }

  ghost predicate Held<K, V>(s: seq<Keyed<K, V>>, k: K) {
    exists i :: 0 <= i < |s| && s[i].key == k
  }

  /** The table after an entry was offered: what is held stays, what is new goes to the end. */
  ghost function Added<K, V>(s: seq<Keyed<K, V>>, k: K, v: V): seq<Keyed<K, V>> {
    if Held(s, k) then s else s + [Keyed(k, v)]
  }

  lemma InsertIsAdded<K, V>(s: seq<Keyed<K, V>>, k: K, v: V)
    ensures Known(s, k) <==> Held(s, k)
    ensures Insert(s, k, v) == Added(s, k, v)
  {
    hide Lookup;
    assert Known(s, k) ==> s[Lookup(s, k)].key == k;
  }

  ghost predicate KeysDistinct<K, V>(s: seq<Keyed<K, V>>) {
    forall i, j :: 0 <= i < j < |s| ==> s[i].key != s[j].key
  }

  lemma LookupExtends<K, V>(a: seq<Keyed<K, V>>, b: seq<Keyed<K, V>>, k: K)
    requires a <= b && Known(a, k)
    ensures Lookup(b, k) == Lookup(a, k)
  {
    hide Lookup;
    var i, j := Lookup(a, k), Lookup(b, k);
    assert b[i].key == k;
    assert j < |a| ==> a[j] == b[j];
  }

  lemma InsertKeeps<K, V>(s: seq<Keyed<K, V>>, k: K, v: V)
    ensures s <= Insert(s, k, v) && Known(Insert(s, k, v), k)
    ensures KeysDistinct(s) ==> KeysDistinct(Insert(s, k, v))
  {
    hide Lookup;
    var t := Insert(s, k, v);
    var i := Lookup(t, k);
    assert Known(s, k) ==> t == s;
    assert !Known(s, k) ==> t[|s|].key == k;
  }

  // ----- entries -----

  datatype Form = Short(tableSwitch: bool, tableIndex: nat) | Long(option: nat)

  /** FIG 0/1: the capacity units start .. start+size-1 of every CIF. */
  datatype SubChannel = SubChannel(start: nat, size: nat, level: nat, bitRate: int, form: Form)

  /** FIG 0/2: one component of a service. */
  datatype Component = Component(pd: bool, count: nat, tmId: nat, content: Content, primary: bool, access: bool)
  datatype Content = Unset | Audio(asc: nat, subCh: nat) | Stream(dsc: nat, subCh: nat) | Packets(scId: nat)

  /** FIG 0/3, FIG 0/8 and FIG 0/14. */
  datatype PacketMode = PacketMode(caOrgFlag: bool, dg: bool, dsc: nat, subCh: nat, address: nat, caOrg: nat)
  datatype Global = Global(pd: bool, ext: bool, target: Target)
  datatype Target = ToSubChannel(subCh: nat) | ToComponent(scId: nat)

  datatype Config = Config(
    s1: seq<Keyed<nat, SubChannel>>,
    s2: seq<Keyed<(nat, nat), Component>>,
    s3: seq<Keyed<nat, PacketMode>>,
    s8: seq<Keyed<(nat, nat), Global>>,
    s14: seq<Keyed<nat, nat>>)

  /** FibConfigFig0::reset. */
  const NoConfig := Config([], [], [], [], [])

  const UNITS := 864

  // ----- sub-parsers -----

  /** The outcome of one sub-parser: the next byte, the table after it, and whether the content was impossible. */
  datatype Parsed = Parsed(used: nat, config: Config, restart: bool)

  function FormBytes(f: Form): nat {
    if f.Short? then 3 else 4
  }

  function ParseSubChannel(d: Bits, o: nat): (c: SubChannel)
    ensures c.form.Short? <==> !d(o + 16)
  {
    var start := GetBits(d, o + 6, 10);
    if !d(o + 16) then
      var i := TableIndex(d, o + 18);
      var row := UepRow(i);
      SubChannel(start, row.units, row.level, row.bitRate, Short(d(o + 17), i))
    else
      var option := GetBits(d, o + 17, 3);
      var level := ProtectionLevel(d, o + 20);
      var size := GetBits(d, o + 22, 10);
      if option == 0 then SubChannel(start, size, level, size / EepA(level) * 8, Long(option))
      else if option == 1 then SubChannel(start, size, level + 4, size / EepB(level) * 32, Long(option))
      else SubChannel(start, size, level, -1, Long(option))
  }

  function TableIndex(d: Bits, o: nat): (i: nat)
    ensures i < 64
  {
    assert Pow2(6) == 64 by { assert Pow2(3) == 8 && Pow2(6) == 2 * Pow2(5) && Pow2(5) == 2 * Pow2(4); }
    GetBits(d, o, 6)
  }

  function ProtectionLevel(d: Bits, o: nat): (i: nat)
    ensures i < 4
  {
    assert Pow2(2) == 4;
    GetBits(d, o, 2)
  }

  predicate Collides(c: SubChannel, e: SubChannel) {
    e.size > 0 && c.start < e.start + e.size && e.start < c.start + c.size
  }

  predicate CollidesAny(c: SubChannel, s: seq<Keyed<nat, SubChannel>>) {
    exists i :: 0 <= i < |s| && Collides(c, s[i].value)
  }

  ghost predicate Occupies(c: SubChannel, u: int) {
    c.start <= u < c.start + c.size
  }

  /** c and e claim the same capacity unit. A candidate c without units counts as well if it lies between two units of e. */
  ghost predicate Clash(c: SubChannel, e: SubChannel) {
    if c.size > 0 then exists u :: Occupies(c, u) && Occupies(e, u)
    else Occupies(e, c.start - 1) && Occupies(e, c.start)
  }

  lemma CollidesIsClash(c: SubChannel, e: SubChannel)
    ensures Collides(c, e) <==> Clash(c, e)
  {
    var u := if c.start < e.start then e.start else c.start;
    assert Collides(c, e) && c.size > 0 ==> Occupies(c, u) && Occupies(e, u);
  }

  /** Beyond the 864 capacity units of a CIF, or on units of another sub-channel. */
  ghost predicate Impossible(c: SubChannel, s: seq<Keyed<nat, SubChannel>>) {
    c.start + c.size > 864 || exists i :: 0 <= i < |s| && Clash(c, s[i].value)
  }

  lemma ImpossibleIs(c: SubChannel, s: seq<Keyed<nat, SubChannel>>)
    ensures c.start + c.size > UNITS || CollidesAny(c, s) <==> Impossible(c, s)
  {
    hide Collides, Clash;
    forall i | 0 <= i < |s|
      ensures Collides(c, s[i].value) <==> Clash(c, s[i].value)
    {
      CollidesIsClash(c, s[i].value);
    }
  }

  /** FIG 0/1, section 6.2.1. */
  function Sub1(d: Bits, o: nat, used: nat, c: Config): (r: Parsed)
    ensures used < r.used
  {
    var id := GetBits(d, o, 6);
    var i := Lookup(c.s1, id);
    if i < |c.s1| then Parsed(used + FormBytes(c.s1[i].value.form), c, false)
    else
      var e := ParseSubChannel(d, o);
      var next := used + FormBytes(e.form);
      if e.start + e.size > UNITS || CollidesAny(e, c.s1) then Parsed(next, c, true)
      else Parsed(next, c.(s1 := Insert(c.s1, id, e)), false)
  }

  function IdBits(pd: bool): nat {
    if pd then 32 else 16
  }

  /** A reserved transport mechanism leaves the previous content in place. */
  function ParseContent(d: Bits, o: nat, last: Content): Content {
    var tm := GetBits(d, o, 2);
    if tm == 0 then Audio(GetBits(d, o + 2, 6), GetBits(d, o + 8, 6))
    else if tm == 1 then Stream(GetBits(d, o + 2, 6), GetBits(d, o + 8, 6))
    else if tm == 3 then Packets(GetBits(d, o + 2, 12))
    else last
  }

  /** The components from index i on of a service with n components; o is the bit address of component i. */
  function Components(d: Bits, o: nat, pd: bool, id: nat, i: nat, n: nat, last: Content,
                      s: seq<Keyed<(nat, nat), Component>>): seq<Keyed<(nat, nat), Component>>
    requires i <= n
    decreases n - i
  {
    if i == n then s
    else if Known(s, (id, i)) then Components(d, o + 16, pd, id, i + 1, n, last, s)
    else
      var content := ParseContent(d, o, last);
      var e := Component(pd, n, GetBits(d, o, 2), content, d(o + 14), d(o + 15));
      Components(d, o + 16, pd, id, i + 1, n, content, Insert(s, (id, i), e))
  }

  lemma ComponentsStep(d: Bits, o: nat, pd: bool, id: nat, i: nat, n: nat, last: Content,
                       s: seq<Keyed<(nat, nat), Component>>)
    requires i < n
    ensures Components(d, o, pd, id, i, n, last, s) ==
            if Known(s, (id, i)) then Components(d, o + 16, pd, id, i + 1, n, last, s)
            else
              var content := ParseContent(d, o, last);
              var e := Component(pd, n, GetBits(d, o, 2), content, d(o + 14), d(o + 15));
              Components(d, o + 16, pd, id, i + 1, n, content, Insert(s, (id, i), e))
  {
  }

  lemma ComponentsEnd(d: Bits, o: nat, pd: bool, id: nat, n: nat, last: Content, s: seq<Keyed<(nat, nat), Component>>)
    ensures Components(d, o, pd, id, n, n, last, s) == s
  {
  }

  /** FIG 0/2, section 6.3.1. */
  function Sub2(d: Bits, o: nat, used: nat, pd: bool, c: Config): (r: Parsed)
    ensures used < r.used
  {
    var w := IdBits(pd);
    var n := GetBits(d, o + w + 4, 4);
    Parsed(used + w / 8 + 1 + 2 * n,
           c.(s2 := Components(d, o + w + 8, pd, GetBits(d, o, w), 0, n, Unset, c.s2)), false)
  }

  function PacketBytes(caOrg: bool): nat {
    if caOrg then 7 else 5
  }

  /** FIG 0/3, section 6.3.2. The organization field is read 80 bits behind the start of the entry. */
  function Sub3(d: Bits, o: nat, used: nat, c: Config): (r: Parsed)
    ensures used < r.used
  {
    var id := GetBits(d, o, 12);
    var i := Lookup(c.s3, id);
    if i < |c.s3| then Parsed(used + PacketBytes(c.s3[i].value.caOrgFlag), c, false)
    else
      var ca := d(o + 15);
      var e := PacketMode(ca, d(o + 16), GetBits(d, o + 18, 6), GetBits(d, o + 24, 6), GetBits(d, o + 30, 10),
                          if ca then GetBits(d, o + 80, 16) else 0xFFFF);
      Parsed(used + PacketBytes(ca), c.(s3 := Insert(c.s3, id, e)), false)
  }

  /** FIG 0/8, section 6.3.5. */
  function Sub8(d: Bits, o: nat, used: nat, pd: bool, c: Config): (r: Parsed)
    ensures used < r.used
  {
    var w := IdBits(pd);
    var p := o + w;
    var long, ext := d(p + 8), d(p);
    var target := if long then ToComponent(GetBits(d, p + 12, 12)) else ToSubChannel(GetBits(d, p + 10, 6));
    var key := (GetBits(d, o, w), GetBits(d, p + 4, 4));
    Parsed(used + w / 8 + (if long then 3 else 2) + (if ext then 1 else 0),
           c.(s8 := Insert(c.s8, key, Global(pd, ext, target))), false)
  }

  /** FIG 0/14, section 6.2.2. */
  function Sub14(d: Bits, o: nat, used: nat, c: Config): (r: Parsed)
    ensures used < r.used
  {
    Parsed(used + 1, c.(s14 := Insert(c.s14, GetBits(d, o, 6), GetBits(d, o + 6, 2))), false)
  }
}
