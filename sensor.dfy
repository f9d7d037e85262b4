/** The sensor platform: one Home Assistant sensor per key of the
    coordinator's data, with a display name, a unit and a state class derived
    from the key alone, fixed ids, and a value looked up on each update.
    `DOMAIN` is the parameter `domain`. */
module Sensor {
  import opened Outcomes
  import opened PyText
  import opened Dicts
  import opened Sequences

  // ------------------------------------------------------ str.replace

  /** `pat` occurs in `s` at `i`. */
  predicate OccursAt(s: string, i: int, pat: string) {
    0 <= i && i + |pat| <= |s| && s[i..i + |pat|] == pat
  }

  /** `s.replace(pat, rep)`: every occurrence of `pat`, leftmost first and
      not overlapping, is replaced by `rep`. */
  function ReplaceAll(s: string, pat: string, rep: string): (r: string)
    requires |pat| > 0
    ensures forall c :: c in r ==> c in s || c in rep
    decreases |s|
  {
    if |s| < |pat| then s
    else if s[..|pat|] == pat then rep + ReplaceAll(s[|pat|..], pat, rep)
    else [s[0]] + ReplaceAll(s[1..], pat, rep)
  }

  /** Where `pat` does not occur, `replace` changes nothing. */
  lemma {:induction false} ReplaceAllAbsent(s: string, pat: string, rep: string)
    requires |pat| > 0
    requires forall i :: !OccursAt(s, i, pat)
    ensures ReplaceAll(s, pat, rep) == s
    decreases |s|
  {
    if |s| >= |pat| {
      assert !OccursAt(s, 0, pat);
      forall i ensures !OccursAt(s[1..], i, pat) {
        if OccursAt(s[1..], i, pat) {
          assert s[1..][i..i + |pat|] == s[i + 1..i + 1 + |pat|];
          assert OccursAt(s, i + 1, pat);
        }
      }
      ReplaceAllAbsent(s[1..], pat, rep);
      assert s == [s[0]] + s[1..];
    }
  }

  /** Replacing a single character by text without it removes that
      character altogether. */
  lemma ReplaceAllRemoves(s: string, c: char, rep: string)
    requires c !in rep
    ensures c !in ReplaceAll(s, [c], rep)
  {
    ReplaceAllRemovesFrom(s, c, rep);
  }

  lemma {:induction false} ReplaceAllRemovesFrom(s: string, c: char, rep: string)
    requires c !in rep
    ensures c !in ReplaceAll(s, [c], rep)
    decreases |s|
  {
    if |s| >= 1 {
      ReplaceAllRemovesFrom(s[1..], c, rep);
      assert s[..1] == [s[0]];
    }
  }

  /** The leftmost occurrence is the one replaced: when `pat` first occurs
      right after `a`, the text before it is kept, that occurrence becomes
      `rep`, and the scan resumes after it. */
  lemma {:induction false} ReplaceAllFirst(a: string, pat: string, b: string, rep: string)
    requires |pat| > 0
    requires forall i :: 0 <= i < |a| ==> !OccursAt(a + pat + b, i, pat)
    ensures ReplaceAll(a + pat + b, pat, rep) == a + rep + ReplaceAll(b, pat, rep)
    decreases |a|
  {
    var s, tail := a + pat + b, ReplaceAll(b, pat, rep);
    if a == [] {
      assert s == pat + b && s[|pat|..] == b;
      ReplaceAllMatch(s, pat, rep);
    } else {
      var t := a[1..];
      assert s[1..] == t + pat + b;
      NoOccurrenceShift(s, pat, |t|);
      ReplaceAllFirst(t, pat, b, rep);
      ReplaceAllSkip(s, pat, rep);
      Associate([a[0]], t, rep + tail);
      Associate(a, rep, tail);
      assert [a[0]] + t == a;
    }
  }

  lemma ReplaceAllMatch(s: string, pat: string, rep: string)
    requires |pat| > 0 && OccursAt(s, 0, pat)
    ensures ReplaceAll(s, pat, rep) == rep + ReplaceAll(s[|pat|..], pat, rep)
  {
  }

  lemma ReplaceAllSkip(s: string, pat: string, rep: string)
    requires |pat| > 0 && |s| >= |pat| && !OccursAt(s, 0, pat)
    ensures ReplaceAll(s, pat, rep) == [s[0]] + ReplaceAll(s[1..], pat, rep)
  {
  }

  /** No occurrence in `s` before `n + 1` means none in `s[1..]` before `n`. */
  lemma NoOccurrenceShift(s: string, pat: string, n: nat)
    requires 0 < |s| && forall i :: 0 <= i < n + 1 ==> !OccursAt(s, i, pat)
    ensures forall i :: 0 <= i < n ==> !OccursAt(s[1..], i, pat)
  {
    forall i | 0 <= i < n ensures !OccursAt(s[1..], i, pat) {
      if OccursAt(s[1..], i, pat) {
        assert s[1..][i..i + |pat|] == s[i + 1..i + 1 + |pat|];
        assert OccursAt(s, i + 1, pat);
      }
    }
  }

  // ------------------------------------------------------ str.title

  /** `str.title()` on ASCII, `prevCased` telling whether the character
      before `s` was a letter: a letter directly after a letter is lowered,
      any other letter is raised, and other characters are kept. */
  function TitleFrom(s: string, prevCased: bool): (r: string)
    ensures |r| == |s|
    decreases |s|
  {
    if s == [] then []
    else [if prevCased then ToLower(s[0]) else ToUpper(s[0])] + TitleFrom(s[1..], IsAsciiLetter(s[0]))
  }

  function Title(s: string): (r: string)
    ensures |r| == |s|
  {
    TitleFrom(s, false)
  }

  /** Title case at position `i`: a letter stays the same letter and is
      upper case exactly when it does not follow a letter (`prevCased`
      standing for the character before `s`), and any other character is
      unchanged. */
  ghost predicate TitledAt(s: string, r: string, prevCased: bool, i: int)
    requires 0 <= i < |s| == |r|
  {
    && (IsAsciiLetter(s[i]) ==> IsAsciiLetter(r[i]) && ToLower(r[i]) == ToLower(s[i]))
    && (IsAsciiLetter(s[i]) ==>
          (IsAsciiUpper(r[i]) <==> !(if i == 0 then prevCased else IsAsciiLetter(s[i - 1]))))
    && (!IsAsciiLetter(s[i]) ==> r[i] == s[i])
  }

  lemma {:induction false} TitleFromShape(s: string, prevCased: bool)
    ensures forall i :: 0 <= i < |s| ==> TitledAt(s, TitleFrom(s, prevCased), prevCased, i)
    decreases |s|
  {
    if s != [] {
      var t, r := s[1..], TitleFrom(s, prevCased);
      TitleFromShape(t, IsAsciiLetter(s[0]));
      assert r[1..] == TitleFrom(t, IsAsciiLetter(s[0]));
      forall i | 0 <= i < |s| ensures TitledAt(s, r, prevCased, i) {
        if i > 0 {
          assert TitledAt(t, r[1..], IsAsciiLetter(s[0]), i - 1);
          assert t[i - 1] == s[i] && r[1..][i - 1] == r[i];
          if i > 1 { assert t[i - 2] == s[i - 1]; }
        }
      }
    }
  }

  /** Whether the last character before what follows `a` is a letter. */
  function CasedAfter(a: string, prevCased: bool): bool {
    if a == [] then prevCased else IsAsciiLetter(a[|a| - 1])
  }

  /** Title case works left to right: the second part only needs to know
      whether the first part ended in a letter. */
  lemma TitleFromAppend(a: string, b: string, prevCased: bool)
    ensures TitleFrom(a + b, prevCased) == TitleFrom(a, prevCased) + TitleFrom(b, CasedAfter(a, prevCased))
  {
    var ab, q := a + b, CasedAfter(a, prevCased);
    var l, r := TitleFrom(ab, prevCased), TitleFrom(a, prevCased) + TitleFrom(b, q);
    forall i | 0 <= i < |a| ensures l[i] == r[i] {
      TitleFromAt(ab, prevCased, i);
      TitleFromAt(a, prevCased, i);
      assert ab[i] == a[i];
      if i > 0 { assert ab[i - 1] == a[i - 1]; }
    }
    forall i | |a| <= i < |ab| ensures l[i] == r[i] {
      TitleAppendRight(a, b, prevCased, i);
    }
  }

  /** Past the end of `a`, title case of `a + b` is that of `b`. */
  lemma TitleAppendRight(a: string, b: string, prevCased: bool, i: nat)
    requires |a| <= i < |a| + |b|
    ensures TitleFrom(a + b, prevCased)[i] ==
      (TitleFrom(a, prevCased) + TitleFrom(b, CasedAfter(a, prevCased)))[i]
  {
    var ab, q := a + b, CasedAfter(a, prevCased);
    TitleFromAt(ab, prevCased, i);
    TitleFromAt(b, q, i - |a|);
    assert ab[i] == b[i - |a|];
    if i > |a| { assert ab[i - 1] == b[i - |a| - 1]; }
    else if i > 0 { assert ab[i - 1] == a[|a| - 1]; }
  }

  /** The shape `title()` gives, stated on its result alone. */
  lemma TitleShape(s: string)
    ensures forall i :: 0 <= i < |s| ==> (IsAsciiLetter(Title(s)[i]) <==> IsAsciiLetter(s[i]))
    ensures forall i :: 0 <= i < |s| && IsAsciiLetter(Title(s)[i]) ==>
      (IsAsciiUpper(Title(s)[i]) <==> i == 0 || !IsAsciiLetter(Title(s)[i - 1]))
    ensures forall i :: 0 <= i < |s| && !IsAsciiLetter(s[i]) ==> Title(s)[i] == s[i]
  {
    var r := Title(s);
    TitleFromShape(s, false);
    forall i | 0 <= i < |s| ensures IsAsciiLetter(r[i]) <==> IsAsciiLetter(s[i]) {
      assert TitledAt(s, r, false, i);
    }
    forall i | 0 <= i < |s| && IsAsciiLetter(r[i])
      ensures IsAsciiUpper(r[i]) <==> i == 0 || !IsAsciiLetter(r[i - 1])
    {
      assert TitledAt(s, r, false, i);
      if i > 0 { assert TitledAt(s, r, false, i - 1); }
    }
    forall i | 0 <= i < |s| && !IsAsciiLetter(s[i]) ensures r[i] == s[i] {
      assert TitledAt(s, r, false, i);
    }
  }

  // ------------------------------------------------------ _friendly

  /** `_friendly(key)`: the four prefixes spelled out, in this order,
      every remaining `-` made a space, then title case. A display name
      never contains `-`, and it is in title case. */
  function Friendly(key: string): (n: string)
    ensures '-' !in n
    ensures forall i :: 0 <= i < |n| && IsAsciiLetter(n[i]) ==>
      (IsAsciiUpper(n[i]) <==> i == 0 || !IsAsciiLetter(n[i - 1]))
  {
    var s1 := ReplaceAll(key, "v-", "Voltage ");
    var s2 := ReplaceAll(s1, "i-", "Current ");
    var s3 := ReplaceAll(s2, "p-", "Power ");
    var s4 := ReplaceAll(s3, "e-", "Energy ");
    var s5 := ReplaceAll(s4, "-", " ");
    ReplaceAllRemoves(s4, '-', " ");
    TitleShape(s5);
    TitleKeepsAbsent(s5, '-');
    Title(s5)
  }

  /** Title case adds no character that is not a letter. */
  lemma TitleKeepsAbsent(s: string, c: char)
    requires !IsAsciiLetter(c) && c !in s
    ensures c !in Title(s)
  {
    TitleShape(s);
    var n := Title(s);
    forall i | 0 <= i < |n| ensures n[i] != c {
      if !IsAsciiLetter(s[i]) {
        assert n[i] == s[i];
        assert s[i] in s;
      }
    }
  }

  /** `_friendly("v-pv1") == "Voltage Pv1"` */
  lemma FriendlyVoltage()
    ensures Friendly("v-pv1") == "Voltage Pv1"
  {
    var s1 := "Voltage pv1";
    ReplaceVoltage();
    NoDashAbsent(s1, "i-", "Current ");
    NoDashAbsent(s1, "p-", "Power ");
    NoDashAbsent(s1, "e-", "Energy ");
    NoDashAbsent(s1, "-", " ");
    TitleVoltage();
  }

  lemma ReplaceVoltage()
    ensures ReplaceAll("v-pv1", "v-", "Voltage ") == "Voltage pv1"
  {
    ReplaceAllFirst([], "v-", "pv1", "Voltage ");
    assert [] + "v-" + "pv1" == "v-pv1";
    NoDashAbsent("pv1", "v-", "Voltage ");
  }

  lemma TitleVoltage()
    ensures Title("Voltage pv1") == "Voltage Pv1"
  {
    TitleVoltageOf("Voltage pv1", "Voltage Pv1");
  }

  lemma TitleVoltageOf(s: string, t: string)
    requires s == "Voltage pv1" && t == "Voltage Pv1"
    ensures Title(s) == t
  {
    TitleVoltageBetween(s, t, 0, 4);
    TitleVoltageBetween(s, t, 4, 8);
    TitleVoltageBetween(s, t, 8, 11);
    assert forall i :: 0 <= i < |s| ==> Title(s)[i] == t[i];
  }

  /** `"Voltage pv1".title()` agrees with `"Voltage Pv1"` from `lo` to `hi`. */
  lemma TitleVoltageBetween(s: string, t: string, lo: nat, hi: nat)
    requires s == "Voltage pv1" && t == "Voltage Pv1" && lo <= hi <= |s|
    ensures forall i :: lo <= i < hi ==> Title(s)[i] == t[i]
  {
    forall i | lo <= i < hi ensures Title(s)[i] == t[i] {
      TitleFromAt(s, false, i);
    }
  }

  /** Character `i` of the title case of `s`, read off `s`. */
  lemma {:induction false} TitleFromAt(s: string, prevCased: bool, i: nat)
    requires i < |s|
    ensures TitleFrom(s, prevCased)[i] ==
      if (if i == 0 then prevCased else IsAsciiLetter(s[i - 1])) then ToLower(s[i]) else ToUpper(s[i])
    decreases i
  {
    if i > 0 {
      TitleFromAt(s[1..], IsAsciiLetter(s[0]), i - 1);
      if i > 1 { assert s[1..][i - 2] == s[i - 1]; }
    }
  }

  /** A text with no `-` holds no pattern that ends in `-`. */
  lemma NoDashAbsent(s: string, pat: string, rep: string)
    requires '-' !in s && |pat| > 0 && pat[|pat| - 1] == '-'
    ensures ReplaceAll(s, pat, rep) == s
  {
    forall i ensures !OccursAt(s, i, pat) {
    }
    ReplaceAllAbsent(s, pat, rep);
  }

  // ------------------------------------------------------ _unit

  /** `_unit(key)`: the unit the key's prefix announces. */
  function Unit(key: string): (r: Option<string>)
    ensures r.Some? <==> KnownPrefix(key)
    ensures r.Some? ==> r.value in {"V", "A", "W", "kWh"}
  {
    if StartsWith(key, "v-") || StartsWith(key, "vbus") || StartsWith(key, "vac") then Some("V")
    else if StartsWith(key, "i-") || StartsWith(key, "iac") then Some("A")
    else if StartsWith(key, "p-") || StartsWith(key, "pac") then Some("W")
    else if StartsWith(key, "e-") then Some("kWh")
    else None
  }

  /** The prefixes of different units begin with different letters, so
      each unit is given exactly for its own prefixes. */
  lemma UnitByPrefix(key: string)
    ensures Unit(key) == Some("V") <==> StartsWith(key, "v-") || StartsWith(key, "vbus") || StartsWith(key, "vac")
    ensures Unit(key) == Some("A") <==> StartsWith(key, "i-") || StartsWith(key, "iac")
    ensures Unit(key) == Some("W") <==> StartsWith(key, "p-") || StartsWith(key, "pac")
    ensures Unit(key) == Some("kWh") <==> StartsWith(key, "e-")
    ensures Unit(key) == None <==> !KnownPrefix(key)
  {
    forall p: string | |p| > 0 && StartsWith(key, p) ensures key[0] == p[0] {
      assert key[..|p|][0] == key[0];
    }
  }

  /** The key starts with one of the eight prefixes `_unit` knows. */
  predicate KnownPrefix(key: string) {
    || StartsWith(key, "v-") || StartsWith(key, "vbus") || StartsWith(key, "vac")
    || StartsWith(key, "i-") || StartsWith(key, "iac")
    || StartsWith(key, "p-") || StartsWith(key, "pac")
    || StartsWith(key, "e-")
  }

  // ------------------------------------------------------ state class

  datatype StateClass = Measurement | TotalIncreasing

  /** The state class `SAJSensor.__init__` gives a unit. */
  function StateClassOf(unit: Option<string>): (r: Option<StateClass>)
    ensures r == Some(TotalIncreasing) <==> unit == Some("kWh")
    ensures r == Some(Measurement) <==> unit in {Some("V"), Some("A"), Some("W")}
    ensures r.None? <==> unit !in {Some("V"), Some("A"), Some("W"), Some("kWh")}
  {
    if unit == Some("V") || unit == Some("A") || unit == Some("W") then Some(Measurement)
    else if unit == Some("kWh") then Some(TotalIncreasing)
    else None
  }

  /** Voltages, currents and powers are measurements, the energy counters
      only ever increase, and keys without a unit get no state class. */
  lemma StateClassByPrefix(key: string)
    ensures StateClassOf(Unit(key)) == Some(Measurement) <==>
      KnownPrefix(key) && !StartsWith(key, "e-")
    ensures StateClassOf(Unit(key)) == Some(TotalIncreasing) <==> StartsWith(key, "e-")
    ensures StateClassOf(Unit(key)) == None <==> Unit(key) == None
  {
    UnitByPrefix(key);
  }

  // ------------------------------------------------------ ids

  /** `f"{DOMAIN}_{key}"` */
  function UniqueId(domain: string, key: string): (r: string)
    ensures |r| == |domain| + 1 + |key|
    ensures r[..|domain|] == domain && r[|domain|] == '_' && r[|domain| + 1..] == key
  {
    domain + "_" + key
  }

  const EntityIdPrefix := "sensor.sajinv_"

  /** `f"sensor.sajinv_{key}"` */
  function EntityId(key: string): (r: string)
    ensures |r| == |EntityIdPrefix| + |key|
    ensures r[..|EntityIdPrefix|] == EntityIdPrefix && r[|EntityIdPrefix|..] == key
  {
    EntityIdPrefix + key
  }

  /** Different keys give different ids of both kinds. */
  lemma IdsInjective(domain: string, k1: string, k2: string)
    ensures UniqueId(domain, k1) == UniqueId(domain, k2) ==> k1 == k2
    ensures EntityId(k1) == EntityId(k2) ==> k1 == k2
  {
    var p := domain + "_";
    if UniqueId(domain, k1) == UniqueId(domain, k2) {
      assert k1 == UniqueId(domain, k1)[|p|..];
      assert k2 == UniqueId(domain, k2)[|p|..];
    }
    if EntityId(k1) == EntityId(k2) {
      assert k1 == EntityId(k1)[|EntityIdPrefix|..];
      assert k2 == EntityId(k2)[|EntityIdPrefix|..];
    }
  }

  // ------------------------------------------------------ SAJSensor

  /** One sensor: its description is fixed at construction, and
      `nativeValue` is what the last update found for its key. */
  class SajSensor {
    const key: string
    const name: string
    const unit: Option<string>
    const stateClass: Option<StateClass>
    const uniqueId: string
    const entityId: string
    var nativeValue: Option<string>

    constructor (domain: string, key: string)
      ensures this.key == key && name == Friendly(key) && unit == Unit(key)
      ensures stateClass == StateClassOf(Unit(key))
      ensures uniqueId == UniqueId(domain, key) && entityId == EntityId(key)
      ensures nativeValue == None
    {
      this.key := key;
      name := Friendly(key);
      unit := Unit(key);
      stateClass := StateClassOf(Unit(key));
      uniqueId := UniqueId(domain, key);
      entityId := EntityId(key);
      nativeValue := None;
    }

    /** `_handle_coordinator_update()`: the value is `data.get(key)`, None
        when the key is missing. */
    method HandleCoordinatorUpdate(data: Dict<string>)
      modifies this`nativeValue
      ensures nativeValue == Get(data, key)
      ensures key in data.entries ==> nativeValue == Some(data.entries[key])
      ensures key !in data.entries ==> nativeValue == None
    {
      if key in data.entries {
        nativeValue := Some(data.entries[key]);
      } else {
        nativeValue := None;
      }
    }
  }

  /** `async_setup_entry`: one new sensor per key of the coordinator's
      data, in the dict's key order. */
  method SetupEntry(domain: string, data: Dict<string>) returns (sensors: seq<SajSensor>)
    ensures |sensors| == |data.keys|
    ensures forall i :: 0 <= i < |sensors| ==> fresh(sensors[i])
    ensures forall i :: 0 <= i < |sensors| ==>
      && sensors[i].key == data.keys[i]
      && sensors[i].name == Friendly(data.keys[i])
      && sensors[i].unit == Unit(data.keys[i])
      && sensors[i].stateClass == StateClassOf(Unit(data.keys[i]))
      && sensors[i].uniqueId == UniqueId(domain, data.keys[i])
      && sensors[i].entityId == EntityId(data.keys[i])
      && sensors[i].nativeValue == None
    ensures forall i, j :: 0 <= i < j < |sensors| ==> sensors[i] != sensors[j]
  {
    sensors := [];
    var i := 0;
    while i < |data.keys|
      invariant 0 <= i <= |data.keys| && |sensors| == i
      invariant forall j :: 0 <= j < i ==> fresh(sensors[j])
      invariant forall j :: 0 <= j < i ==>
        && sensors[j].key == data.keys[j]
        && sensors[j].name == Friendly(data.keys[j])
        && sensors[j].unit == Unit(data.keys[j])
        && sensors[j].stateClass == StateClassOf(Unit(data.keys[j]))
        && sensors[j].uniqueId == UniqueId(domain, data.keys[j])
        && sensors[j].entityId == EntityId(data.keys[j])
        && sensors[j].nativeValue == None
      invariant forall j, k :: 0 <= j < k < i ==> sensors[j] != sensors[k]
    {
      var s := new SajSensor(domain, data.keys[i]);
      sensors := sensors + [s];
      i := i + 1;
    }
  }

  /** The keys of a dict are distinct, so the sensors it gives have
      distinct entity ids and unique ids. */
  lemma SetupIdsDistinct(domain: string, data: Dict<string>)
    requires Valid(data)
    ensures forall i, j :: 0 <= i < j < |data.keys| ==>
      EntityId(data.keys[i]) != EntityId(data.keys[j]) &&
      UniqueId(domain, data.keys[i]) != UniqueId(domain, data.keys[j])
  {
    forall i, j | 0 <= i < j < |data.keys|
      ensures EntityId(data.keys[i]) != EntityId(data.keys[j])
      ensures UniqueId(domain, data.keys[i]) != UniqueId(domain, data.keys[j])
    {
      IdsInjective(domain, data.keys[i], data.keys[j]);
    }
  }
}
