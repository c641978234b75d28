/**
 * The fold inside `merge_results` of analyzer.py (lines 223 to 240): six
 * fixed buckets, and every member of every object in the result store routed
 * into one of them with `list.extend`.
 */
module Merger {
  import opened Wrappers
  import opened Json

  /** The keys of `final_results`. */
  const Themes: set<string> := {"Requests", "Complaints", "Suggestions", "Praise", "Troubleshooting", "Other"}

  /** `final_results`: theme name to the records gathered under it. */
  type Report = map<string, seq<Json>>

  /** The dict literal of lines 223 to 230. */
  const EmptyReport: Report :=
    map["Requests" := [], "Complaints" := [], "Suggestions" := [], "Praise" := [],
        "Troubleshooting" := [], "Other" := []]

  /**
   * What `list.extend(v)` appends: the elements of a list, the one-character
   * strings of a string, the keys of a dict. A number, a boolean or null is
   * not iterable and `extend` raises `TypeError` (`None` here).
   */
  function Iterate(v: Json): Option<seq<Json>> {
    match v
    case JArray(xs) => Some(xs)
    case JString(s) => Some(seq(|s|, i requires 0 <= i < |s| => JString([s[i]])))
    case JObject(ms) => Some(seq(|ms|, i requires 0 <= i < |ms| => JString(ms[i].0)))
    case _ => None
  }

  /** Lines 235 to 238 for one member `key: value`; `None` when `extend` raises. */
  function AddMember(m: Report, key: string, value: Json): (r: Option<Report>)
    requires m.Keys == Themes
    ensures r.Some? ==> r.value.Keys == Themes
  {
    if key in Themes && value.JArray? then Some(m[key := m[key] + value.items])
    else match Iterate(value)
      case None => None
      case Some(xs) => Some(m["Other" := m["Other"] + xs])
  }

  /** Lines 234 to 238: the members of one object, in order; the first failure abandons the rest. */
  function AddMembers(m: Report, ms: seq<(string, Json)>): (r: Option<Report>)
    requires m.Keys == Themes
    ensures r.Some? ==> r.value.Keys == Themes
    decreases |ms|
  {
    if ms == [] then Some(m)
    else match AddMembers(m, ms[..|ms| - 1])
      case None => None
      case Some(m') => AddMember(m', ms[|ms| - 1].0, ms[|ms| - 1].1)
  }

  /** Lines 233 to 240 for one stored entry: anything but an object is skipped. */
  function AddEntry(m: Report, e: Json): (r: Option<Report>)
    requires m.Keys == Themes
    ensures r.Some? ==> r.value.Keys == Themes
  {
    if e.JObject? then AddMembers(m, e.members) else Some(m)
  }

  /**
   * The whole fold over the stored entries. `None` stands for the `TypeError`
   * that line 247 catches, after which no report is written.
   */
  function Merge(entries: seq<Json>): (r: Option<Report>)
    ensures r.Some? ==> r.value.Keys == Themes
    decreases |entries|
  {
    if entries == [] then Some(EmptyReport)
    else match Merge(entries[..|entries| - 1])
      case None => None
      case Some(m) => AddEntry(m, entries[|entries| - 1])
  }

  /** Lines 223 to 240 as the source runs them: nested loops extending a local dict. */
  method MergeEntries(entries: seq<Json>) returns (r: Option<Report>)
    ensures r == Merge(entries)
  {
    var finalResults := EmptyReport;
    var i := 0;
    while i < |entries|
      invariant 0 <= i <= |entries|
      invariant finalResults.Keys == Themes
      invariant Merge(entries[..i]) == Some(finalResults)
    {
      var entry := entries[i];
      MergeStep(entries, i);
      if entry.JObject? {
        var merged := MergeObject(finalResults, entry.members);
        if merged.None? {
          NoneStaysNoneEntries(entries, i + 1);
          return None;
        }
        finalResults := merged.value;
      }
      i := i + 1;
    }
    assert entries[..i] == entries;
    r := Some(finalResults);
  }

  /** The inner loop of lines 235 to 238: one stored object's members, in order, into the report. */
  method MergeObject(m: Report, ms: seq<(string, Json)>) returns (r: Option<Report>)
    requires m.Keys == Themes
    ensures r == AddMembers(m, ms)
  {
    var finalResults := m;
    var j := 0;
    while j < |ms|
      invariant 0 <= j <= |ms|
      invariant finalResults.Keys == Themes
      invariant AddMembers(m, ms[..j]) == Some(finalResults)
    {
      var (key, value) := ms[j];
      AddMembersNext(m, ms, j, finalResults);
      if key in finalResults && value.JArray? {
        AddMemberTheme(finalResults, key, value);
        finalResults := finalResults[key := finalResults[key] + value.items];
      } else {
        var items := Iterate(value);
        if items.None? {
          NoneStaysNone(m, ms, j + 1);
          return None;
        }
        AddMemberOther(finalResults, key, value);
        finalResults := finalResults["Other" := finalResults["Other"] + items.value];
      }
      j := j + 1;
    }
    assert ms[..j] == ms;
    r := Some(finalResults);
  }

  /** The two ways `AddMember` succeeds, in the terms of the loop in `MergeEntries`. */
  lemma AddMemberTheme(m: Report, key: string, value: Json)
    requires m.Keys == Themes && key in m && value.JArray?
    ensures AddMember(m, key, value) == Some(m[key := m[key] + value.items])
  {
  }

  lemma AddMemberOther(m: Report, key: string, value: Json)
    requires m.Keys == Themes && !(key in m && value.JArray?) && Iterate(value).Some?
    ensures AddMember(m, key, value) == Some(m["Other" := m["Other"] + Iterate(value).value])
  {
  }

  /** One more member of an object: the prefix fold takes one step. */
  lemma AddMembersNext(m: Report, ms: seq<(string, Json)>, j: nat, current: Report)
    requires m.Keys == Themes && j < |ms| && AddMembers(m, ms[..j]) == Some(current)
    ensures AddMembers(m, ms[..j + 1]) == AddMember(current, ms[j].0, ms[j].1)
  {
    assert ms[..j + 1][..j] == ms[..j];
  }

  /** One more stored entry: the fold over the store takes one step. */
  lemma MergeStep(entries: seq<Json>, i: nat)
    requires i < |entries|
    ensures Merge(entries[..i + 1]) == match Merge(entries[..i])
      case None => None
      case Some(m) => AddEntry(m, entries[i])
  {
    assert entries[..i + 1][..i] == entries[..i];
  }

  /** Once a member has raised, the rest of the object does not matter. */
  lemma {:induction false} NoneStaysNone(m: Report, ms: seq<(string, Json)>, j: nat)
    requires m.Keys == Themes && j <= |ms| && AddMembers(m, ms[..j]) == None
    ensures AddMembers(m, ms) == None
    decreases |ms| - j
  {
    if j < |ms| {
      assert ms[..j + 1][..j] == ms[..j];
      NoneStaysNone(m, ms, j + 1);
    } else {
      assert ms[..j] == ms;
    }
  }

  /** Once an entry has raised, the rest of the store does not matter. */
  lemma {:induction false} NoneStaysNoneEntries(entries: seq<Json>, i: nat)
    requires i <= |entries| && Merge(entries[..i]) == None
    ensures Merge(entries) == None
    decreases |entries| - i
  {
    if i < |entries| {
      assert entries[..i + 1][..i] == entries[..i];
      NoneStaysNoneEntries(entries, i + 1);
    } else {
      assert entries[..i] == entries;
    }
  }

  // ---------------------------------------------------------------------------
  // A reference description of the report: per theme, the concatenation of
  // what every member sends there, in store order and then member order.

  /** The bucket a member is routed to: its own key for a list under a theme key, `Other` otherwise. */
  function BucketOf(key: string, value: Json): (b: string)
    ensures b in Themes
    ensures b == "Other" <==> !(key in Themes && value.JArray?) || key == "Other"
  {
    if key in Themes && value.JArray? then key else "Other"
  }

  /** What `extend` appends for `v`, or nothing when it would raise. */
  function ItemsOf(v: Json): seq<Json> {
    match Iterate(v)
    case Some(xs) => xs
    case None => []
  }

  predicate Iterable(v: Json) {
    Iterate(v).Some?
  }

  /** No member value of the object is a number, a boolean or null. */
  predicate MembersIterable(ms: seq<(string, Json)>) {
    forall j :: 0 <= j < |ms| ==> Iterable(ms[j].1)
  }

  predicate EntryIterable(e: Json) {
    e.JObject? ==> MembersIterable(e.members)
  }

  /** No stored object has a member whose value `extend` rejects. */
  predicate AllIterable(entries: seq<Json>) {
    forall i :: 0 <= i < |entries| ==> EntryIterable(entries[i])
  }

  function MembersContribution(ms: seq<(string, Json)>, t: string): seq<Json>
    decreases |ms|
  {
    if ms == [] then []
    else
      var (key, value) := ms[|ms| - 1];
      MembersContribution(ms[..|ms| - 1], t) + (if BucketOf(key, value) == t then ItemsOf(value) else [])
  }

  function EntryContribution(e: Json, t: string): seq<Json> {
    if e.JObject? then MembersContribution(e.members, t) else []
  }

  /** Everything the store sends to theme `t`, in store order and then member order. */
  function Contribution(entries: seq<Json>, t: string): seq<Json>
    decreases |entries|
  {
    if entries == [] then []
    else Contribution(entries[..|entries| - 1], t) + EntryContribution(entries[|entries| - 1], t)
  }

  lemma MembersIterableLast(ms: seq<(string, Json)>)
    requires ms != []
    ensures MembersIterable(ms) <==> MembersIterable(ms[..|ms| - 1]) && Iterable(ms[|ms| - 1].1)
  {
    var init := ms[..|ms| - 1];
    if MembersIterable(init) && Iterable(ms[|ms| - 1].1) {
      forall j | 0 <= j < |ms| ensures Iterable(ms[j].1) {
        if j < |ms| - 1 {
          assert ms[j] == init[j];
        }
      }
    }
    if MembersIterable(ms) {
      forall j | 0 <= j < |init| ensures Iterable(init[j].1) {
        assert init[j] == ms[j];
      }
    }
  }

  lemma AllIterableLast(entries: seq<Json>)
    requires entries != []
    ensures AllIterable(entries) <==> AllIterable(entries[..|entries| - 1]) && EntryIterable(entries[|entries| - 1])
  {
    var init := entries[..|entries| - 1];
    if AllIterable(init) && EntryIterable(entries[|entries| - 1]) {
      forall i | 0 <= i < |entries| ensures EntryIterable(entries[i]) {
        if i < |entries| - 1 {
          assert entries[i] == init[i];
        }
      }
    }
    if AllIterable(entries) {
      forall i | 0 <= i < |init| ensures EntryIterable(init[i]) {
        assert init[i] == entries[i];
      }
    }
  }

  lemma {:induction false} AddMembersSpec(m: Report, ms: seq<(string, Json)>)
    requires m.Keys == Themes
    ensures AddMembers(m, ms).Some? <==> MembersIterable(ms)
    ensures AddMembers(m, ms).Some? ==>
      forall t :: t in Themes ==> AddMembers(m, ms).value[t] == m[t] + MembersContribution(ms, t)
    decreases |ms|
  {
    if ms == [] {
      forall t | t in Themes ensures m[t] == m[t] + MembersContribution(ms, t) {
        assert m[t] + [] == m[t];
      }
    } else {
      var init, last := ms[..|ms| - 1], ms[|ms| - 1];
      AddMembersSpec(m, init);
      MembersIterableLast(ms);
      if AddMembers(m, init).Some? && Iterable(last.1) {
        AddMembersSnoc(m, ms);
        SplitLast(ms);
        BucketUpdate(m, AddMembers(m, init).value, init, last);
      }
    }
  }

  /** Adding one member to a report that already holds `init`'s contribution. */
  lemma BucketUpdate(m: Report, m': Report, init: seq<(string, Json)>, kv: (string, Json))
    requires m.Keys == Themes && m'.Keys == Themes && Iterable(kv.1)
    requires forall t :: t in Themes ==> m'[t] == m[t] + MembersContribution(init, t)
    ensures AddMember(m', kv.0, kv.1).Some?
    ensures forall t :: t in Themes ==>
      AddMember(m', kv.0, kv.1).value[t] == m[t] + MembersContribution(init + [kv], t)
  {
    forall t | t in Themes
      ensures AddMember(m', kv.0, kv.1).value[t] == m[t] + MembersContribution(init + [kv], t)
    {
      BucketUpdateAt(m, m', init, kv, t);
    }
  }

  /** `BucketUpdate` for one theme. */
  lemma BucketUpdateAt(m: Report, m': Report, init: seq<(string, Json)>, kv: (string, Json), t: string)
    requires m.Keys == Themes && m'.Keys == Themes && Iterable(kv.1) && t in Themes
    requires m'[t] == m[t] + MembersContribution(init, t)
    ensures AddMember(m', kv.0, kv.1).Some?
    ensures AddMember(m', kv.0, kv.1).value[t] == m[t] + MembersContribution(init + [kv], t)
  {
    var b := BucketOf(kv.0, kv.1);
    AddMemberBucket(m', kv.0, kv.1);
    MembersContributionSnoc(init, kv, t);
    BucketLookup(m', b, ItemsOf(kv.1), t, m[t], MembersContribution(init, t));
  }

  /** Looking up theme `t` after `xs` was appended to bucket `b`. */
  lemma BucketLookup(m': Report, b: string, xs: seq<Json>, t: string, old_t: seq<Json>, before: seq<Json>)
    requires b in m' && t in m' && m'[t] == old_t + before
    ensures m'[b := m'[b] + xs][t] == old_t + (before + (if b == t then xs else []))
  {
    if b == t {
      assert old_t + before + xs == old_t + (before + xs);
    } else {
      assert before + [] == before;
    }
  }

  lemma AddMembersSnoc(m: Report, ms: seq<(string, Json)>)
    requires m.Keys == Themes && ms != [] && AddMembers(m, ms[..|ms| - 1]).Some?
    ensures AddMembers(m, ms) == AddMember(AddMembers(m, ms[..|ms| - 1]).value, ms[|ms| - 1].0, ms[|ms| - 1].1)
  {
  }

  lemma SplitLast<T>(s: seq<T>)
    requires s != []
    ensures s[..|s| - 1] + [s[|s| - 1]] == s
  {
  }

  lemma MembersContributionSnoc(init: seq<(string, Json)>, kv: (string, Json), t: string)
    ensures MembersContribution(init + [kv], t) ==
      MembersContribution(init, t) + (if BucketOf(kv.0, kv.1) == t then ItemsOf(kv.1) else [])
  {
    assert (init + [kv])[..|init|] == init;
  }

  /** An iterable value is appended to the bucket `BucketOf` names. */
  lemma AddMemberBucket(m: Report, key: string, value: Json)
    requires m.Keys == Themes && Iterable(value)
    ensures AddMember(m, key, value) ==
      Some(m[BucketOf(key, value) := m[BucketOf(key, value)] + ItemsOf(value)])
  {
  }


  /**
   * The merge succeeds exactly when no stored object has a number, boolean or
   * null member value, and then each theme holds exactly the records routed to
   * it: lists under that theme key, in store order and then member order, and
   * for `Other` everything else that `extend` can iterate.
   */
  lemma {:induction false} MergeSpec(entries: seq<Json>)
    ensures Merge(entries).Some? <==> AllIterable(entries)
    ensures Merge(entries).Some? ==>
      forall t :: t in Themes ==> Merge(entries).value[t] == Contribution(entries, t)
    decreases |entries|
  {
    if entries != [] {
      var init, e := entries[..|entries| - 1], entries[|entries| - 1];
      MergeSpec(init);
      AllIterableLast(entries);
      if Merge(init).Some? {
        var m := Merge(init).value;
        if e.JObject? {
          AddMembersSpec(m, e.members);
        } else {
          forall t | t in Themes ensures m[t] == Contribution(entries, t) {
            assert Contribution(entries, t) == Contribution(init, t) + [];
          }
        }
      }
    }
  }

  // ---------------------------------------------------------------------------
  // Counting records

  /** The number of records in the six buckets together. */
  function RecordCount(m: Report): nat
    requires m.Keys == Themes
  {
    |m["Requests"]| + |m["Complaints"]| + |m["Suggestions"]| + |m["Praise"]| +
    |m["Troubleshooting"]| + |m["Other"]|
  }

  function MembersItemCount(ms: seq<(string, Json)>): nat
    decreases |ms|
  {
    if ms == [] then 0 else MembersItemCount(ms[..|ms| - 1]) + |ItemsOf(ms[|ms| - 1].1)|
  }

  /** How many items `extend` is handed over the whole store. */
  function ItemCount(entries: seq<Json>): nat
    decreases |entries|
  {
    if entries == [] then 0
    else
      var e := entries[|entries| - 1];
      ItemCount(entries[..|entries| - 1]) + (if e.JObject? then MembersItemCount(e.members) else 0)
  }

  lemma AddMemberCount(m: Report, key: string, value: Json)
    requires m.Keys == Themes && AddMember(m, key, value).Some?
    ensures RecordCount(AddMember(m, key, value).value) == RecordCount(m) + |ItemsOf(value)|
  {
  }

  lemma {:induction false} AddMembersCount(m: Report, ms: seq<(string, Json)>)
    requires m.Keys == Themes && AddMembers(m, ms).Some?
    ensures RecordCount(AddMembers(m, ms).value) == RecordCount(m) + MembersItemCount(ms)
    decreases |ms|
  {
    if ms != [] {
      var init := ms[..|ms| - 1];
      AddMembersCount(m, init);
      AddMemberCount(AddMembers(m, init).value, ms[|ms| - 1].0, ms[|ms| - 1].1);
    }
  }

  /**
   * Nothing is lost or duplicated: the report holds exactly as many records as
   * `extend` was handed, which, when every member value is a list, is the sum
   * of the list lengths.
   */
  lemma {:induction false} MergeCount(entries: seq<Json>)
    requires Merge(entries).Some?
    ensures RecordCount(Merge(entries).value) == ItemCount(entries)
    decreases |entries|
  {
    if entries != [] {
      var init, e := entries[..|entries| - 1], entries[|entries| - 1];
      MergeCount(init);
      if e.JObject? {
        AddMembersCount(Merge(init).value, e.members);
      }
    }
  }

  // ---------------------------------------------------------------------------
  // Entries that are not objects

  /** The stored entries that are objects, in order. */
  function Objects(entries: seq<Json>): seq<Json>
    decreases |entries|
  {
    if entries == [] then []
    else
      var e := entries[|entries| - 1];
      Objects(entries[..|entries| - 1]) + (if e.JObject? then [e] else [])
  }

  /** Entries that are not objects are skipped: they change neither the report nor the outcome. */
  lemma {:induction false} MergeSkipsNonObjects(entries: seq<Json>)
    ensures Merge(entries) == Merge(Objects(entries))
    decreases |entries|
  {
    if entries != [] {
      var init, e := entries[..|entries| - 1], entries[|entries| - 1];
      MergeSkipsNonObjects(init);
      assert entries == init + [e];
      MergeSnoc(init, e);
      if e.JObject? {
        assert Objects(entries) == Objects(init) + [e];
        MergeSnoc(Objects(init), e);
      } else {
        assert Objects(entries) == Objects(init) + [] == Objects(init);
        if Merge(init).Some? {
          assert AddEntry(Merge(init).value, e) == Merge(init);
        }
      }
    }
  }

  // ---------------------------------------------------------------------------
  // A worked example

  lemma MergeSnoc(entries: seq<Json>, e: Json)
    ensures Merge(entries + [e]) == match Merge(entries)
      case None => None
      case Some(m) => AddEntry(m, e)
  {
    assert (entries + [e])[..|entries|] == entries;
  }

  lemma AddSingleMember(m: Report, key: string, value: Json)
    requires m.Keys == Themes
    ensures AddEntry(m, JObject([(key, value)])) == AddMember(m, key, value)
  {
    var ms := [(key, value)];
    assert ms[..0] == [];
    assert AddMembers(m, ms[..0]) == Some(m);
    assert AddMembers(m, ms) == AddMember(m, key, value);
    assert JObject(ms).members == ms;
  }

  /** A list under a key that is not a theme is appended to Other. */
  lemma MergeSnocOther(entries: seq<Json>, m: Report, key: string, xs: seq<Json>)
    requires Merge(entries) == Some(m) && key !in Themes
    ensures Merge(entries + [JObject([(key, JArray(xs))])]) == Some(m["Other" := m["Other"] + xs])
  {
    MergeSnoc(entries, JObject([(key, JArray(xs))]));
    AddSingleMember(m, key, JArray(xs));
  }

  /** A stored entry that is not an object leaves the report as it is. */
  lemma MergeSnocSkip(entries: seq<Json>, m: Report, e: Json)
    requires Merge(entries) == Some(m) && !e.JObject?
    ensures Merge(entries + [e]) == Some(m)
  {
    MergeSnoc(entries, e);
  }

  /** A store holding one list under a theme key yields that list under that theme. */
  lemma MergeSingleTheme(key: string, xs: seq<Json>)
    requires key in Themes
    ensures Merge([JObject([(key, JArray(xs))])]) == Some(EmptyReport[key := xs])
  {
    var e := JObject([(key, JArray(xs))]);
    MergeSnoc([], e);
    assert [] + [e] == [e];
    AddSingleMember(EmptyReport, key, JArray(xs));
    assert EmptyReport[key] + xs == xs;
  }

  /** The first three entries of `MergeExample`. */
  lemma MergeExamplePrefix(r1: Json, r2: Json)
    ensures Merge([JObject([("Praise", JArray([r1]))]), JObject([("Weird", JArray([r2]))]), JString("oops")])
      == Some(EmptyReport["Praise" := [r1]]["Other" := [r2]])
  {
    var e1, e2, e3 := JObject([("Praise", JArray([r1]))]), JObject([("Weird", JArray([r2]))]), JString("oops");
    var m1 := EmptyReport["Praise" := [r1]];
    MergeSingleTheme("Praise", [r1]);
    OutsideThemes();
    MergeSnocOther([e1], m1, "Weird", [r2]);
    assert m1["Other"] + [r2] == [r2];
    MergeSnocSkip([e1] + [e2], m1["Other" := [r2]], e3);
    assert [e1] + [e2] + [e3] == [e1, e2, e3];
  }

  lemma OutsideThemes()
    ensures "Weird" !in Themes && "requests" !in Themes
  {
  }

  /**
   * A list under `Praise` lands in Praise; lists under `Weird` and under the
   * case variant `requests` land in Other; a stored string is skipped; every
   * other theme stays empty.
   */
  lemma MergeExample(entries: seq<Json>, r1: Json, r2: Json, r3: Json)
    requires entries == [JObject([("Praise", JArray([r1]))]), JObject([("Weird", JArray([r2]))]),
                         JString("oops"), JObject([("requests", JArray([r3]))])]
    ensures Merge(entries) == Some(EmptyReport["Praise" := [r1]]["Other" := [r2, r3]])
  {
    var prefix := [entries[0], entries[1], entries[2]];
    var m2 := EmptyReport["Praise" := [r1]]["Other" := [r2]];
    MergeExamplePrefix(r1, r2);
    OutsideThemes();
    MergeSnocOther(prefix, m2, "requests", [r3]);
    assert prefix + [entries[3]] == entries;
    assert m2["Other"] + [r3] == [r2, r3];
    assert m2["Other" := [r2, r3]] == EmptyReport["Praise" := [r1]]["Other" := [r2, r3]];
  }

  /**
   * A number under any key, a theme key included, is not a list, so it goes to
   * `extend` on Other, which raises.
   */
  lemma MergeNumberFails(key: string, n: real)
    ensures Merge([JObject([(key, JNumber(n))])]) == None
  {
    var e := JObject([(key, JNumber(n))]);
    MergeSnoc([], e);
    assert [] + [e] == [e];
    AddSingleMember(EmptyReport, key, JNumber(n));
  }

}
