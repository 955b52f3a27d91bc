/**
 * The name deduplication of `load_mods`: the parsed mods are grouped by
 * name in order of first appearance, and one mod is picked from each group.
 */
module Dedup {
  import opened Xml
  import Package
  import LoadOrder

  type ModUnit = Package.ModUnit

  /** The distinct members of `xs`, in order of first appearance (a dictionary's key order). */
  function FirstSeen(xs: seq<string>): (r: seq<string>)
    ensures LoadOrder.NoDup(r)
    ensures forall x :: x in r <==> x in xs
  {
    if xs == [] then []
    else
      var p := FirstSeen(xs[..|xs| - 1]);
      var x := xs[|xs| - 1];
      assert forall y :: y in xs <==> y in xs[..|xs| - 1] || y == x by {
        assert xs == xs[..|xs| - 1] + [x];
      }
      if x in p then p else p + [x]
  }

  /** The names of the mods, in order. */
  function Names(ms: seq<ModUnit>): (r: seq<string>)
    ensures |r| == |ms| && forall i :: 0 <= i < |ms| ==> r[i] == ms[i].name
  {
    seq(|ms|, i requires 0 <= i < |ms| => ms[i].name)
  }

  /** `grouped_by_name[name]`: the mods with that name, in order; there is one for every name of `ms`. */
  function Group(ms: seq<ModUnit>, name: string): (g: seq<ModUnit>)
    ensures forall m :: m in g ==> m in ms && m.name == name
    ensures name in Names(ms) <==> g != []
  {
    if ms == [] then []
    else
      var init := ms[..|ms| - 1];
      var m := ms[|ms| - 1];
      var g0 := Group(init, name);
      assert Names(ms) == Names(init) + [m.name];
      assert forall x :: x in g0 ==> x in ms by {
        assert ms == init + [m];
      }
      g0 + (if m.name == name then [m] else [])
  }

  /** The members of `ms` that pass `p`, in order (a list comprehension with a filter). */
  function Keep(ms: seq<ModUnit>, p: ModUnit -> bool): (r: seq<ModUnit>)
    ensures forall m :: m in r <==> m in ms && p(m)
    ensures |r| <= |ms|
  {
    if ms == [] then [] else (if p(ms[0]) then [ms[0]] else []) + Keep(ms[1..], p)
  }

  predicate HasSteamId(m: ModUnit) {
    Truthy(m.steamId)
  }

  predicate NoSteamId(m: ModUnit) {
    !Truthy(m.steamId)
  }

  predicate IsLocal(m: ModUnit) {
    m.local
  }

  predicate LocalSteamCopy(m: ModUnit) {
    Truthy(m.steamId) && m.local
  }

  /**
   * The copy kept from a group of mods sharing a name: the only one; else,
   * when there are copies with and without a Steam id, the first with one;
   * else, among several copies with a Steam id, the first local one if any,
   * or the first; else the first of the group.
   */
  function Select(group: seq<ModUnit>): (m: ModUnit)
    requires group != []
    ensures m in group
  {
    if |group| == 1 then group[0]
    else
      var withSteam := Keep(group, HasSteamId);
      var withoutSteam := Keep(group, NoSteamId);
      if withSteam != [] && withoutSteam != [] then withSteam[0]
      else if |withSteam| > 1 then
        var locals := Keep(withSteam, IsLocal);
        if locals != [] then locals[0] else withSteam[0]
      else group[0]
  }

  /** The kept copies for the names `ns`, in that order (`unique_mods_list`). */
  function SelectAll(ms: seq<ModUnit>, ns: seq<string>): (r: seq<ModUnit>)
    requires forall n :: n in ns ==> n in Names(ms)
    ensures |r| == |ns|
  {
    if ns == [] then []
    else
      var n := ns[|ns| - 1];
      var init := ns[..|ns| - 1];
      assert forall x :: x in init ==> x in ns;
      SelectAll(ms, init) + [Select(Group(ms, n))]
  }

  /** The mods `load_mods` keeps from the parsed ones: one per name, names in order of first appearance. */
  function Deduped(ms: seq<ModUnit>): (r: seq<ModUnit>)
    ensures forall k :: 0 <= k < |r| ==> r[k] in ms && r[k].name in Names(ms)
  {
    SelectAllNamed(ms, FirstSeen(Names(ms)));
    SelectAll(ms, FirstSeen(Names(ms)))
  }

  /** The `k`-th kept copy is one of the parsed mods and carries the `k`-th name. */
  lemma SelectAllNamed(ms: seq<ModUnit>, ns: seq<string>)
    requires forall n :: n in ns ==> n in Names(ms)
    ensures forall k :: 0 <= k < |ns| ==> SelectAll(ms, ns)[k] in ms && SelectAll(ms, ns)[k].name == ns[k]
  {
    SelectAllPicks(ms, ns);
    forall k | 0 <= k < |ns| ensures SelectAll(ms, ns)[k] in ms && SelectAll(ms, ns)[k].name == ns[k] {
      var m := Select(Group(ms, ns[k]));
      assert m in Group(ms, ns[k]);
    }
  }

  /** One more mod adds its name to the order of first appearance if it is new. */
  lemma FirstSeenStep(ms: seq<ModUnit>, i: nat)
    requires i < |ms|
    ensures var ns := FirstSeen(Names(ms[..i]));
      FirstSeen(Names(ms[..i + 1])) == if ms[i].name in ns then ns else ns + [ms[i].name]
  {
    assert Names(ms[..i + 1])[..i] == Names(ms[..i]);
  }

  /** The `grouped_by_name` dictionary after the first `i` mods: a new name opens a group, a known one extends it. */
  function GroupMap(ms: seq<ModUnit>, i: nat): map<string, seq<ModUnit>>
    requires i <= |ms|
  {
    if i == 0 then map[]
    else
      var g := GroupMap(ms, i - 1);
      var m := ms[i - 1];
      if m.name in g then g[m.name := g[m.name] + [m]] else g[m.name := [m]]
  }

  /** The dictionary has a key for every name seen and no other. */
  lemma {:induction false} GroupMapKeys(ms: seq<ModUnit>, i: nat)
    requires i <= |ms|
    ensures forall n :: n in GroupMap(ms, i) <==> n in Names(ms[..i])
  {
    if i > 0 {
      GroupMapKeys(ms, i - 1);
      assert Names(ms[..i]) == Names(ms[..i - 1]) + [ms[i - 1].name];
    }
  }

  /** Under each name, the dictionary holds that name's group. */
  lemma {:induction false} GroupMapGroups(ms: seq<ModUnit>, i: nat)
    requires i <= |ms|
    ensures forall n :: n in GroupMap(ms, i) <==> n in Names(ms[..i])
    ensures forall n :: n in GroupMap(ms, i) ==> GroupMap(ms, i)[n] == Group(ms[..i], n)
  {
    GroupMapKeys(ms, i);
    if i > 0 {
      var m := ms[i - 1];
      GroupMapGroups(ms, i - 1);
      assert ms[..i][..i - 1] == ms[..i - 1];
      assert Names(ms[..i]) == Names(ms[..i - 1]) + [m.name];
      var g := GroupMap(ms, i - 1);
      forall n | n in GroupMap(ms, i) ensures GroupMap(ms, i)[n] == Group(ms[..i], n) {
        if n != m.name {
          assert GroupMap(ms, i)[n] == g[n];
        } else if n !in g {
          assert Group(ms[..i - 1], n) == [];
        }
      }
    }
  }

  /** The grouping loop of `load_mods`: names in order of first appearance, and each name's group. */
  method GroupByName(loaded: seq<ModUnit>) returns (names: seq<string>, groups: map<string, seq<ModUnit>>)
    ensures names == FirstSeen(Names(loaded))
    ensures groups == GroupMap(loaded, |loaded|)
  {
    names, groups := [], map[];
    for i := 0 to |loaded|
      invariant names == FirstSeen(Names(loaded[..i]))
      invariant groups == GroupMap(loaded, i)
    {
      var m := loaded[i];
      FirstSeenStep(loaded, i);
      GroupMapKeys(loaded, i);
      if m.name !in groups {
        names := names + [m.name];
        groups := groups[m.name := [m]];
      } else {
        groups := groups[m.name := groups[m.name] + [m]];
      }
    }
    assert loaded[..|loaded|] == loaded;
  }

  /** The grouping and selection loops of `load_mods`. */
  method Dedup(loaded: seq<ModUnit>) returns (unique: seq<ModUnit>)
    ensures unique == Deduped(loaded)
  {
    var names, groups := GroupByName(loaded);
    GroupMapGroups(loaded, |loaded|);
    assert loaded[..|loaded|] == loaded;
    unique := [];
    for k := 0 to |names|
      invariant unique == SelectAll(loaded, names[..k])
    {
      assert names[..k + 1][..k] == names[..k];
      unique := unique + [Select(groups[names[k]])];
    }
    assert names[..|names|] == names;
  }

  /** `FirstWith(ms, p, m)`: `m` is the first member of `ms` that passes `p`. */
  ghost predicate FirstWith(ms: seq<ModUnit>, p: ModUnit -> bool, m: ModUnit) {
    exists k :: 0 <= k < |ms| && ms[k] == m && p(m) && forall j :: 0 <= j < k ==> !p(ms[j])
  }

  lemma KeepFirst(ms: seq<ModUnit>, p: ModUnit -> bool)
    requires Keep(ms, p) != []
    ensures FirstWith(ms, p, Keep(ms, p)[0])
  {
    var k := KeepFirstAt(ms, p);
  }

  /** The position of the first kept member. */
  lemma {:induction false} KeepFirstAt(ms: seq<ModUnit>, p: ModUnit -> bool) returns (k: nat)
    requires Keep(ms, p) != []
    ensures k < |ms| && ms[k] == Keep(ms, p)[0] && p(ms[k]) && forall j :: 0 <= j < k ==> !p(ms[j])
  {
    if p(ms[0]) {
      k := 0;
    } else {
      assert Keep(ms, p) == Keep(ms[1..], p);
      var k1 := KeepFirstAt(ms[1..], p);
      k := k1 + 1;
      forall j | 0 <= j < k ensures !p(ms[j]) {
        if j > 0 { assert ms[j] == ms[1..][j - 1]; }
      }
    }
  }

  /** The local copies among those with a Steam id are the local copies with one. */
  lemma {:induction false} KeepKeep(ms: seq<ModUnit>)
    ensures Keep(Keep(ms, HasSteamId), IsLocal) == Keep(ms, LocalSteamCopy)
  {
    if ms != [] {
      KeepKeep(ms[1..]);
      var rest := Keep(ms[1..], HasSteamId);
      if HasSteamId(ms[0]) {
        var k := [ms[0]] + rest;
        assert Keep(ms, HasSteamId) == k;
        assert k[0] == ms[0] && k[1..] == rest;
        assert Keep(k, IsLocal) == (if IsLocal(ms[0]) then [ms[0]] else []) + Keep(rest, IsLocal);
      } else {
        assert Keep(ms, HasSteamId) == rest;
      }
    }
  }

  lemma {:induction false} KeepNone(ms: seq<ModUnit>, p: ModUnit -> bool)
    requires forall m :: m in ms ==> !p(m)
    ensures Keep(ms, p) == []
  {
    if ms != [] {
      assert forall m :: m in ms[1..] ==> m in ms;
      KeepNone(ms[1..], p);
    }
  }

  /** The selection rules `load_mods` applies to a group of mods sharing a name. */
  lemma SelectRule(group: seq<ModUnit>)
    requires group != []
    ensures var m := Select(group);
      && (|group| == 1 ==> m == group[0])
      && ((exists a :: a in group && HasSteamId(a)) && (exists b :: b in group && !HasSteamId(b)) ==>
            FirstWith(group, HasSteamId, m))
      && (|group| > 1 && (forall a :: a in group ==> HasSteamId(a)) && (exists a :: a in group && a.local) ==>
            FirstWith(group, LocalSteamCopy, m))
      && (|group| > 1 && (forall a :: a in group ==> HasSteamId(a)) && (forall a :: a in group ==> !a.local) ==>
            m == group[0])
      && ((forall a :: a in group ==> !HasSteamId(a)) ==> m == group[0])
  {
    SelectMixed(group);
    SelectAllSteam(group);
    SelectNoSteam(group);
  }

  /** Copies with and without a Steam id: the first with one. */
  lemma SelectMixed(group: seq<ModUnit>)
    requires group != []
    ensures (exists a :: a in group && HasSteamId(a)) && (exists b :: b in group && !HasSteamId(b)) ==>
      FirstWith(group, HasSteamId, Select(group))
  {
    if (exists a :: a in group && HasSteamId(a)) && (exists b :: b in group && !HasSteamId(b)) {
      var a :| a in group && HasSteamId(a);
      var b :| b in group && !HasSteamId(b);
      var ws, wos := Keep(group, HasSteamId), Keep(group, NoSteamId);
      assert ws != [] && wos != [] by {
        assert a in ws && b in wos;
      }
      assert |group| != 1 by {
        NotSingle(group, a, b);
      }
      assert Select(group) == ws[0];
      KeepFirst(group, HasSteamId);
    }
  }

  /** A sequence with two different members has more than one. */
  lemma NotSingle(group: seq<ModUnit>, a: ModUnit, b: ModUnit)
    requires a in group && b in group && a != b
    ensures |group| != 1
  {
  }

  /** Several copies, all with a Steam id: the first local one, or the first. */
  lemma SelectAllSteam(group: seq<ModUnit>)
    requires group != []
    ensures |group| > 1 && (forall a :: a in group ==> HasSteamId(a)) && (exists a :: a in group && a.local) ==>
      FirstWith(group, LocalSteamCopy, Select(group))
    ensures |group| > 1 && (forall a :: a in group ==> HasSteamId(a)) && (forall a :: a in group ==> !a.local) ==>
      Select(group) == group[0]
  {
    if |group| > 1 && (forall a :: a in group ==> HasSteamId(a)) {
      KeepNone(group, NoSteamId);
      KeepAll(group, HasSteamId);
      KeepKeep(group);
      if exists a :: a in group && a.local {
        var a :| a in group && a.local;
        assert a in Keep(group, LocalSteamCopy);
        KeepFirst(group, LocalSteamCopy);
      } else {
        KeepNone(group, LocalSteamCopy);
      }
    }
  }

  /** No copy with a Steam id: the first of the group. */
  lemma SelectNoSteam(group: seq<ModUnit>)
    requires group != []
    ensures (forall a :: a in group ==> !HasSteamId(a)) ==> Select(group) == group[0]
  {
    if forall a :: a in group ==> !HasSteamId(a) {
      KeepNone(group, HasSteamId);
    }
  }

  lemma {:induction false} KeepAll(ms: seq<ModUnit>, p: ModUnit -> bool)
    requires forall m :: m in ms ==> p(m)
    ensures Keep(ms, p) == ms
  {
    if ms != [] {
      assert forall m :: m in ms[1..] ==> m in ms;
      KeepAll(ms[1..], p);
    }
  }

  /**
   * Deduplication keeps exactly one mod per name: every kept mod is one of
   * the parsed ones, the kept names are distinct, every parsed name is
   * kept, and each name's copy is the one `Select` picks from its group.
   */
  lemma DedupOnePerName(ms: seq<ModUnit>)
    ensures var u := Deduped(ms);
      && (forall k :: 0 <= k < |u| ==> u[k] in ms)
      && (forall i, j :: 0 <= i < j < |u| ==> u[i].name != u[j].name)
      && (forall i :: 0 <= i < |ms| ==> exists k :: 0 <= k < |u| && u[k].name == ms[i].name)
      && (forall k :: 0 <= k < |u| ==> u[k] == Select(Group(ms, u[k].name)))
  {
    DedupDistinct(ms);
    DedupCovers(ms);
    DedupPicks(ms);
  }

  /** Each kept copy is the pick from the group of its own name. */
  lemma DedupPicks(ms: seq<ModUnit>)
    ensures var u := Deduped(ms);
      forall k :: 0 <= k < |u| ==> u[k] == Select(Group(ms, u[k].name))
  {
    var ns := FirstSeen(Names(ms));
    SelectAllNamed(ms, ns);
    SelectAllPicks(ms, ns);
  }

  /** The kept names are distinct. */
  lemma DedupDistinct(ms: seq<ModUnit>)
    ensures var u := Deduped(ms);
      forall i, j :: 0 <= i < j < |u| ==> u[i].name != u[j].name
  {
    var ns := FirstSeen(Names(ms));
    var u := Deduped(ms);
    SelectAllNamed(ms, ns);
    forall i, j | 0 <= i < j < |u| ensures u[i].name != u[j].name {
      assert u[i].name == ns[i] && u[j].name == ns[j];
    }
  }

  /** Every parsed name is kept. */
  lemma DedupCovers(ms: seq<ModUnit>)
    ensures var u := Deduped(ms);
      forall i :: 0 <= i < |ms| ==> exists k :: 0 <= k < |u| && u[k].name == ms[i].name
  {
    var ns := FirstSeen(Names(ms));
    var u := Deduped(ms);
    SelectAllNamed(ms, ns);
    forall i | 0 <= i < |ms| ensures exists k :: 0 <= k < |u| && u[k].name == ms[i].name {
      assert Names(ms)[i] == ms[i].name;
      assert ms[i].name in ns;
      var k :| 0 <= k < |ns| && ns[k] == ms[i].name;
      assert u[k].name == ms[i].name;
    }
  }

  lemma SelectAllPicks(ms: seq<ModUnit>, ns: seq<string>)
    requires forall n :: n in ns ==> n in Names(ms)
    ensures forall k :: 0 <= k < |ns| ==> SelectAll(ms, ns)[k] == Select(Group(ms, ns[k]))
  {
    forall k | 0 <= k < |ns| ensures SelectAll(ms, ns)[k] == Select(Group(ms, ns[k])) {
      SelectAllAt(ms, ns, k);
    }
  }

  /** The `k`-th kept copy is the pick from the group of the `k`-th name. */
  lemma {:induction false} SelectAllAt(ms: seq<ModUnit>, ns: seq<string>, k: nat)
    requires (forall n :: n in ns ==> n in Names(ms)) && k < |ns|
    ensures SelectAll(ms, ns)[k] == Select(Group(ms, ns[k]))
    decreases |ns|
  {
    var init := ns[..|ns| - 1];
    assert forall n :: n in init ==> n in ns;
    if k < |init| {
      SelectAllAt(ms, init, k);
      assert ns[k] == init[k];
    }
  }
}
