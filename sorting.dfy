/**
 * The graph-building half of `ModManager.sort`: a scan of the active mods'
 * dependencies for conflicts and for missing requirements, a single pass
 * of auto-activation, and the parent sets (`dependencies`) and hard edges
 * the load-order resolver runs on.
 *
 * Parents of a mod come from three sources: its `requirement` and `patch`
 * dependencies on active mods whose condition applies (these are the hard
 * edges), the mods whose lower-cased name (longer than three characters)
 * occurs in its own when its name marks it as a patch, and the first mod to
 * add each id it overrides, unless its `IgnoreOverrideCheck` setting is on.
 */
module Sorting {
  import opened Wrappers
  import opened Xml
  import Package
  import LoadOrder
  import ModLists
  import Issues

  type Id = LoadOrder.Id
  type ModUnit = Package.ModUnit
  type Dependency = Package.Dependency
  type Eval = Issues.Eval

  /** The registry's mods for a list of ids, in list order. */
  function ModsOf(mods: map<Id, ModUnit>, ids: seq<Id>): (r: seq<ModUnit>)
    requires forall x :: x in ids ==> x in mods
    ensures |r| == |ids| && forall k :: 0 <= k < |ids| ==> r[k] == mods[ids[k]]
  {
    seq(|ids|, k requires 0 <= k < |ids| => mods[ids[k]])
  }

  /** The dependency kinds that order mods. */
  predicate Orders(kind: string) {
    kind == "requirement" || kind == "patch"
  }

  // ----- the scan for conflicts and missing requirements -----

  /** `ban_ids` and `missing_dependencies` (by id: a candidate is the registered mod of that id). */
  datatype Scan = Scan(ban: set<Id>, missing: seq<Id>)

  /** One dependency of an active mod during the scan. */
  function ScanDep(st: Scan, d: Dependency, ids: set<Id>, known: set<Id>, eval: Eval): Scan {
    if d.kind == "conflict" then
      if d.Id() in ids then st.(ban := st.ban + {d.Id()}) else st
    else if Orders(d.kind) then
      if !Issues.Applies(d, ids, eval) then st
      else if d.Id() !in ids && d.Id() !in st.ban && d.Id() in known then st.(missing := st.missing + [d.Id()])
      else st
    else st
  }

  function ScanDeps(st: Scan, deps: seq<Dependency>, j: nat, ids: set<Id>, known: set<Id>, eval: Eval): Scan
    requires j <= |deps|
  {
    if j == 0 then st else ScanDep(ScanDeps(st, deps, j - 1, ids, known, eval), deps[j - 1], ids, known, eval)
  }

  /** The scan over the first `i` active mods. */
  function ScanMods(ms: seq<ModUnit>, i: nat, ids: set<Id>, known: set<Id>, eval: Eval): Scan
    requires i <= |ms|
  {
    if i == 0 then Scan({}, [])
    else
      var deps := ms[i - 1].metadata.dependencies;
      ScanDeps(ScanMods(ms, i - 1, ids, known, eval), deps, |deps|, ids, known, eval)
  }

  /** A dependency that asks for a known, inactive mod: an ordering kind whose condition applies. */
  predicate Wanted(d: Dependency, ids: set<Id>, known: set<Id>, eval: Eval) {
    Orders(d.kind) && Issues.Applies(d, ids, eval) && d.Id() !in ids && d.Id() in known
  }

  /** Some dependency of `m` asks for the mod `x`. */
  predicate WantedBy(m: ModUnit, x: Id, ids: set<Id>, known: set<Id>, eval: Eval) {
    exists k :: 0 <= k < |m.metadata.dependencies| && Wanted(m.metadata.dependencies[k], ids, known, eval)
      && m.metadata.dependencies[k].Id() == x
  }

  /** Over one mod's dependencies, only active ids are banned and exactly the wanted ones are recorded missing. */
  lemma {:induction false} ScanDepsSpec(st: Scan, deps: seq<Dependency>, j: nat, ids: set<Id>, known: set<Id>, eval: Eval)
    requires j <= |deps| && st.ban <= ids
    ensures var r := ScanDeps(st, deps, j, ids, known, eval);
      && r.ban <= ids
      && (forall x :: x in r.missing <==>
            (x in st.missing || exists k :: 0 <= k < j && Wanted(deps[k], ids, known, eval) && deps[k].Id() == x))
  {
    if j > 0 {
      ScanDepsSpec(st, deps, j - 1, ids, known, eval);
    }
  }

  /**
   * The scan bans only mods that are already active, so the ban never holds
   * a candidate back: the missing list names exactly the known inactive
   * mods that an applicable `requirement` or `patch` of an active mod asks for.
   */
  lemma {:induction false} ScanModsSpec(ms: seq<ModUnit>, i: nat, ids: set<Id>, known: set<Id>, eval: Eval)
    requires i <= |ms|
    ensures var r := ScanMods(ms, i, ids, known, eval);
      && r.ban <= ids
      && (forall x :: x in r.missing <==> exists k :: 0 <= k < i && WantedBy(ms[k], x, ids, known, eval))
  {
    if i > 0 {
      ScanModsSpec(ms, i - 1, ids, known, eval);
      var deps := ms[i - 1].metadata.dependencies;
      ScanDepsSpec(ScanMods(ms, i - 1, ids, known, eval), deps, |deps|, ids, known, eval);
    }
  }

  /** The inner loop of the scan, over one mod's dependencies. */
  method ScanModDeps(st: Scan, deps: seq<Dependency>, ids: set<Id>, known: set<Id>, eval: Eval) returns (r: Scan)
    ensures r == ScanDeps(st, deps, |deps|, ids, known, eval)
  {
    var ban, missing := st.ban, st.missing;
    for j := 0 to |deps|
      invariant Scan(ban, missing) == ScanDeps(st, deps, j, ids, known, eval)
    {
      var dep := deps[j];
      if dep.kind == "conflict" {
        if dep.Id() in ids {
          ban := ban + {dep.Id()};
        }
      } else if dep.kind == "requirement" || dep.kind == "patch" {
        if Truthy(dep.condition) && !eval(dep.condition.value, ids) {
          continue;
        }
        if dep.Id() !in ids && dep.Id() !in ban {
          if dep.Id() in known {
            missing := missing + [dep.Id()];
          }
        }
      }
    }
    r := Scan(ban, missing);
  }

  /** The scan loop of `sort` over the active mods. */
  method ScanLoop(ms: seq<ModUnit>, ids: set<Id>, known: set<Id>, eval: Eval) returns (r: Scan)
    ensures r == ScanMods(ms, |ms|, ids, known, eval)
  {
    r := Scan({}, []);
    for i := 0 to |ms|
      invariant r == ScanMods(ms, i, ids, known, eval)
    {
      r := ScanModDeps(r, ms[i].metadata.dependencies, ids, known, eval);
    }
  }

  // ----- auto-activation -----

  /** The activation pass over the first `i` candidates: each one not yet active and not banned is activated. */
  function ActivatePass(mods: map<Id, ModUnit>, active: seq<Id>, inactive: seq<Id>, ban: set<Id>,
                        missing: seq<Id>, i: nat): (r: (seq<Id>, seq<Id>))
    requires i <= |missing|
    ensures forall x :: x in r.0 ==> x in active || x in mods
  {
    if i == 0 then (active, inactive)
    else
      var (a, rest) := ActivatePass(mods, active, inactive, ban, missing, i - 1);
      var x := missing[i - 1];
      if x !in a && x !in ban then
        var r := ModLists.Activate(mods, a, rest, x);
        (r.1, r.2)
      else (a, rest)
  }

  /** After activating the candidates `seen`: both lists still hold each mod once, and only `seen` moved. */
  ghost predicate Passed(active: seq<Id>, inactive: seq<Id>, a: seq<Id>, rest: seq<Id>, seen: seq<Id>) {
    && LoadOrder.NoDup(a + rest)
    && multiset(a + rest) == multiset(active + inactive)
    && |active| <= |a| && a[..|active|] == active
    && (forall x :: x in a <==> x in active || x in seen)
    && (forall x :: x in rest <==> x in inactive && x !in seen)
  }

  /** One candidate of the pass. */
  lemma PassStep(mods: map<Id, ModUnit>, active: seq<Id>, inactive: seq<Id>, a: seq<Id>, rest: seq<Id>,
                 seen: seq<Id>, x: Id, ban: set<Id>)
    requires Passed(active, inactive, a, rest, seen)
    requires x in mods && x !in active && x in inactive && forall y :: y in ban ==> y in active
    ensures var r := ModLists.Activate(mods, a, rest, x);
      Passed(active, inactive, if x !in a && x !in ban then r.1 else a, if x !in a && x !in ban then r.2 else rest, seen + [x])
  {
    if x !in a {
      assert x in rest;
      ModLists.ActivateMoves(mods, a, rest, x);
      var r := ModLists.Activate(mods, a, rest, x);
      assert r.1 == a + [x];
      assert (a + [x])[..|active|] == a[..|active|];
    } else {
      ModLists.NoDupSplit(a, rest);
    }
  }

  /** `PassStep` for the `i`-th candidate of the list. */
  lemma PassStepAt(mods: map<Id, ModUnit>, active: seq<Id>, inactive: seq<Id>, a: seq<Id>, rest: seq<Id>,
                   missing: seq<Id>, i: nat, ban: set<Id>)
    requires 0 < i <= |missing| && Passed(active, inactive, a, rest, missing[..i - 1])
    requires missing[i - 1] in mods && missing[i - 1] !in active && missing[i - 1] in inactive
    requires forall y :: y in ban ==> y in active
    ensures var x := missing[i - 1];
      var r := ModLists.Activate(mods, a, rest, x);
      Passed(active, inactive, if x !in a && x !in ban then r.1 else a, if x !in a && x !in ban then r.2 else rest, missing[..i])
  {
    assert missing[..i] == missing[..i - 1] + [missing[i - 1]];
    PassStep(mods, active, inactive, a, rest, missing[..i - 1], missing[i - 1], ban);
  }

  /**
   * With every registered mod on one of the lists, every candidate
   * registered and inactive, and the ban within the active list, the pass
   * appends every candidate to the active list once and takes it off the
   * inactive one; nothing else moves.
   */
  lemma {:induction false} ActivatePassSpec(mods: map<Id, ModUnit>, active: seq<Id>, inactive: seq<Id>, ban: set<Id>,
                                            missing: seq<Id>, i: nat)
    requires i <= |missing| && LoadOrder.NoDup(active + inactive)
    requires forall x :: x in missing ==> x in mods && x !in active && x in inactive
    requires forall x :: x in ban ==> x in active
    ensures var r := ActivatePass(mods, active, inactive, ban, missing, i); Passed(active, inactive, r.0, r.1, missing[..i])
  {
    if i == 0 {
      assert missing[..0] == [];
      assert active[..|active|] == active;
    } else {
      ActivatePassSpec(mods, active, inactive, ban, missing, i - 1);
      var r := ActivatePass(mods, active, inactive, ban, missing, i - 1);
      assert missing[i - 1] in missing;
      PassStepAt(mods, active, inactive, r.0, r.1, missing, i, ban);
    }
  }

  // ----- the parents of each mod -----

  /** `added_ids` after the first `i` mods: each added id to the first mod adding it. */
  function AddedOf(ms: seq<ModUnit>, i: nat): map<string, Id>
    requires i <= |ms|
  {
    if i == 0 then map[]
    else
      var a := AddedOf(ms, i - 1);
      var m := ms[i - 1];
      a + map x | x in m.addId && x !in a :: m.Id()
  }

  /** Every added id maps to the first of the mods that adds it. */
  lemma {:induction false} AddedFirstAdder(ms: seq<ModUnit>, i: nat)
    requires i <= |ms|
    ensures forall x :: x in AddedOf(ms, i) ==>
      exists k :: 0 <= k < i && x in ms[k].addId && AddedOf(ms, i)[x] == ms[k].Id()
    ensures forall x, k ::
      0 <= k < i && x in ms[k].addId && (forall j :: 0 <= j < k ==> x !in ms[j].addId) ==>
      x in AddedOf(ms, i) && AddedOf(ms, i)[x] == ms[k].Id()
  {
    if i > 0 {
      AddedFirstAdder(ms, i - 1);
    }
  }

  /** `a` is `added` with the ids of `xs` not yet there mapped to `id`. */
  ghost predicate AddedTo(a: map<string, Id>, added: map<string, Id>, id: Id, xs: set<string>) {
    && a.Keys == added.Keys + xs
    && forall x :: x in a ==> a[x] == if x in added then added[x] else id
  }

  lemma AddedToIsUnion(a: map<string, Id>, added: map<string, Id>, m: ModUnit)
    requires AddedTo(a, added, m.Id(), m.addId)
    ensures a == added + map x | x in m.addId && x !in added :: m.Id()
  {
    var expected := added + map x | x in m.addId && x !in added :: m.Id();
    assert a.Keys == expected.Keys;
  }

  /** The inner loop of `added_ids` for one mod. */
  method AddMod(added: map<string, Id>, m: ModUnit, xs: seq<string>) returns (a: map<string, Id>)
    requires LoadOrder.Enumerates(xs, m.addId)
    ensures a == added + map x | x in m.addId && x !in added :: m.Id()
  {
    a := added;
    for j := 0 to |xs|
      invariant AddedTo(a, added, m.Id(), set x | x in xs[..j])
    {
      assert forall x :: x in xs[..j + 1] <==> x in xs[..j] || x == xs[j];
      if xs[j] !in a {
        a := a[xs[j] := m.Id()];
      }
    }
    assert xs[..|xs|] == xs;
    assert (set x | x in xs) == m.addId;
    AddedToIsUnion(a, added, m);
  }

  /** The loop building `added_ids`. */
  method AddedLoop(ms: seq<ModUnit>, order: set<string> -> seq<string>) returns (added: map<string, Id>)
    requires forall s :: LoadOrder.Enumerates(order(s), s)
    ensures added == AddedOf(ms, |ms|)
  {
    added := map[];
    for i := 0 to |ms|
      invariant added == AddedOf(ms, i)
    {
      added := AddMod(added, ms[i], order(ms[i].addId));
    }
  }

  /** A dependency that becomes a hard edge: an ordering kind on an active mod, with its condition applying. */
  predicate HardEdge(d: Dependency, ids: set<Id>, eval: Eval) {
    d.Id() in ids && d.kind != "conflict" && Issues.Applies(d, ids, eval) && Orders(d.kind)
  }

  /** The hard parents from the first `j` dependencies. */
  function HardParents(deps: seq<Dependency>, j: nat, ids: set<Id>, eval: Eval): set<Id>
    requires j <= |deps|
  {
    if j == 0 then {}
    else HardParents(deps, j - 1, ids, eval) + (if HardEdge(deps[j - 1], ids, eval) then {deps[j - 1].Id()} else {})
  }

  lemma {:induction false} HardParentsSpec(deps: seq<Dependency>, j: nat, ids: set<Id>, eval: Eval)
    requires j <= |deps|
    ensures forall p :: p in HardParents(deps, j, ids, eval) <==>
      exists k :: 0 <= k < j && HardEdge(deps[k], ids, eval) && deps[k].Id() == p
  {
    if j > 0 {
      HardParentsSpec(deps, j - 1, ids, eval);
    }
  }

  /** A name that marks a mod as a patch. */
  const PatchWord: string := "patch"
  const CompatibilityWord: string := "compatibility"
  const CompatWord: string := "compat"
  const IgnoreOverride: string := "IgnoreOverrideCheck"

  predicate PotentialPatch(lowerName: string) {
    Contains(lowerName, PatchWord) || Contains(lowerName, CompatibilityWord) || Contains(lowerName, CompatWord)
  }

  /** `other_name in mod_name_lower` for another mod with a name longer than three characters. */
  predicate NamePatches(m: ModUnit, other: ModUnit) {
    other.Id() != m.Id() && |Lower(other.name)| > 3 && Contains(Lower(m.name), Lower(other.name))
  }

  /** The name-matched parents among the first `j` mods. */
  function NameParents(m: ModUnit, ms: seq<ModUnit>, j: nat): set<Id>
    requires j <= |ms|
  {
    if j == 0 then {}
    else NameParents(m, ms, j - 1) + (if NamePatches(m, ms[j - 1]) then {ms[j - 1].Id()} else {})
  }

  lemma {:induction false} NameParentsSpec(m: ModUnit, ms: seq<ModUnit>, j: nat)
    requires j <= |ms|
    ensures forall p :: p in NameParents(m, ms, j) <==> exists k :: 0 <= k < j && NamePatches(m, ms[k]) && ms[k].Id() == p
  {
    if j > 0 {
      NameParentsSpec(m, ms, j - 1);
    }
  }

  /** The first adders, other than `id` itself, of the first `j` overridden ids. */
  function OverrideParents(id: Id, added: map<string, Id>, overs: seq<string>, j: nat): set<Id>
    requires j <= |overs|
  {
    if j == 0 then {}
    else
      var o := overs[j - 1];
      OverrideParents(id, added, overs, j - 1) + (if o in added && added[o] != id then {added[o]} else {})
  }

  lemma {:induction false} OverrideParentsSpec(id: Id, added: map<string, Id>, overs: seq<string>, j: nat)
    requires j <= |overs|
    ensures forall p :: p in OverrideParents(id, added, overs, j) <==>
      exists k :: 0 <= k < j && overs[k] in added && added[overs[k]] != id && added[overs[k]] == p
  {
    if j > 0 {
      OverrideParentsSpec(id, added, overs, j - 1);
    }
  }

  /** The name-matched parents, for a mod whose name marks it as a patch. */
  function NamePart(m: ModUnit, ms: seq<ModUnit>): set<Id> {
    if PotentialPatch(Lower(m.name)) then NameParents(m, ms, |ms|) else {}
  }

  /** The override parents, unless the mod's `IgnoreOverrideCheck` setting is on. */
  function OverridePart(m: ModUnit, added: map<string, Id>, overs: seq<string>): set<Id> {
    if !Package.GetBoolSetting(m, IgnoreOverride) then OverrideParents(m.Id(), added, overs, |overs|) else {}
  }

  /** All the parents `sort` gives one mod. */
  function ParentsOf(m: ModUnit, ms: seq<ModUnit>, ids: set<Id>, added: map<string, Id>, eval: Eval,
                     overs: seq<string>): set<Id>
  {
    HardParents(m.metadata.dependencies, |m.metadata.dependencies|, ids, eval) + NamePart(m, ms) + OverridePart(m, added, overs)
  }

  /** A mod's parents are active when the mods and the first adders are. */
  lemma ParentsWithin(m: ModUnit, ms: seq<ModUnit>, ids: set<Id>, added: map<string, Id>, eval: Eval, overs: seq<string>)
    requires (forall k :: 0 <= k < |ms| ==> ms[k].Id() in ids) && (forall o :: o in added ==> added[o] in ids)
    ensures ParentsOf(m, ms, ids, added, eval, overs) <= ids
  {
    HardParentsSpec(m.metadata.dependencies, |m.metadata.dependencies|, ids, eval);
    NameParentsSpec(m, ms, |ms|);
    OverrideParentsSpec(m.Id(), added, overs, |overs|);
  }

  /** The ids of `ms`, in order. */
  function IdsOf(ms: seq<ModUnit>): (r: seq<Id>)
    ensures |r| == |ms| && forall k :: 0 <= k < |ms| ==> r[k] == ms[k].Id()
  {
    seq(|ms|, k requires 0 <= k < |ms| => ms[k].Id())
  }

  /** The parents `sort` computes for each of `ms`, in order. */
  function ParentSets(ms: seq<ModUnit>, ids: set<Id>, added: map<string, Id>, eval: Eval,
                      order: set<string> -> seq<string>): (r: seq<set<Id>>)
    ensures |r| == |ms|
  {
    seq(|ms|, k requires 0 <= k < |ms| => ParentsOf(ms[k], ms, ids, added, eval, order(ms[k].overrideId)))
  }

  /** The hard parents of each of `ms`, in order. */
  function HardSets(ms: seq<ModUnit>, ids: set<Id>, eval: Eval): (r: seq<set<Id>>)
    ensures |r| == |ms|
  {
    seq(|ms|, k requires 0 <= k < |ms| => HardParents(ms[k].metadata.dependencies, |ms[k].metadata.dependencies|, ids, eval))
  }

  /** One mod's entry: its parents `p` join those already recorded for `v`, if there are any. */
  function EdgeStep(d: LoadOrder.Deps, v: Id, p: set<Id>): LoadOrder.Deps {
    if p == {} then d else d[v := LoadOrder.Parents(d, v) + p]
  }

  /** A `defaultdict(set)` after the first `i` entries: mod `vs[k]` gets parents `ps[k]`, none when that is empty. */
  function EdgesBy(vs: seq<Id>, ps: seq<set<Id>>, i: nat): LoadOrder.Deps
    requires i <= |vs| && i <= |ps|
  {
    if i == 0 then map[] else EdgeStep(EdgesBy(vs, ps, i - 1), vs[i - 1], ps[i - 1])
  }

  /** The hard-edge set after the first `i` entries: a pair (`vs[k]`, parent) per parent in `hs[k]`. */
  function HardBy(vs: seq<Id>, hs: seq<set<Id>>, i: nat): set<(Id, Id)>
    requires i <= |vs| && i <= |hs|
  {
    if i == 0 then {} else HardBy(vs, hs, i - 1) + Pairs(vs[i - 1], hs[i - 1])
  }

  /** The pairs (`v`, parent) for the parents `h` of `v`. */
  function Pairs(v: Id, h: set<Id>): (r: set<(Id, Id)>)
    ensures forall w, p :: (w, p) in r <==> w == v && p in h
  {
    set p | p in h :: (v, p)
  }

  /** `dependencies` after the edge loop (a `defaultdict(set)`: a mod with no parents gets no entry). */
  function EdgesOf(ms: seq<ModUnit>, ids: set<Id>, added: map<string, Id>, eval: Eval,
                   order: set<string> -> seq<string>): LoadOrder.Deps
  {
    EdgesBy(IdsOf(ms), ParentSets(ms, ids, added, eval, order), |ms|)
  }

  /** `hard_edges` after the edge loop. */
  function HardOf(ms: seq<ModUnit>, ids: set<Id>, eval: Eval): set<(Id, Id)> {
    HardBy(IdsOf(ms), HardSets(ms, ids, eval), |ms|)
  }

  /** The parents of `w` after one entry. */
  lemma EdgeStepParents(d: LoadOrder.Deps, v: Id, p: set<Id>, w: Id)
    ensures LoadOrder.Parents(EdgeStep(d, v, p), w) == if w == v then LoadOrder.Parents(d, v) + p else LoadOrder.Parents(d, w)
  {
  }

  /** Keys and parents stay within `ids` when every entry's id and parents do. */
  lemma {:induction false} EdgesByClosed(vs: seq<Id>, ps: seq<set<Id>>, i: nat, ids: set<Id>)
    requires i <= |vs| && i <= |ps|
    requires forall k :: 0 <= k < i ==> vs[k] in ids && ps[k] <= ids
    ensures forall v :: v in EdgesBy(vs, ps, i) ==> v in ids
    ensures forall v, p :: p in LoadOrder.Parents(EdgesBy(vs, ps, i), v) ==> p in ids
  {
    if i > 0 {
      EdgesByClosed(vs, ps, i - 1, ids);
      var d, w, p := EdgesBy(vs, ps, i - 1), vs[i - 1], ps[i - 1];
      var d' := EdgeStep(d, w, p);
      forall v, q | q in LoadOrder.Parents(d', v) ensures q in ids {
        EdgeStepParents(d, w, p, v);
      }
    }
  }

  /** With distinct ids, each entry's parents are exactly its own set. */
  lemma {:induction false} EdgesByParents(vs: seq<Id>, ps: seq<set<Id>>, i: nat, k: nat)
    requires i <= |vs| && i <= |ps| && k < |vs|
    requires forall a, b :: 0 <= a < b < |vs| ==> vs[a] != vs[b]
    ensures LoadOrder.Parents(EdgesBy(vs, ps, i), vs[k]) == if k < i then ps[k] else {}
  {
    if i > 0 {
      EdgesByParents(vs, ps, i - 1, k);
      EdgeStepParents(EdgesBy(vs, ps, i - 1), vs[i - 1], ps[i - 1], vs[k]);
      if k != i - 1 {
        assert vs[k] != vs[i - 1];
      }
    }
  }

  /** Every hard pair is a parent edge when each hard set lies within its parent set. */
  lemma {:induction false} HardByInParents(vs: seq<Id>, hs: seq<set<Id>>, ps: seq<set<Id>>, i: nat)
    requires i <= |vs| && i <= |hs| && i <= |ps|
    requires forall k :: 0 <= k < i ==> hs[k] <= ps[k]
    ensures forall v, p :: (v, p) in HardBy(vs, hs, i) ==> p in LoadOrder.Parents(EdgesBy(vs, ps, i), v)
  {
    if i > 0 {
      HardByInParents(vs, hs, ps, i - 1);
      var d, w, q := EdgesBy(vs, ps, i - 1), vs[i - 1], ps[i - 1];
      var d' := EdgeStep(d, w, q);
      forall v, p | (v, p) in HardBy(vs, hs, i) ensures p in LoadOrder.Parents(d', v) {
        EdgeStepParents(d, w, q, v);
      }
    }
  }

  /** Parents only reach mods of `ids` when the added ids name mods of `ids`, so the graph is closed. */
  lemma EdgesClosed(ms: seq<ModUnit>, ids: set<Id>, added: map<string, Id>, eval: Eval, order: set<string> -> seq<string>)
    requires (forall k :: 0 <= k < |ms| ==> ms[k].Id() in ids) && (forall o :: o in added ==> added[o] in ids)
    ensures forall v :: v in EdgesOf(ms, ids, added, eval, order) ==> v in ids
    ensures forall v, p :: p in LoadOrder.Parents(EdgesOf(ms, ids, added, eval, order), v) ==> p in ids
  {
    var vs, ps := IdsOf(ms), ParentSets(ms, ids, added, eval, order);
    forall k | 0 <= k < |ms| ensures ps[k] <= ids {
      ParentsWithin(ms[k], ms, ids, added, eval, order(ms[k].overrideId));
    }
    EdgesByClosed(vs, ps, |ms|, ids);
  }

  /** Every hard edge is among the parents. */
  lemma HardInParents(ms: seq<ModUnit>, ids: set<Id>, added: map<string, Id>, eval: Eval, order: set<string> -> seq<string>)
    ensures forall v, p :: (v, p) in HardOf(ms, ids, eval) ==> p in LoadOrder.Parents(EdgesOf(ms, ids, added, eval, order), v)
  {
    var hs, ps := HardSets(ms, ids, eval), ParentSets(ms, ids, added, eval, order);
    forall k | 0 <= k < |ms| ensures hs[k] <= ps[k] {
      assert ps[k] == ParentsOf(ms[k], ms, ids, added, eval, order(ms[k].overrideId));
    }
    HardByInParents(IdsOf(ms), hs, ps, |ms|);
  }

  /** With distinct ids, a mod's parent set is exactly the one computed for it. */
  lemma EdgesOfMod(ms: seq<ModUnit>, ids: set<Id>, added: map<string, Id>, eval: Eval, order: set<string> -> seq<string>, k: nat)
    requires k < |ms|
    requires forall a, b :: 0 <= a < b < |ms| ==> ms[a].Id() != ms[b].Id()
    ensures LoadOrder.Parents(EdgesOf(ms, ids, added, eval, order), ms[k].Id())
      == ParentsOf(ms[k], ms, ids, added, eval, order(ms[k].overrideId))
  {
    var vs, ps := IdsOf(ms), ParentSets(ms, ids, added, eval, order);
    EdgesByParents(vs, ps, |ms|, k);
  }

  // ----- the loops that build the parents -----

  /** The dependency loop for one mod: its hard parents. */
  method HardLoop(deps: seq<Dependency>, ids: set<Id>, eval: Eval) returns (ps: set<Id>)
    ensures ps == HardParents(deps, |deps|, ids, eval)
  {
    ps := {};
    for j := 0 to |deps|
      invariant ps == HardParents(deps, j, ids, eval)
    {
      var dep := deps[j];
      if dep.Id() !in ids {
        continue;
      }
      if dep.kind == "conflict" {
        continue;
      }
      if Truthy(dep.condition) && !eval(dep.condition.value, ids) {
        continue;
      }
      if dep.kind == "patch" || dep.kind == "requirement" {
        ps := ps + {dep.Id()};
      }
    }
  }

  /** The name-matching loop for one mod. */
  method NameLoop(m: ModUnit, ms: seq<ModUnit>) returns (ps: set<Id>)
    ensures ps == NameParents(m, ms, |ms|)
  {
    ps := {};
    var lowerName := Lower(m.name);
    for j := 0 to |ms|
      invariant ps == NameParents(m, ms, j)
    {
      if ms[j].Id() == m.Id() {
        continue;
      }
      var otherName := Lower(ms[j].name);
      if |otherName| > 3 && Contains(lowerName, otherName) {
        ps := ps + {ms[j].Id()};
      }
    }
  }

  /** The override loop for one mod. */
  method OverrideLoop(id: Id, added: map<string, Id>, overs: seq<string>) returns (ps: set<Id>)
    ensures ps == OverrideParents(id, added, overs, |overs|)
  {
    ps := {};
    for j := 0 to |overs|
      invariant ps == OverrideParents(id, added, overs, j)
    {
      var o := overs[j];
      if o in added {
        var adderId := added[o];
        if adderId != id {
          ps := ps + {adderId};
        }
      }
    }
  }

  /** The parent loops for one mod: its hard parents and all its parents. */
  method CollectParents(m: ModUnit, ms: seq<ModUnit>, ids: set<Id>, added: map<string, Id>, eval: Eval, overs: seq<string>)
    returns (hardPs: set<Id>, ps: set<Id>)
    ensures hardPs == HardParents(m.metadata.dependencies, |m.metadata.dependencies|, ids, eval)
    ensures ps == ParentsOf(m, ms, ids, added, eval, overs)
  {
    hardPs := HardLoop(m.metadata.dependencies, ids, eval);
    var namePs: set<Id> := {};
    if PotentialPatch(Lower(m.name)) {
      namePs := NameLoop(m, ms);
    }
    var overPs: set<Id> := {};
    if !Package.GetBoolSetting(m, IgnoreOverride) {
      overPs := OverrideLoop(m.Id(), added, overs);
    }
    ps := hardPs + namePs + overPs;
  }

  /** One pass of the edge loop: the `k`-th mod's hard edges and parents join those of the mods before it. */
  method RecordParents(deps: LoadOrder.Deps, hard: set<(Id, Id)>, ms: seq<ModUnit>, k: nat, ids: set<Id>,
                       added: map<string, Id>, eval: Eval, order: set<string> -> seq<string>)
    returns (deps': LoadOrder.Deps, hard': set<(Id, Id)>)
    requires k < |ms|
    requires deps == EdgesBy(IdsOf(ms), ParentSets(ms, ids, added, eval, order), k)
    requires hard == HardBy(IdsOf(ms), HardSets(ms, ids, eval), k)
    ensures deps' == EdgesBy(IdsOf(ms), ParentSets(ms, ids, added, eval, order), k + 1)
    ensures hard' == HardBy(IdsOf(ms), HardSets(ms, ids, eval), k + 1)
  {
    var m := ms[k];
    var hardPs, ps := CollectParents(m, ms, ids, added, eval, order(m.overrideId));
    hard' := hard + Pairs(m.Id(), hardPs);
    deps' := deps;
    if ps != {} {
      deps' := deps[m.Id() := LoadOrder.Parents(deps, m.Id()) + ps];
    }
  }

  /** The edge loop of `sort`: the parent sets and the hard edges of all active mods. */
  method EdgesLoop(ms: seq<ModUnit>, ids: set<Id>, added: map<string, Id>, eval: Eval, order: set<string> -> seq<string>)
    returns (deps: LoadOrder.Deps, hard: set<(Id, Id)>)
    ensures deps == EdgesOf(ms, ids, added, eval, order)
    ensures hard == HardOf(ms, ids, eval)
  {
    ghost var vs, ps, hs := IdsOf(ms), ParentSets(ms, ids, added, eval, order), HardSets(ms, ids, eval);
    deps, hard := map[], {};
    for i := 0 to |ms|
      invariant deps == EdgesBy(vs, ps, i) && hard == HardBy(vs, hs, i)
    {
      deps, hard := RecordParents(deps, hard, ms, i, ids, added, eval, order);
    }
  }
}
