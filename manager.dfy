/**
 * `ModManager`: the registry of installed mods (`_mod_map`, keyed by id, in
 * insertion order), the active list in load order and the inactive list,
 * and the operations that fill, rearrange and sort them.
 *
 * The manager's state lives in class attributes in the source; here it is
 * one object.  Reading the game folder, the configuration file and the
 * preset files happens outside: the operations take the parsed documents
 * (`None` for a file that is missing or does not load) and the list of
 * mods the folder scan parsed.  `process_condition`, the iteration order
 * of Python sets and the per-mod metadata reload are parameters.
 */
module Manager {
  import opened Wrappers
  import opened Xml
  import Package
  import LoadOrder
  import opened ModLists
  import Loading
  import Dedup
  import Presets
  import Issues
  import Sorting
  import Cache
  import IdParser
  import Parts

  type Eval = Issues.Eval

  /** The members of a list, as a set. */
  function SetOf(xs: seq<Id>): set<Id> {
    set x | x in xs
  }

  /**
   * The manager's invariant: a well-formed registry whose mods the two
   * lists hold, together, exactly once each.
   */
  ghost predicate Consistent(keys: seq<Id>, mods: map<Id, ModUnit>, active: seq<Id>, inactive: seq<Id>) {
    && Registry(keys, mods) && multiset(active + inactive) == multiset(keys)
    && (forall x :: x in active ==> x in mods) && (forall x :: x in inactive ==> x in mods)
  }

  /** Lists that hold the registry's keys as a multiset hold only registered mods. */
  lemma ConsistentOf(keys: seq<Id>, mods: map<Id, ModUnit>, active: seq<Id>, inactive: seq<Id>)
    requires Registry(keys, mods) && multiset(active + inactive) == multiset(keys)
    ensures Consistent(keys, mods, active, inactive)
  {
    forall x | x in active + inactive ensures x in mods {
      assert x in multiset(active + inactive);
      assert x in multiset(keys);
    }
  }

  /** The lists of a consistent state have no repeats, share nothing, and hold exactly the registered mods. */
  lemma ConsistentLists(keys: seq<Id>, mods: map<Id, ModUnit>, active: seq<Id>, inactive: seq<Id>)
    requires Consistent(keys, mods, active, inactive)
    ensures LoadOrder.NoDup(active + inactive) && LoadOrder.NoDup(active) && LoadOrder.NoDup(inactive)
    ensures forall x :: x in active ==> x !in inactive
    ensures forall x :: x in active + inactive <==> x in mods
  {
    PermNoDup(keys, active + inactive);
    NoDupSplit(active, inactive);
    assert forall x :: x in active + inactive <==> x in multiset(keys);
  }

  // ----- loading -----

  /** `_get_active_mod_configs` on the parsed configuration, `None` when it is missing or does not load. */
  function ConfigsFrom(doc: Option<Node>): map<string, nat> {
    if doc.None? then map[]
    else
      var pkgs := FindElements(doc.value, "package");
      Loading.ConfigsOf(Loading.PackageIds(pkgs), |pkgs|)
  }

  /** The sort key of `load_mods` over a registry. */
  function KeyIn(mods: map<Id, ModUnit>): Id -> int {
    id => Loading.LoadKey(mods, id)
  }

  /**
   * The body of `load_mods` once the game folder is found: the registry
   * rebuilt from the deduplicated mods, then split by the configuration.
   */
  method LoadState(config: Option<Node>, loaded: seq<ModUnit>)
    returns (keys: seq<Id>, mods: map<Id, ModUnit>, active: seq<Id>, inactive: seq<Id>)
    ensures Consistent(keys, mods, active, inactive)
    ensures var unique := Dedup.Deduped(loaded);
      var reg := Loading.RegistryOf(unique, |unique|);
      var configs := ConfigsFrom(config);
      && keys == Dedup.FirstSeen(Loading.Ids(unique))
      && mods.Keys == reg.Keys
      && (forall k :: k in reg ==> mods[k] == if k in configs then Loading.Stamped(reg[k], configs[k]) else reg[k])
      && active == Loading.SortByKey(KeyIn(mods), LoadOrder.Filter(keys, configs.Keys))
      && inactive == LoadOrder.Filter(keys, Loading.Unlisted(keys, configs))
  {
    var configs := Loading.ActiveModConfigs(config);
    var unique := Dedup.Dedup(loaded);
    var reg;
    keys, reg := Loading.Register(unique);
    Loading.RegisterWellFormed(unique);
    var a;
    a, inactive, mods := Loading.SplitByConfig(keys, reg, configs);
    active := Loading.SortByKey(KeyIn(mods), a);
    FilterPartition(keys, configs.Keys, Loading.Unlisted(keys, configs));
    assert multiset(active + inactive) == multiset(active) + multiset(inactive);
    ConsistentOf(keys, mods, active, inactive);
  }

  /**
   * `_parse_mod_safe` for one mod folder: nothing without a `filelist.xml`;
   * the cached mod while its fingerprint still matches; otherwise a fresh
   * build, which is cached when it yields a mod.  The folder's files are
   * `fs`; `filelist`, `hasLua`, `hasCs`, `files` and `metaDocFor` are what
   * the build reads from them.
   */
  method ParseModSafe(cache: Cache.CacheManager, hasFilelist: bool, path: Package.ModPath, filelist: Option<Node>,
                      hasLua: bool, hasCs: bool, files: seq<Package.XmlFile>, metaDocFor: string -> Option<Node>,
                      extractor: IdParser.IdExtractor, resolve: string -> string, fs: Cache.Files,
                      md5: seq<Cache.Byte> -> string)
    returns (r: Option<ModUnit>)
    modifies cache, extractor
    ensures cache.cacheFile == old(cache.cacheFile)
    ensures !hasFilelist ==> r.None? && cache.data == old(cache.data) && cache.dirty == old(cache.dirty)
    ensures hasFilelist ==>
      var cached := Cache.Lookup(old(cache.data), resolve(path.text), md5(Cache.HashInput(fs, path.text)));
      && (cached.Some? ==> r == cached && cache.data == old(cache.data) && cache.dirty == old(cache.dirty))
      && (cached.None? ==> r == Package.BuildSpec(path, filelist, hasLua, hasCs, files, metaDocFor))
      && (cached.None? && r.None? ==> cache.data == old(cache.data) && cache.dirty == old(cache.dirty))
      && (cached.None? && r.Some? ==> cache.dirty)
      && (cached.None? && r.Some? ==>
            cache.data == old(cache.data)[resolve(r.value.path.text) := (md5(Cache.HashInput(fs, r.value.path.text)), r.value)])
  {
    if !hasFilelist {
      return None;
    }
    var cached := cache.GetCachedMod(path.text, resolve, fs, md5);
    if cached.Some? {
      return cached;
    }
    r := Package.Build(path, filelist, hasLua, hasCs, files, metaDocFor, extractor);
    cache.UpdateCache(r, resolve, fs, md5);
  }

  // ----- presets -----

  /** The registered mods a preset leaves out. */
  function Unselected(keys: seq<Id>, active: seq<Id>): set<Id> {
    set k | k in keys && k !in active
  }

  /**
   * The body of `load_preset` once the preset is read: its entries select
   * the active list, every other registered mod is inactive in registry
   * order, and the active mods are numbered from 1.
   */
  method ApplyPreset(keys: seq<Id>, mods: map<Id, ModUnit>, doc: Node)
    returns (active: seq<Id>, inactive: seq<Id>, mods': map<Id, ModUnit>, missing: seq<Option<string>>)
    requires Registry(keys, mods)
    ensures Consistent(keys, mods', active, inactive)
    ensures var nodes := NonCommentChildren(doc);
      var sel := Presets.PresetFold(nodes, |nodes|, keys, mods, Presets.LocalsByName(keys, mods, |keys|));
      && active == sel.0 && missing == sel.1
      && inactive == LoadOrder.Filter(keys, Unselected(keys, sel.0))
      && Numbered(mods, active, mods')
  {
    Presets.LocalsByNameSpec(keys, mods, |keys|);
    var locals := Presets.LocalsByName(keys, mods, |keys|);
    active, missing := Presets.SelectPreset(NonCommentChildren(doc), keys, mods, locals);
    var rest := Unselected(keys, active);
    inactive := LoadOrder.Filter(keys, rest);
    mods' := NumberLoadOrder(mods, active);
    NumberedKeepsRegistry(keys, mods, active, mods');
    LoadOrder.FilterNoDup(keys, SetOf(active));
    SameMembers(active, LoadOrder.Filter(keys, SetOf(active)));
    FilterPartition(keys, SetOf(active), rest);
    assert multiset(active + inactive) == multiset(active) + multiset(inactive);
    ConsistentOf(keys, mods', active, inactive);
  }

  // ----- numbering -----

  /** The registry with the mods of `active` numbered by their first position, counted from 1. */
  function NumberedMap(mods: map<Id, ModUnit>, active: seq<Id>): (r: map<Id, ModUnit>)
    requires forall x :: x in active ==> x in mods
    ensures r.Keys == mods.Keys
  {
    map k | k in mods :: if k in active then mods[k].(loadOrder := Some(IndexOf(active, k) + 1)) else mods[k]
  }

  /** A numbering of a list without repeats is the one `NumberedMap` gives. */
  lemma NumberedIs(mods: map<Id, ModUnit>, active: seq<Id>, mods': map<Id, ModUnit>)
    requires LoadOrder.NoDup(active) && forall x :: x in active ==> x in mods
    ensures Numbered(mods, active, mods') <==> mods' == NumberedMap(mods, active)
  {
    var n := NumberedMap(mods, active);
    forall k | 0 <= k < |active| ensures n[active[k]] == mods[active[k]].(loadOrder := Some(k + 1)) {
      assert IndexOf(active, active[k]) == k;
    }
    if Numbered(mods, active, mods') {
      forall x | x in mods ensures mods'[x] == n[x] {
        if x in active {
          assert active[IndexOf(active, x)] == x;
        }
      }
    }
  }

  // ----- process_errors -----

  /**
   * The registry after `process_errors` over `active`: each active mod
   * checked against the active ids and the first overrider of each id,
   * every other mod untouched.
   */
  ghost predicate ErrorsChecked(mods: map<Id, ModUnit>, active: seq<Id>, mods': map<Id, ModUnit>, eval: Eval,
                                metaDocFor: string -> Option<Node>, order: set<string> -> seq<string>)
    requires forall x :: x in active ==> x in mods
  {
    var bind := Issues.BindOf(Sorting.ModsOf(mods, active), |active|);
    && mods'.Keys == mods.Keys
    && (forall x :: x in active ==>
          mods'[x] == Issues.Checked(mods[x], SetOf(active), bind, eval, metaDocFor, order(mods[x].overrideId)))
    && (forall x :: x in mods && x !in active ==> mods'[x] == mods[x])
  }

  /** `m` with the keys `ks[..i]`, in turn, given their values in `vals`. */
  function Overlay<K(==), V>(m: map<K, V>, ks: seq<K>, i: nat, vals: map<K, V>): map<K, V>
    requires i <= |ks| && forall k :: k in ks ==> k in vals
  {
    if i == 0 then m else Overlay(m, ks, i - 1, vals)[ks[i - 1] := vals[ks[i - 1]]]
  }

  lemma {:induction false} OverlayKeys<K, V>(m: map<K, V>, ks: seq<K>, i: nat, vals: map<K, V>)
    requires i <= |ks| && forall k :: k in ks ==> k in vals && k in m
    ensures Overlay(m, ks, i, vals).Keys == m.Keys
  {
    if i > 0 {
      OverlayKeys(m, ks, i - 1, vals);
    }
  }

  lemma {:induction false} OverlayAt<K, V>(m: map<K, V>, ks: seq<K>, i: nat, vals: map<K, V>, x: K)
    requires i <= |ks| && (forall k :: k in ks ==> k in vals && k in m) && x in m
    ensures x in Overlay(m, ks, i, vals)
    ensures Overlay(m, ks, i, vals)[x] == if x in ks[..i] then vals[x] else m[x]
  {
    OverlayKeys(m, ks, i, vals);
    if i > 0 {
      OverlayAt(m, ks, i - 1, vals, x);
      assert ks[..i] == ks[..i - 1] + [ks[i - 1]];
    }
  }

  /** Writing the values of `ks` over `m` one key at a time. */
  lemma OverlayAll<K, V>(m: map<K, V>, ks: seq<K>, vals: map<K, V>)
    requires forall k :: k in ks ==> k in vals && k in m
    ensures Overlay(m, ks, |ks|, vals).Keys == m.Keys
    ensures forall x :: x in ks ==> Overlay(m, ks, |ks|, vals)[x] == vals[x]
    ensures forall x :: x in m && x !in ks ==> Overlay(m, ks, |ks|, vals)[x] == m[x]
  {
    OverlayKeys(m, ks, |ks|, vals);
    assert ks[..|ks|] == ks;
    forall x | x in m {
      OverlayAt(m, ks, |ks|, vals, x);
    }
  }

  /** Each active mod as `process_errors` leaves it. */
  ghost function CheckedOf(mods: map<Id, ModUnit>, active: seq<Id>, bind: map<string, Issues.Binding>, eval: Eval,
                           metaDocFor: string -> Option<Node>, order: set<string> -> seq<string>): (r: map<Id, ModUnit>)
    requires forall x :: x in active ==> x in mods
    ensures r.Keys == SetOf(active)
  {
    map x | x in active :: Issues.Checked(mods[x], SetOf(active), bind, eval, metaDocFor, order(mods[x].overrideId))
  }

  /** The loops of `process_errors`: the first overrider of each id, then each active mod checked in turn. */
  method CheckAll(mods: map<Id, ModUnit>, active: seq<Id>, eval: Eval, metaDocFor: string -> Option<Node>,
                  order: set<string> -> seq<string>) returns (mods': map<Id, ModUnit>)
    requires LoadOrder.IsOrder(order) && LoadOrder.NoDup(active) && forall x :: x in active ==> x in mods
    ensures ErrorsChecked(mods, active, mods', eval, metaDocFor, order)
  {
    var ids := SetOf(active);
    var bind := Issues.BuildBind(Sorting.ModsOf(mods, active), order);
    ghost var vals := CheckedOf(mods, active, bind, eval, metaDocFor, order);
    mods' := mods;
    for i := 0 to |active|
      invariant mods' == Overlay(mods, active, i, vals)
    {
      var id := active[i];
      var checked := Issues.CheckMod(mods[id], ids, bind, eval, metaDocFor, order(mods[id].overrideId));
      mods' := mods'[id := checked];
    }
    OverlayAll(mods, active, vals);
  }

  /** Checking the active mods keeps every mod's id, so the registry stays well formed. */
  lemma ErrorsKeepRegistry(keys: seq<Id>, mods: map<Id, ModUnit>, active: seq<Id>, mods': map<Id, ModUnit>, eval: Eval,
                           metaDocFor: string -> Option<Node>, order: set<string> -> seq<string>)
    requires Registry(keys, mods) && forall x :: x in active ==> x in mods
    requires ErrorsChecked(mods, active, mods', eval, metaDocFor, order)
    ensures Registry(keys, mods')
  {
    var bind := Issues.BindOf(Sorting.ModsOf(mods, active), |active|);
    forall x | x in mods' ensures mods'[x].Id() == x {
      if x in active {
        Issues.CheckedKeeps(mods[x], SetOf(active), bind, eval, metaDocFor, order(mods[x].overrideId));
      }
    }
  }

  // ----- sort -----

  /** Some active mod has an applicable `requirement` or `patch` on the known, inactive mod `x`. */
  ghost predicate Requested(mods: map<Id, ModUnit>, active: seq<Id>, eval: Eval, x: Id)
    requires forall y :: y in active ==> y in mods
  {
    exists k :: 0 <= k < |active| && Sorting.WantedBy(mods[active[k]], x, SetOf(active), mods.Keys, eval)
  }

  /** The lists after `sort`'s scan and auto-activation pass. */
  function Activated(mods: map<Id, ModUnit>, active: seq<Id>, inactive: seq<Id>, eval: Eval): (r: (seq<Id>, seq<Id>))
    requires forall x :: x in active ==> x in mods
    ensures forall x :: x in r.0 ==> x in mods
  {
    var ms := Sorting.ModsOf(mods, active);
    var scan := Sorting.ScanMods(ms, |ms|, SetOf(active), mods.Keys, eval);
    Sorting.ActivatePass(mods, active, inactive, scan.ban, scan.missing, |scan.missing|)
  }

  /**
   * Auto-activation appends exactly the requested mods to the active list,
   * each once, and takes them off the inactive list; the mods already
   * active keep their places and nothing else moves.
   */
  lemma ActivatedSpec(mods: map<Id, ModUnit>, active: seq<Id>, inactive: seq<Id>, eval: Eval)
    requires LoadOrder.NoDup(active + inactive)
    requires forall x :: x in mods <==> x in active + inactive
    ensures var r := Activated(mods, active, inactive, eval);
      && LoadOrder.NoDup(r.0 + r.1)
      && multiset(r.0 + r.1) == multiset(active + inactive)
      && |active| <= |r.0| && r.0[..|active|] == active
      && (forall x :: x in r.0 <==> x in active || Requested(mods, active, eval, x))
      && (forall x :: x in r.1 <==> x in inactive && !Requested(mods, active, eval, x))
  {
    var ms := Sorting.ModsOf(mods, active);
    var ids := SetOf(active);
    var scan := Sorting.ScanMods(ms, |ms|, ids, mods.Keys, eval);
    Sorting.ScanModsSpec(ms, |ms|, ids, mods.Keys, eval);
    NoDupSplit(active, inactive);
    forall x | x in scan.missing ensures x in mods && x !in active && x in inactive {
      var k, j :| 0 <= k < |ms| && 0 <= j < |ms[k].metadata.dependencies|
        && Sorting.Wanted(ms[k].metadata.dependencies[j], ids, mods.Keys, eval) && ms[k].metadata.dependencies[j].Id() == x;
    }
    Sorting.ActivatePassSpec(mods, active, inactive, scan.ban, scan.missing, |scan.missing|);
    assert scan.missing[..|scan.missing|] == scan.missing;
    forall x ensures x in scan.missing <==> Requested(mods, active, eval, x) {
      if x in scan.missing {
        var k :| 0 <= k < |ms| && Sorting.WantedBy(ms[k], x, ids, mods.Keys, eval);
        assert ms[k] == mods[active[k]];
      }
      if Requested(mods, active, eval, x) {
        var k :| 0 <= k < |active| && Sorting.WantedBy(mods[active[k]], x, ids, mods.Keys, eval);
        assert ms[k] == mods[active[k]];
      }
    }
  }

  /** The auto-activation loop of `sort`: each candidate not yet active and not banned is activated. */
  method ActivateLoop(mods: map<Id, ModUnit>, active: seq<Id>, inactive: seq<Id>, ban: set<Id>, missing: seq<Id>)
    returns (a: seq<Id>, rest: seq<Id>)
    ensures (a, rest) == Sorting.ActivatePass(mods, active, inactive, ban, missing, |missing|)
  {
    a, rest := active, inactive;
    var activeIds := SetOf(active);
    for i := 0 to |missing|
      invariant (a, rest) == Sorting.ActivatePass(mods, active, inactive, ban, missing, i)
      invariant forall y :: y in activeIds <==> y in a
    {
      var x := missing[i];
      if x !in activeIds && x !in ban {
        var r := Activate(mods, a, rest, x);
        if r.0 {
          activeIds := activeIds + {x};
        }
        a, rest := r.1, r.2;
      }
    }
  }

  /** The scan and the activation pass of `sort`; the pass runs only when the scan found candidates. */
  method AutoActivated(keys: seq<Id>, mods: map<Id, ModUnit>, active: seq<Id>, inactive: seq<Id>, eval: Eval)
    returns (a: seq<Id>, rest: seq<Id>)
    requires Consistent(keys, mods, active, inactive)
    ensures Consistent(keys, mods, a, rest)
    ensures (a, rest) == Activated(mods, active, inactive, eval)
  {
    var scan := Sorting.ScanLoop(Sorting.ModsOf(mods, active), SetOf(active), mods.Keys, eval);
    if scan.missing == [] {
      return active, inactive;
    }
    ConsistentLists(keys, mods, active, inactive);
    ActivatedSpec(mods, active, inactive, eval);
    a, rest := ActivateLoop(mods, active, inactive, scan.ban, scan.missing);
    ConsistentOf(keys, mods, a, rest);
  }

  /** The graph `sort` orders: the active mods with the parents and hard edges of the edge loop. */
  function SortGraph(mods: map<Id, ModUnit>, active: seq<Id>, eval: Eval, order: set<string> -> seq<string>): LoadOrder.Graph
    requires forall x :: x in active ==> x in mods
  {
    var ms := Sorting.ModsOf(mods, active);
    var ids := SetOf(active);
    LoadOrder.Graph(active, Sorting.EdgesOf(ms, ids, Sorting.AddedOf(ms, |ms|), eval, order), Sorting.HardOf(ms, ids, eval))
  }

  /** The active mods, and the first adder of each added id, are among the active ids. */
  lemma ActiveWithin(mods: map<Id, ModUnit>, active: seq<Id>)
    requires forall x :: x in active ==> x in mods && mods[x].Id() == x
    ensures var ms := Sorting.ModsOf(mods, active);
      && (forall k :: 0 <= k < |ms| ==> ms[k].Id() in SetOf(active))
      && (forall o :: o in Sorting.AddedOf(ms, |ms|) ==> Sorting.AddedOf(ms, |ms|)[o] in SetOf(active))
  {
    var ms := Sorting.ModsOf(mods, active);
    var added := Sorting.AddedOf(ms, |ms|);
    Sorting.AddedFirstAdder(ms, |ms|);
    forall o | o in added ensures added[o] in SetOf(active) {
      var k :| 0 <= k < |ms| && o in ms[k].addId && added[o] == ms[k].Id();
      assert ms[k] == mods[active[k]];
    }
    forall k | 0 <= k < |ms| ensures ms[k].Id() in SetOf(active) {
      assert ms[k] == mods[active[k]];
    }
  }

  /** Every parent is an active mod, every hard edge is among the parents, and only active mods have parents. */
  lemma SortGraphClosed(mods: map<Id, ModUnit>, active: seq<Id>, eval: Eval, order: set<string> -> seq<string>)
    requires forall x :: x in active ==> x in mods && mods[x].Id() == x
    ensures var g := SortGraph(mods, active, eval, order);
      && LoadOrder.Closed(g)
      && (forall v, p :: (v, p) in g.hard ==> p in LoadOrder.Parents(g.deps, v))
      && (forall v :: v !in active ==> LoadOrder.Parents(g.deps, v) == {})
  {
    var ms := Sorting.ModsOf(mods, active);
    var ids := SetOf(active);
    var added := Sorting.AddedOf(ms, |ms|);
    ActiveWithin(mods, active);
    Sorting.EdgesClosed(ms, ids, added, eval, order);
    Sorting.HardInParents(ms, ids, added, eval, order);
  }

  /** With no repeats, each active mod's parents are exactly the ones the edge loop computes for it. */
  lemma SortGraphParents(mods: map<Id, ModUnit>, active: seq<Id>, eval: Eval, order: set<string> -> seq<string>, x: Id)
    requires LoadOrder.NoDup(active) && x in active
    requires forall y :: y in active ==> y in mods && mods[y].Id() == y
    ensures var ms := Sorting.ModsOf(mods, active);
      LoadOrder.Parents(SortGraph(mods, active, eval, order).deps, x)
      == Sorting.ParentsOf(mods[x], ms, SetOf(active), Sorting.AddedOf(ms, |ms|), eval, order(mods[x].overrideId))
  {
    var ms := Sorting.ModsOf(mods, active);
    var k :| 0 <= k < |active| && active[k] == x;
    assert ms[k] == mods[x];
    Sorting.EdgesOfMod(ms, SetOf(active), Sorting.AddedOf(ms, |ms|), eval, order, k);
  }

  /**
   * What the corrected ordering promises about the sorted list: without a
   * cycle no mod is forced and every mod follows all its parents; in any
   * case a mod that was not forced follows its hard parents.
   */
  lemma SortOrderSpec(mods: map<Id, ModUnit>, active: seq<Id>, eval: Eval, order: set<string> -> seq<string>)
    requires LoadOrder.IsOrder(order) && LoadOrder.NoDup(active)
    requires forall x :: x in active ==> x in mods && mods[x].Id() == x
    ensures var g := SortGraph(mods, active, eval, order);
      var st := LoadOrder.ResolveState(g, true, order);
      && (forall i, p :: 0 <= i < |st.sorted| && st.sorted[i] !in st.forced && (st.sorted[i], p) in g.hard
            ==> p in st.sorted[..i])
      && (LoadOrder.Acyclic(g) ==>
            && st.forced == {}
            && forall i, p :: 0 <= i < |st.sorted| && p in LoadOrder.Parents(g.deps, st.sorted[i]) ==> p in st.sorted[..i])
  {
    var g := SortGraph(mods, active, eval, order);
    SortGraphClosed(mods, active, eval, order);
    LoadOrder.FixedRespectsHard(g, order);
    if LoadOrder.Acyclic(g) {
      LoadOrder.AcyclicRespected(g, true, order);
    }
  }

  /** The edge loops and the corrected resolver of `sort`, over the active list after auto-activation. */
  method OrderMods(mods: map<Id, ModUnit>, active: seq<Id>, eval: Eval, order: set<string> -> seq<string>)
    returns (sorted: seq<Id>)
    requires LoadOrder.IsOrder(order) && forall x :: x in active ==> x in mods
    ensures sorted == LoadOrder.ResolveFixed(SortGraph(mods, active, eval, order), order)
    ensures LoadOrder.NoDup(sorted) && forall v :: v in sorted <==> v in active
  {
    var ids := SetOf(active);
    var ms := Sorting.ModsOf(mods, active);
    var added := Sorting.AddedLoop(ms, order);
    var deps, hard := Sorting.EdgesLoop(ms, ids, added, eval, order);
    sorted := LoadOrder.ResolveOrder(LoadOrder.Graph(active, deps, hard), true, order);
  }

  /** The ordering and numbering of `sort`: the ordered list replaces the active one, which keeps its members. */
  method Reorder(keys: seq<Id>, mods: map<Id, ModUnit>, active: seq<Id>, inactive: seq<Id>, eval: Eval,
                 order: set<string> -> seq<string>) returns (sorted: seq<Id>, mods': map<Id, ModUnit>)
    requires Consistent(keys, mods, active, inactive) && LoadOrder.IsOrder(order)
    ensures Consistent(keys, mods', sorted, inactive)
    ensures sorted == LoadOrder.ResolveFixed(SortGraph(mods, active, eval, order), order)
    ensures mods' == NumberedMap(mods, sorted)
  {
    ConsistentLists(keys, mods, active, inactive);
    sorted := OrderMods(mods, active, eval, order);
    SameMembers(sorted, active);
    assert multiset(sorted + inactive) == multiset(sorted) + multiset(inactive);
    assert multiset(active + inactive) == multiset(active) + multiset(inactive);
    mods' := NumberLoadOrder(mods, sorted);
    NumberedKeepsRegistry(keys, mods, sorted, mods');
    NumberedIs(mods, sorted, mods');
    ConsistentOf(keys, mods', sorted, inactive);
  }

  /**
   * After `sort` the active list holds, once each, the mods that were
   * active and the mods they request, and the inactive list the rest.
   */
  lemma SortedMembers(mods: map<Id, ModUnit>, active: seq<Id>, inactive: seq<Id>, eval: Eval, order: set<string> -> seq<string>)
    requires LoadOrder.IsOrder(order) && LoadOrder.NoDup(active + inactive)
    requires forall x :: x in mods <==> x in active + inactive
    ensures var lists := Activated(mods, active, inactive, eval);
      var sorted := LoadOrder.ResolveFixed(SortGraph(mods, lists.0, eval, order), order);
      && LoadOrder.NoDup(sorted)
      && (forall x :: x in sorted <==> x in active || Requested(mods, active, eval, x))
      && (forall x :: x in sorted ==> x !in lists.1)
  {
    var lists := Activated(mods, active, inactive, eval);
    ActivatedSpec(mods, active, inactive, eval);
    NoDupSplit(lists.0, lists.1);
    LoadOrder.ResolvePermutation(SortGraph(mods, lists.0, eval, order), true, order);
  }

  /** When no active mod gets a parent, sorting keeps the active list as it is. */
  lemma SortNoParentsKeepsOrder(mods: map<Id, ModUnit>, active: seq<Id>, eval: Eval, order: set<string> -> seq<string>)
    requires LoadOrder.IsOrder(order) && LoadOrder.NoDup(active)
    requires forall x :: x in active ==> x in mods && mods[x].Id() == x
    requires var ms := Sorting.ModsOf(mods, active);
      forall x :: x in active ==>
        Sorting.ParentsOf(mods[x], ms, SetOf(active), Sorting.AddedOf(ms, |ms|), eval, order(mods[x].overrideId)) == {}
    ensures LoadOrder.ResolveFixed(SortGraph(mods, active, eval, order), order) == active
  {
    var g := SortGraph(mods, active, eval, order);
    SortGraphClosed(mods, active, eval, order);
    forall v ensures LoadOrder.Parents(g.deps, v) == {} {
      if v in active {
        SortGraphParents(mods, active, eval, order, v);
      }
    }
    LoadOrder.NoEdgesKeepsOrder(g, true, order);
  }

  /** Rearranging the two lists keeps the state consistent. */
  lemma Relisted(keys: seq<Id>, mods: map<Id, ModUnit>, active: seq<Id>, inactive: seq<Id>, a: seq<Id>, rest: seq<Id>)
    requires Consistent(keys, mods, active, inactive) && multiset(a + rest) == multiset(active + inactive)
    ensures Consistent(keys, mods, a, rest)
  {
    ConsistentOf(keys, mods, a, rest);
  }

  /** So does rearranging the active list alone. */
  lemma RelistedActive(keys: seq<Id>, mods: map<Id, ModUnit>, active: seq<Id>, inactive: seq<Id>, a: seq<Id>)
    requires Consistent(keys, mods, active, inactive) && multiset(a) == multiset(active)
    ensures Consistent(keys, mods, a, inactive)
  {
    assert multiset(a + inactive) == multiset(a) + multiset(inactive);
    assert multiset(active + inactive) == multiset(active) + multiset(inactive);
    Relisted(keys, mods, active, inactive, a, inactive);
  }

  /** And the inactive list alone. */
  lemma RelistedInactive(keys: seq<Id>, mods: map<Id, ModUnit>, active: seq<Id>, inactive: seq<Id>, rest: seq<Id>)
    requires Consistent(keys, mods, active, inactive) && multiset(rest) == multiset(inactive)
    ensures Consistent(keys, mods, active, rest)
  {
    assert multiset(active + rest) == multiset(active) + multiset(rest);
    assert multiset(active + inactive) == multiset(active) + multiset(inactive);
    Relisted(keys, mods, active, inactive, active, rest);
  }

  // ----- save_mods: the content toggling -----

  /** The outcome of the content toggler (`do_changes`) for a mod, given the set of active ids. */
  type Toggler = (ModUnit, set<string>) -> Parts.RunOutcome

  /** The mods of `xs` that have toggle content, in order. */
  function ToggleIds(mods: map<Id, ModUnit>, xs: seq<Id>): (r: seq<Id>)
    requires forall x :: x in xs ==> x in mods
    ensures forall x :: x in r <==> x in xs && mods[x].hasToggleContent
    ensures |r| <= |xs|
  {
    if xs == [] then []
    else if mods[xs[0]].hasToggleContent then [xs[0]] + ToggleIds(mods, xs[1..])
    else ToggleIds(mods, xs[1..])
  }

  /**
   * The toggling loop of `save_mods` over the active list: the mods with
   * toggle content on which `do_changes` ran, and whether the loop came to
   * its end (and the configuration file is rewritten).  A raise leaves the
   * loop, since it is not the `AttributeError` the fallback catches.
   */
  function SaveRun(mods: map<Id, ModUnit>, active: seq<Id>, ids: set<string>, run: Toggler): (seq<Id>, bool)
    requires forall x :: x in active ==> x in mods
  {
    if active == [] then ([], true)
    else
      var m := mods[active[0]];
      if !m.hasToggleContent then SaveRun(mods, active[1..], ids, run)
      else if run(m, ids).raised then ([active[0]], false)
      else
        var rest := SaveRun(mods, active[1..], ids, run);
        ([active[0]] + rest.0, rest.1)
  }

  /** The configuration is rewritten exactly when no mod with toggle content raises. */
  lemma {:induction false} SaveRunWrittenIff(mods: map<Id, ModUnit>, active: seq<Id>, ids: set<string>, run: Toggler)
    requires forall x :: x in active ==> x in mods
    ensures SaveRun(mods, active, ids, run).1 <==>
            forall i :: 0 <= i < |active| && mods[active[i]].hasToggleContent ==> !run(mods[active[i]], ids).raised
  {
    if active != [] {
      SaveRunWrittenIff(mods, active[1..], ids, run);
      assert forall i :: 1 <= i < |active| ==> active[i] == active[1..][i - 1];
    }
  }

  /** When none raises, every mod with toggle content is toggled, in load order, and the configuration is rewritten. */
  lemma {:induction false} SaveRunAllToggled(mods: map<Id, ModUnit>, active: seq<Id>, ids: set<string>, run: Toggler)
    requires forall x :: x in active ==> x in mods
    requires forall x :: x in active && mods[x].hasToggleContent ==> !run(mods[x], ids).raised
    ensures SaveRun(mods, active, ids, run) == (ToggleIds(mods, active), true)
  {
    if active != [] {
      SaveRunAllToggled(mods, active[1..], ids, run);
    }
  }

  /**
   * The first mod with toggle content that raises ends the save: the mods
   * after it are not toggled and the configuration is not rewritten.
   */
  lemma {:induction false} SaveRunStopsAtFirstRaise(mods: map<Id, ModUnit>, active: seq<Id>, ids: set<string>,
                                                    run: Toggler, i: nat)
    requires forall x :: x in active ==> x in mods
    requires i < |active| && mods[active[i]].hasToggleContent && run(mods[active[i]], ids).raised
    requires forall j :: 0 <= j < i && mods[active[j]].hasToggleContent ==> !run(mods[active[j]], ids).raised
    ensures SaveRun(mods, active, ids, run) == (ToggleIds(mods, active[..i + 1]), false)
  {
    if i > 0 {
      forall j | 0 <= j < i - 1 && mods[active[1..][j]].hasToggleContent
        ensures !run(mods[active[1..][j]], ids).raised
      {
        assert active[1..][j] == active[j + 1];
      }
      SaveRunStopsAtFirstRaise(mods, active[1..], ids, run, i - 1);
      assert active[..i + 1][1..] == active[1..][..i];
    } else {
      assert active[..1] == [active[0]] && active[..1][1..] == [];
      assert ToggleIds(mods, active[..1]) == [active[0]] + ToggleIds(mods, []) == [active[0]];
      assert SaveRun(mods, active, ids, run) == ([active[0]], false);
    }
  }

  /** The manager's state: the registry and the two lists. */
  class ModManager {
    var active: seq<Id>
    var inactive: seq<Id>
    var keys: seq<Id>
    var mods: map<Id, ModUnit>

    /** The two lists together hold every registered mod exactly once. */
    ghost predicate Valid()
      reads this
    {
      Consistent(keys, mods, active, inactive)
    }

    /** The class-level defaults: nothing registered. */
    constructor ()
      ensures Valid() && active == [] && inactive == [] && keys == [] && mods == map[]
    {
      active, inactive, keys, mods := [], [], [], map[];
    }

    /** Replaces the whole state by a consistent one. */
    method Install(keys': seq<Id>, mods': map<Id, ModUnit>, active': seq<Id>, inactive': seq<Id>)
      requires Consistent(keys', mods', active', inactive')
      modifies this
      ensures Valid() && keys == keys' && mods == mods' && active == active' && inactive == inactive'
    {
      keys, mods, active, inactive := keys', mods', active', inactive';
    }

    /** The active list has no repeats, and no mod is on both lists. */
    lemma ListsDisjoint()
      requires Valid()
      ensures LoadOrder.NoDup(active) && LoadOrder.NoDup(inactive)
      ensures forall x :: x in active ==> x !in inactive
      ensures forall x :: x in active + inactive <==> x in mods
    {
      ConsistentLists(keys, mods, active, inactive);
    }

    /** `get_mod_by_id`: the registered mod filed under `id`, which carries that id, or `None`. */
    method GetModById(id: Id) returns (r: Option<ModUnit>)
      requires Valid()
      ensures r.Some? <==> id in mods
      ensures r.Some? ==> r.value == mods[id] && r.value.Id() == id
    {
      if id in mods {
        r := Some(mods[id]);
      } else {
        r := None;
      }
    }

    method ActivateMod(id: Id) returns (ok: bool)
      requires Valid()
      modifies this
      ensures Valid() && mods == old(mods) && keys == old(keys)
      ensures (ok, active, inactive) == Activate(mods, old(active), old(inactive), id)
    {
      var r := Activate(mods, active, inactive, id);
      Relisted(keys, mods, active, inactive, r.1, r.2);
      Install(keys, mods, r.1, r.2);
      ok := r.0;
    }

    method DeactivateMod(id: Id) returns (ok: bool)
      requires Valid()
      modifies this
      ensures Valid() && mods == old(mods) && keys == old(keys)
      ensures (ok, active, inactive) == Deactivate(mods, old(active), old(inactive), id)
    {
      var r := Deactivate(mods, active, inactive, id);
      Relisted(keys, mods, active, inactive, r.1, r.2);
      Install(keys, mods, r.1, r.2);
      ok := r.0;
    }

    /** `activate_all_mods`: the inactive list is appended to the active one and emptied. */
    method ActivateAll()
      requires Valid()
      modifies this
      ensures Valid() && mods == old(mods) && keys == old(keys)
      ensures active == old(active) + old(inactive) && inactive == []
    {
      if inactive == [] {
        return;
      }
      assert (active + inactive) + [] == active + inactive;
      Relisted(keys, mods, active, inactive, active + inactive, []);
      Install(keys, mods, active + inactive, []);
    }

    /**
     * `swap_active_mods`: two known, distinct ids on the active list swap
     * places; anything else leaves the list as it is.
     */
    method SwapActive(id1: Id, id2: Id)
      requires Valid()
      modifies this
      ensures Valid() && mods == old(mods) && keys == old(keys) && inactive == old(inactive)
      ensures id1 in mods && id2 in mods && id1 != id2 && id1 in old(active) && id2 in old(active) ==>
        active == Swap(old(active), IndexOf(old(active), id1), IndexOf(old(active), id2))
      ensures !(id1 in mods && id2 in mods && id1 != id2 && id1 in old(active) && id2 in old(active)) ==>
        active == old(active)
    {
      if id1 !in mods || id2 !in mods {
        return;
      }
      ListsDisjoint();
      var idx1, idx2 := FindPair(active, id1, id2);
      if idx1 != -1 && idx2 != -1 {
        var a := Swap(active, idx1, idx2);
        RelistedActive(keys, mods, active, inactive, a);
        Install(keys, mods, a, inactive);
      }
    }

    /**
     * `swap_inactive_mods`: two known ids on the inactive list swap the
     * places where `list.index` finds them; equal ids swap a place with
     * itself.
     */
    method SwapInactive(id1: Id, id2: Id)
      requires Valid()
      modifies this
      ensures Valid() && mods == old(mods) && keys == old(keys) && active == old(active)
      ensures id1 in mods && id2 in mods && id1 in old(inactive) && id2 in old(inactive) ==>
        inactive == Swap(old(inactive), IndexOf(old(inactive), id1), IndexOf(old(inactive), id2))
      ensures !(id1 in mods && id2 in mods && id1 in old(inactive) && id2 in old(inactive)) ==>
        inactive == old(inactive)
    {
      if id1 in mods && id2 in mods && id1 in inactive && id2 in inactive {
        var idx1 := IndexOf(inactive, id1);
        var idx2 := IndexOf(inactive, id2);
        var rest := Swap(inactive, idx1, idx2);
        RelistedInactive(keys, mods, active, inactive, rest);
        Install(keys, mods, active, rest);
      }
    }

    method MoveActiveToEnd(id: Id)
      requires Valid()
      modifies this
      ensures Valid() && mods == old(mods) && keys == old(keys) && inactive == old(inactive)
      ensures active == MoveToEnd(mods, old(active), id)
    {
      var a := MoveToEnd(mods, active, id);
      RelistedActive(keys, mods, active, inactive, a);
      Install(keys, mods, a, inactive);
    }

    method MoveInactiveToEnd(id: Id)
      requires Valid()
      modifies this
      ensures Valid() && mods == old(mods) && keys == old(keys) && active == old(active)
      ensures inactive == MoveToEnd(mods, old(inactive), id)
    {
      var rest := MoveToEnd(mods, inactive, id);
      RelistedInactive(keys, mods, active, inactive, rest);
      Install(keys, mods, active, rest);
    }
  
    // ----- loading -----

    /**
     * `load_mods`: with no game folder nothing changes.  Otherwise the
     * registry is rebuilt from the parsed mods (one per name, a later one
     * of an id replacing an earlier one in its place), the mods the
     * configuration lists go to the active list with their package
     * position as load order, sorted by it, and the others to the inactive
     * list in registry order.
     */
    method LoadMods(gameFound: bool, config: Option<Node>, loaded: seq<ModUnit>)
      requires Valid()
      modifies this
      ensures Valid()
      ensures !gameFound ==> active == old(active) && inactive == old(inactive) && keys == old(keys) && mods == old(mods)
      ensures gameFound ==>
        var unique := Dedup.Deduped(loaded);
        var reg := Loading.RegistryOf(unique, |unique|);
        var configs := ConfigsFrom(config);
        && keys == Dedup.FirstSeen(Loading.Ids(unique))
        && mods.Keys == reg.Keys
        && (forall k :: k in reg ==> mods[k] == if k in configs then Loading.Stamped(reg[k], configs[k]) else reg[k])
        && active == Loading.SortByKey(KeyIn(mods), LoadOrder.Filter(keys, configs.Keys))
        && inactive == LoadOrder.Filter(keys, Loading.Unlisted(keys, configs))
    {
      if !gameFound {
        return;
      }
      var k, m, a, rest := LoadState(config, loaded);
      Install(k, m, a, rest);
    }

    // ----- presets -----

    /**
     * `load_preset`: `doc` is the parsed preset, `None` when there is no
     * presets folder or the file is missing or does not load.  The entries
     * select the new active list; every other registered mod becomes
     * inactive in registry order, and the active ones are numbered from 1.
     * Returns whether a preset was read and the names it could not find.
     */
    method LoadPreset(doc: Option<Node>) returns (ok: bool, missing: seq<Option<string>>)
      requires Valid()
      modifies this
      ensures Valid() && keys == old(keys)
      ensures doc.None? ==> !ok && missing == [] && active == old(active) && inactive == old(inactive) && mods == old(mods)
      ensures doc.Some? ==>
        var nodes := NonCommentChildren(doc.value);
        var sel := Presets.PresetFold(nodes, |nodes|, keys, old(mods), Presets.LocalsByName(keys, old(mods), |keys|));
        && ok && active == sel.0 && missing == sel.1
        && inactive == LoadOrder.Filter(keys, Unselected(keys, sel.0))
        && Numbered(old(mods), active, mods)
    {
      if doc.None? {
        return false, [];
      }
      var a, rest, m;
      a, rest, m, missing := ApplyPreset(keys, mods, doc.value);
      Install(keys, m, a, rest);
      ok := true;
    }

    /**
     * `save_preset`: without a presets folder nothing is written; otherwise
     * the document of the active list is built and written, and the result
     * is whether writing succeeded (`writeOk`).
     */
    method SavePreset(hasDir: bool, writeOk: bool) returns (ok: bool, written: Option<Node>)
      requires Valid()
      ensures !hasDir ==> !ok && written == None
      ensures hasDir ==> ok == writeOk && written == Some(Presets.PresetDoc(mods, active))
    {
      if !hasDir {
        return false, None;
      }
      ListsDisjoint();
      var root := Presets.BuildPreset(mods, active);
      return writeOk, Some(root);
    }

    /**
     * The toggling loop of `save_mods`: `do_changes` runs, with the set of
     * active ids, on each active mod with toggle content in load order,
     * until one raises.  The result is the mods toggled and whether the
     * configuration file is rewritten.
     */
    method SaveModsToggles(run: Toggler) returns (toggled: seq<Id>, written: bool)
      requires Valid()
      ensures (toggled, written) == SaveRun(mods, active, SetOf(active), run)
    {
      ListsDisjoint();
      var ids := SetOf(active);
      toggled := [];
      var i := 0;
      assert active[i..] == active;
      assert toggled + SaveRun(mods, active[i..], ids, run).0 == SaveRun(mods, active[i..], ids, run).0;
      while i < |active|
        invariant 0 <= i <= |active|
        invariant SaveRun(mods, active, ids, run) ==
                  (toggled + SaveRun(mods, active[i..], ids, run).0, SaveRun(mods, active[i..], ids, run).1)
      {
        var m := mods[active[i]];
        assert active[i..][1..] == active[i + 1..];
        if m.hasToggleContent {
          ghost var rest := SaveRun(mods, active[i + 1..], ids, run).0;
          assert toggled + ([active[i]] + rest) == (toggled + [active[i]]) + rest;
          toggled := toggled + [active[i]];
          if run(m, ids).raised {
            return toggled, false;
          }
        }
        i := i + 1;
      }
      assert active[i..] == [];
      assert toggled + SaveRun(mods, active[i..], ids, run).0 == toggled;
      return toggled, true;
    }

    // ----- process_errors -----

    /** `process_errors`: every active mod's messages are rebuilt; the lists stay as they are. */
    method ProcessErrors(eval: Eval, metaDocFor: string -> Option<Node>, order: set<string> -> seq<string>)
      requires Valid() && LoadOrder.IsOrder(order)
      modifies this
      ensures Valid() && keys == old(keys) && active == old(active) && inactive == old(inactive)
      ensures ErrorsChecked(old(mods), active, mods, eval, metaDocFor, order)
    {
      ListsDisjoint();
      var checked := CheckAll(mods, active, eval, metaDocFor, order);
      ErrorsKeepRegistry(keys, mods, active, checked, eval, metaDocFor, order);
      ConsistentOf(keys, checked, active, inactive);
      Install(keys, checked, active, inactive);
    }

    // ----- sort -----

    /** The scan and auto-activation of `sort`. */
    method AutoActivate(eval: Eval)
      requires Valid()
      modifies this
      ensures Valid() && keys == old(keys) && mods == old(mods)
      ensures (active, inactive) == Activated(mods, old(active), old(inactive), eval)
    {
      var a, rest := AutoActivated(keys, mods, active, inactive, eval);
      Install(keys, mods, a, rest);
    }

    /**
     * `sort`: with an empty active list nothing changes.  Otherwise the
     * requested mods are activated, the active list is ordered by the
     * resolver (with the soft phase corrected), numbered from 1, and its
     * messages are rebuilt.
     */
    method Sort(eval: Eval, order: set<string> -> seq<string>, metaDocFor: string -> Option<Node>)
      requires Valid() && LoadOrder.IsOrder(order)
      modifies this
      ensures Valid() && keys == old(keys)
      ensures old(active) == [] ==> active == [] && inactive == old(inactive) && mods == old(mods)
      ensures old(active) != [] ==>
        var lists := Activated(old(mods), old(active), old(inactive), eval);
        && inactive == lists.1
        && active == LoadOrder.ResolveFixed(SortGraph(old(mods), lists.0, eval, order), order)
        && ErrorsChecked(NumberedMap(old(mods), active), active, mods, eval, metaDocFor, order)
    {
      if active == [] {
        return;
      }
      AutoActivate(eval);
      var sorted, m := Reorder(keys, mods, active, inactive, eval, order);
      Install(keys, m, sorted, inactive);
      ProcessErrors(eval, metaDocFor, order);
    }
  }
}
