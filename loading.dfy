/**
 * What `load_mods` makes of the parsed mods once they are deduplicated:
 * `_get_active_mod_configs` reads the active packages from the game's
 * player configuration, the mods are registered by id, and the registry is
 * split into the active list, sorted by load order, and the inactive list.
 */
module Loading {
  import opened Wrappers
  import opened Xml
  import Package
  import LoadOrder
  import Dedup

  type Id = LoadOrder.Id
  type ModUnit = Package.ModUnit

  // ----- package paths -----

  /** `path.replace('\\', '/')`. */
  function Slashes(s: string): (r: string)
    ensures |r| == |s|
  {
    if s == [] then [] else [if s[0] == '\\' then '/' else s[0]] + Slashes(s[1..])
  }

  lemma {:induction false} SlashesAppend(a: string, b: string)
    ensures Slashes(a + b) == Slashes(a) + Slashes(b)
  {
    if a == [] {
      assert a + b == b;
    } else {
      var c := if a[0] == '\\' then '/' else a[0];
      assert (a + b)[0] == a[0];
      assert (a + b)[1..] == a[1..] + b;
      SlashesAppend(a[1..], b);
      assert Slashes(a + b) == [c] + (Slashes(a[1..]) + Slashes(b));
      assert Slashes(a) == [c] + Slashes(a[1..]);
      assert ([c] + Slashes(a[1..])) + Slashes(b) == [c] + (Slashes(a[1..]) + Slashes(b));
    }
  }

  /** A string without backslashes is left as it is. */
  lemma {:induction false} SlashesNone(s: string)
    requires '\\' !in s
    ensures Slashes(s) == s
  {
    if s != [] {
      assert '\\' !in s[1..] by {
        assert forall c :: c in s[1..] ==> c in s;
      }
      SlashesNone(s[1..]);
    }
  }

  /** `str.split('/')`: the pieces between the separators, so always at least one. */
  function Split(s: string): (r: seq<string>)
    ensures |r| >= 1
  {
    if s == [] then [""]
    else
      var rest := Split(s[1..]);
      if s[0] == '/' then [""] + rest else [[s[0]] + rest[0]] + rest[1..]
  }

  /** The pieces joined back with `/`. */
  function Join(ps: seq<string>): string
    requires |ps| >= 1
  {
    if |ps| == 1 then ps[0] else ps[0] + "/" + Join(ps[1..])
  }

  /** Splitting loses nothing: joining the pieces gives the string back, and no piece holds a separator. */
  lemma {:induction false} SplitJoin(s: string)
    ensures Join(Split(s)) == s
    ensures forall p :: p in Split(s) ==> '/' !in p
  {
    if s != [] {
      SplitJoin(s[1..]);
      var rest := Split(s[1..]);
      if s[0] == '/' {
        assert Split(s)[1..] == rest;
      } else {
        var r := Split(s);
        assert r[0] == [s[0]] + rest[0];
        if |rest| > 1 {
          assert r[1..] == rest[1..];
          assert Join(rest) == rest[0] + "/" + Join(rest[1..]);
        }
        assert forall p :: p in r ==> p == r[0] || p in rest;
      }
    }
  }

  /** A piece without separators splits into itself. */
  lemma {:induction false} SplitNone(s: string)
    requires '/' !in s
    ensures Split(s) == [s]
  {
    if s != [] {
      assert '/' !in s[1..] by {
        assert forall c :: c in s[1..] ==> c in s;
      }
      SplitNone(s[1..]);
      assert [s[0]] + s[1..] == s;
    }
  }

  /** Appending `/b`, with `b` free of separators, adds `b` as the last piece. */
  lemma {:induction false} SplitAppend(a: string, b: string)
    requires '/' !in b
    ensures Split(a + "/" + b) == Split(a) + [b]
  {
    if a == [] {
      assert a + "/" + b == "/" + b;
      assert ("/" + b)[1..] == b;
      SplitNone(b);
    } else {
      assert (a + "/" + b)[0] == a[0];
      assert (a + "/" + b)[1..] == a[1..] + "/" + b;
      SplitAppend(a[1..], b);
    }
  }

  /** The mod id a package path names: the next-to-last piece, when there are at least two. */
  function PackageModId(path: string): Option<string> {
    var parts := Split(Slashes(path));
    if |parts| >= 2 then Some(parts[|parts| - 2]) else None
  }

  /** Normalising `a/b`, with `b` free of backslashes, normalises `a` alone. */
  lemma SlashesSep(a: string, b: string)
    requires '\\' !in b
    ensures Slashes(a + "/" + b) == Slashes(a) + "/" + b
  {
    SlashesNone(b);
    assert Slashes("/") == "/";
    SlashesAppend(a + "/", b);
    SlashesAppend(a, "/");
  }

  /** A path ending in `/<file>`, with `file` free of separators, names the last piece before it. */
  lemma PathRoundTrip(strPath: string, file: string)
    requires '/' !in file && '\\' !in file
    ensures var parts := Split(Slashes(strPath));
      PackageModId(strPath + "/" + file) == Some(parts[|parts| - 1])
  {
    SlashesSep(strPath, file);
    SplitAppend(Slashes(strPath), file);
  }

  /** The path written for a mod, `<str_path>/filelist.xml`, names the last piece of `str_path` as its mod id. */
  lemma ConfigPathRoundTrip(strPath: string)
    ensures var parts := Split(Slashes(strPath));
      PackageModId(strPath + "/filelist.xml") == Some(parts[|parts| - 1])
  {
    var file := "filelist.xml";
    assert strPath + "/filelist.xml" == strPath + "/" + file;
    PathRoundTrip(strPath, file);
  }

  /** For a local mod, whose `str_path` is `LocalMods/<folder>`, that piece is the folder. */
  lemma LocalConfigPath(folder: string)
    requires '/' !in folder && '\\' !in folder
    ensures PackageModId("LocalMods/" + folder + "/filelist.xml") == Some(folder)
  {
    var root := "LocalMods";
    var p := root + "/" + folder;
    assert "LocalMods/" + folder == p;
    ConfigPathRoundTrip(p);
    SlashesSep(root, folder);
    SplitAppend(Slashes(root), folder);
  }

  /**
   * The package path `save_mods` writes for a local mod, `str_path` followed
   * by `/filelist.xml`, is read back by `load_mods` as that mod's folder name.
   */
  lemma StrPathNamesLocalFolder(m: Package.ModUnit)
    requires m.local && m.path.parts != []
    requires var f := m.path.parts[|m.path.parts| - 1]; '/' !in f && '\\' !in f
    ensures Package.StrPath(m).Some?
    ensures PackageModId(Package.StrPath(m).value + "/filelist.xml") == Some(m.path.parts[|m.path.parts| - 1])
  {
    var f := m.path.parts[|m.path.parts| - 1];
    LocalConfigPath(f);
    assert Package.StrPath(m).value + "/filelist.xml" == "LocalMods/" + f + "/filelist.xml";
  }

  /** The mod id a `package` element contributes: its `path` attribute is non-empty and names one. */
  function PackageId(pkg: Node): Option<string> {
    var path := Get(AttributesOf(pkg), "path");
    if Truthy(path) then PackageModId(path.value) else None
  }

  /** The mod ids the packages contribute, in order. */
  function PackageIds(pkgs: seq<Node>): (r: seq<Option<string>>)
    ensures |r| == |pkgs| && forall i :: 0 <= i < |pkgs| ==> r[i] == PackageId(pkgs[i])
  {
    seq(|pkgs|, i requires 0 <= i < |pkgs| => PackageId(pkgs[i]))
  }

  /** `active_configs` after the first `i` packages: a package's position, counted from 1, filed under its mod id. */
  function ConfigsOf(ids: seq<Option<string>>, i: nat): map<string, nat>
    requires i <= |ids|
  {
    if i == 0 then map[]
    else
      var c := ConfigsOf(ids, i - 1);
      if ids[i - 1].Some? then c[ids[i - 1].value := i] else c
  }

  /** Every package naming a mod id is counted, and nothing else is. */
  lemma {:induction false} ConfigsComplete(ids: seq<Option<string>>, n: nat)
    requires n <= |ids|
    ensures forall k :: 0 <= k < n && ids[k].Some? ==> ids[k].value in ConfigsOf(ids, n)
    ensures forall id :: id in ConfigsOf(ids, n) ==> Some(id) in ids[..n]
  {
    if n > 0 {
      ConfigsComplete(ids, n - 1);
      assert ids[..n] == ids[..n - 1] + [ids[n - 1]];
    }
  }

  /** A mod id is filed under the position of the LAST package naming it. */
  lemma {:induction false} ConfigsLastWins(ids: seq<Option<string>>, n: nat)
    requires n <= |ids|
    ensures forall id :: id in ConfigsOf(ids, n) ==>
      && 1 <= ConfigsOf(ids, n)[id] <= n
      && ids[ConfigsOf(ids, n)[id] - 1] == Some(id)
      && forall j :: ConfigsOf(ids, n)[id] <= j < n ==> ids[j] != Some(id)
  {
    if n > 0 {
      ConfigsLastWins(ids, n - 1);
    }
  }

  /** Two configured mods never share a position. */
  lemma ConfigsDistinct(ids: seq<Option<string>>, n: nat, a: string, b: string)
    requires n <= |ids| && a in ConfigsOf(ids, n) && b in ConfigsOf(ids, n) && a != b
    ensures ConfigsOf(ids, n)[a] != ConfigsOf(ids, n)[b]
  {
    ConfigsLastWins(ids, n);
  }

  /**
   * `_get_active_mod_configs`: `doc` is the loaded configuration, `None`
   * when the file is missing or does not load.
   */
  method ActiveModConfigs(doc: Option<Node>) returns (configs: map<string, nat>)
    ensures doc.None? ==> configs == map[]
    ensures doc.Some? ==> var pkgs := FindElements(doc.value, "package"); configs == ConfigsOf(PackageIds(pkgs), |pkgs|)
  {
    if doc.None? {
      return map[];
    }
    var packages := FindElements(doc.value, "package");
    configs := ConfigsLoop(packages);
  }

  /** The loop of `_get_active_mod_configs` over the `package` elements. */
  method ConfigsLoop(packages: seq<Node>) returns (configs: map<string, nat>)
    ensures configs == ConfigsOf(PackageIds(packages), |packages|)
  {
    configs := map[];
    ghost var ids := PackageIds(packages);
    for i := 0 to |packages|
      invariant configs == ConfigsOf(ids, i)
    {
      var pathAttr := Get(AttributesOf(packages[i]), "path");
      if !Truthy(pathAttr) {
        continue;
      }
      var parts := Split(Slashes(pathAttr.value));
      if |parts| >= 2 {
        configs := configs[parts[|parts| - 2] := i + 1];
      }
    }
  }

  // ----- the registry -----

  /** The ids of the mods, in order. */
  function Ids(ms: seq<ModUnit>): (r: seq<Id>)
    ensures |r| == |ms| && forall i :: 0 <= i < |ms| ==> r[i] == ms[i].Id()
  {
    seq(|ms|, i requires 0 <= i < |ms| => ms[i].Id())
  }

  /** `_mod_map` after the first `i` mods: each filed under its id, a later one replacing an earlier one. */
  function RegistryOf(ms: seq<ModUnit>, i: nat): map<Id, ModUnit>
    requires i <= |ms|
  {
    if i == 0 then map[] else RegistryOf(ms, i - 1)[ms[i - 1].Id() := ms[i - 1]]
  }

  lemma IdsStep(ms: seq<ModUnit>, i: nat)
    requires i < |ms|
    ensures var ks := Dedup.FirstSeen(Ids(ms[..i]));
      Dedup.FirstSeen(Ids(ms[..i + 1])) == if ms[i].Id() in ks then ks else ks + [ms[i].Id()]
  {
    assert Ids(ms[..i + 1])[..i] == Ids(ms[..i]);
  }

  /**
   * The registry files every mod under its own id, has a key for exactly
   * the ids seen, and keeps under each id the last mod that has it.
   */
  lemma RegistryOfSpec(ms: seq<ModUnit>, n: nat)
    requires n <= |ms|
    ensures forall k :: k in RegistryOf(ms, n) ==> RegistryOf(ms, n)[k].Id() == k
    ensures forall k :: k in RegistryOf(ms, n) <==> k in Ids(ms[..n])
    ensures forall k :: 0 <= k < n && (forall j :: k < j < n ==> ms[j].Id() != ms[k].Id()) ==>
      RegistryOf(ms, n)[ms[k].Id()] == ms[k]
  {
    RegistryKeys(ms, n);
    forall k | k in RegistryOf(ms, n) {
      RegistryIdAt(ms, n, k);
    }
    forall k | 0 <= k < n && (forall j :: k < j < n ==> ms[j].Id() != ms[k].Id()) {
      RegistryLastAt(ms, n, k);
    }
  }

  lemma {:induction false} RegistryKeys(ms: seq<ModUnit>, n: nat)
    requires n <= |ms|
    ensures forall k :: k in RegistryOf(ms, n) <==> k in Ids(ms[..n])
  {
    if n > 0 {
      RegistryKeys(ms, n - 1);
      assert Ids(ms[..n]) == Ids(ms[..n - 1]) + [ms[n - 1].Id()];
    }
  }

  lemma {:induction false} RegistryIdAt(ms: seq<ModUnit>, n: nat, k: Id)
    requires n <= |ms| && k in RegistryOf(ms, n)
    ensures RegistryOf(ms, n)[k].Id() == k
  {
    if k != ms[n - 1].Id() {
      RegistryIdAt(ms, n - 1, k);
    }
  }

  lemma {:induction false} RegistryLastAt(ms: seq<ModUnit>, n: nat, k: nat)
    requires k < n <= |ms| && forall j :: k < j < n ==> ms[j].Id() != ms[k].Id()
    ensures ms[k].Id() in RegistryOf(ms, n) && RegistryOf(ms, n)[ms[k].Id()] == ms[k]
  {
    if k < n - 1 {
      RegistryLastAt(ms, n - 1, k);
    }
  }

  /** The registration loop of `load_mods`. */
  method Register(unique: seq<ModUnit>) returns (keys: seq<Id>, mods: map<Id, ModUnit>)
    ensures keys == Dedup.FirstSeen(Ids(unique))
    ensures mods == RegistryOf(unique, |unique|)
  {
    keys, mods := [], map[];
    for i := 0 to |unique|
      invariant keys == Dedup.FirstSeen(Ids(unique[..i]))
      invariant mods == RegistryOf(unique, i)
    {
      IdsStep(unique, i);
      RegistryOfSpec(unique, i);
      var m := unique[i];
      if m.Id() !in mods {
        keys := keys + [m.Id()];
      }
      mods := mods[m.Id() := m];
    }
    assert unique[..|unique|] == unique;
  }

  /** Registration yields a well-formed registry: its key order lists its keys once each. */
  lemma RegisterWellFormed(ms: seq<ModUnit>)
    ensures LoadOrder.Enumerates(Dedup.FirstSeen(Ids(ms)), RegistryOf(ms, |ms|).Keys)
    ensures forall k :: k in RegistryOf(ms, |ms|) ==> RegistryOf(ms, |ms|)[k].Id() == k
  {
    RegistryOfSpec(ms, |ms|);
    assert ms[..|ms|] == ms;
  }

  // ----- the split into active and inactive mods -----

  /** The registry's mods that the configuration does not list. */
  function Unlisted(keys: seq<Id>, configs: map<string, nat>): set<Id> {
    set k | k in keys && k !in configs
  }

  /** A configured mod, with its load order set to its package position. */
  function Stamped(m: ModUnit, pos: nat): ModUnit {
    m.(loadOrder := Some(pos))
  }

  /** The registry once the first `i` keys are visited: the configured ones among them are stamped. */
  ghost predicate StampedUpTo(keys: seq<Id>, mods: map<Id, ModUnit>, configs: map<string, nat>, i: nat,
                              mods': map<Id, ModUnit>)
    requires i <= |keys|
  {
    && mods'.Keys == mods.Keys
    && forall k :: k in mods ==>
      mods'[k] == if k in configs && k in LoadOrder.Prefix(keys, i) then Stamped(mods[k], configs[k]) else mods[k]
  }

  lemma StampStep(keys: seq<Id>, mods: map<Id, ModUnit>, configs: map<string, nat>, i: nat, mods': map<Id, ModUnit>)
    requires LoadOrder.Enumerates(keys, mods.Keys) && i < |keys| && StampedUpTo(keys, mods, configs, i, mods')
    ensures var id := keys[i];
      StampedUpTo(keys, mods, configs, i + 1, if id in configs then mods'[id := Stamped(mods'[id], configs[id])] else mods')
  {
    LoadOrder.PrefixStep(keys, i, {});
    LoadOrder.PrefixMisses(keys, i);
  }

  /**
   * The split loop of `load_mods`, over the registry in key order: a
   * configured mod gets its position as load order and goes to the active
   * list, any other to the inactive list.
   */
  method SplitByConfig(keys: seq<Id>, mods: map<Id, ModUnit>, configs: map<string, nat>)
    returns (active: seq<Id>, inactive: seq<Id>, mods': map<Id, ModUnit>)
    requires LoadOrder.Enumerates(keys, mods.Keys)
    ensures active == LoadOrder.Filter(keys, configs.Keys)
    ensures inactive == LoadOrder.Filter(keys, Unlisted(keys, configs))
    ensures mods'.Keys == mods.Keys
    ensures forall k :: k in mods ==> mods'[k] == if k in configs then Stamped(mods[k], configs[k]) else mods[k]
  {
    active, inactive, mods' := [], [], mods;
    for i := 0 to |keys|
      invariant active == LoadOrder.FilterUpTo(keys, i, configs.Keys)
      invariant inactive == LoadOrder.FilterUpTo(keys, i, Unlisted(keys, configs))
      invariant StampedUpTo(keys, mods, configs, i, mods')
    {
      var id := keys[i];
      LoadOrder.PrefixStep(keys, i, configs.Keys);
      LoadOrder.PrefixStep(keys, i, Unlisted(keys, configs));
      StampStep(keys, mods, configs, i, mods');
      if id in configs {
        mods' := mods'[id := Stamped(mods'[id], configs[id])];
        active := active + [id];
      } else {
        inactive := inactive + [id];
      }
    }
    LoadOrder.FilterUpToAll(keys, configs.Keys);
    LoadOrder.FilterUpToAll(keys, Unlisted(keys, configs));
    LoadOrder.PrefixAll(keys, mods.Keys);
  }

  // ----- sorting by load order -----

  /** The sort key of `load_mods`: the load order, or 9999 when it is unset. */
  function LoadKey(mods: map<Id, ModUnit>, id: Id): int {
    if id in mods && mods[id].loadOrder.Some? then mods[id].loadOrder.value else 9999
  }

  /** `x` placed before the first member whose key is not smaller, so that equal keys keep their order. */
  function Insert(key: Id -> int, x: Id, xs: seq<Id>): (r: seq<Id>)
    ensures multiset(r) == multiset(xs) + multiset{x}
    ensures forall y :: y in r <==> y == x || y in xs
  {
    if xs == [] then [x]
    else if key(xs[0]) >= key(x) then [x] + xs
    else
      var t := Insert(key, x, xs[1..]);
      assert xs == [xs[0]] + xs[1..];
      [xs[0]] + t
  }

  /** `list.sort(key=...)`, a stable sort, written as an insertion sort. */
  function SortByKey(key: Id -> int, xs: seq<Id>): (r: seq<Id>)
    ensures multiset(r) == multiset(xs)
  {
    if xs == [] then []
    else
      assert xs == [xs[0]] + xs[1..];
      Insert(key, xs[0], SortByKey(key, xs[1..]))
  }

  ghost predicate SortedBy(key: Id -> int, xs: seq<Id>) {
    forall i, j :: 0 <= i < j < |xs| ==> key(xs[i]) <= key(xs[j])
  }

  lemma SortedTail(key: Id -> int, xs: seq<Id>)
    requires xs != [] && SortedBy(key, xs)
    ensures SortedBy(key, xs[1..])
    ensures forall y :: y in xs[1..] ==> key(xs[0]) <= key(y)
  {
    forall i, j | 0 <= i < j < |xs[1..]| ensures key(xs[1..][i]) <= key(xs[1..][j]) {
      assert xs[1..][i] == xs[i + 1] && xs[1..][j] == xs[j + 1];
    }
    forall y | y in xs[1..] ensures key(xs[0]) <= key(y) {
      var k :| 0 <= k < |xs[1..]| && xs[1..][k] == y;
      assert xs[k + 1] == y;
    }
  }

  lemma SortedCons(key: Id -> int, x: Id, xs: seq<Id>)
    requires SortedBy(key, xs) && forall y :: y in xs ==> key(x) <= key(y)
    ensures SortedBy(key, [x] + xs)
  {
    var r := [x] + xs;
    forall i, j | 0 <= i < j < |r| ensures key(r[i]) <= key(r[j]) {
      assert r[j] == xs[j - 1];
      if i > 0 {
        assert r[i] == xs[i - 1];
      }
    }
  }

  lemma {:induction false} InsertSorted(key: Id -> int, x: Id, xs: seq<Id>)
    requires SortedBy(key, xs)
    ensures SortedBy(key, Insert(key, x, xs))
  {
    if xs == [] {
    } else if key(xs[0]) >= key(x) {
      SortedTail(key, xs);
      SortedCons(key, x, xs);
    } else {
      SortedTail(key, xs);
      InsertSorted(key, x, xs[1..]);
      SortedCons(key, xs[0], Insert(key, x, xs[1..]));
    }
  }

  /** The sort orders by key and is a permutation. */
  lemma {:induction false} SortSorted(key: Id -> int, xs: seq<Id>)
    ensures SortedBy(key, SortByKey(key, xs))
    ensures multiset(SortByKey(key, xs)) == multiset(xs)
  {
    if xs != [] {
      SortSorted(key, xs[1..]);
      InsertSorted(key, xs[0], SortByKey(key, xs[1..]));
    }
  }
}
