/**
 * Mod-list presets (`save_preset`, `load_preset`): a preset is a `mods`
 * document with a `Vanilla` entry followed by one entry per active mod, a
 * `Local` entry naming a local mod and a `Workshop` entry naming any other
 * mod and giving its id.  Loading resolves the entries against the
 * registry and reports the ones it cannot find.
 */
module Presets {
  import opened Wrappers
  import opened Xml
  import Package
  import LoadOrder
  import ModLists

  type Id = LoadOrder.Id
  type ModUnit = Package.ModUnit

  // ----- saving -----

  /** The id a `Workshop` entry records: the Steam id when it is set, else the mod's id. */
  function WorkshopId(m: ModUnit): string {
    if Truthy(m.steamId) then m.steamId.value else m.Id()
  }

  /** The entry `save_preset` writes for one active mod. */
  function PresetEntry(m: ModUnit): Node {
    if m.local then Element("Local", [("name", m.name)], [], "")
    else Element("Workshop", [("name", m.name), ("id", WorkshopId(m))], [], "")
  }

  function Entries(mods: map<Id, ModUnit>, active: seq<Id>): (r: seq<Node>)
    requires forall x :: x in active ==> x in mods
    ensures |r| == |active| && forall k :: 0 <= k < |active| ==> r[k] == PresetEntry(mods[active[k]])
  {
    seq(|active|, k requires 0 <= k < |active| => PresetEntry(mods[active[k]]))
  }

  const Vanilla: Node := Element("Vanilla", [], [], "")

  /** The document `save_preset` writes. */
  function PresetDoc(mods: map<Id, ModUnit>, active: seq<Id>): (r: Node)
    requires forall x :: x in active ==> x in mods
    ensures NonCommentChildren(r) == [Vanilla] + Entries(mods, active)
  {
    ElementsOfElements([Vanilla] + Entries(mods, active));
    Element("mods", [], [Vanilla] + Entries(mods, active), "")
  }

  /** The entry loop of `save_preset`. */
  method BuildPreset(mods: map<Id, ModUnit>, active: seq<Id>) returns (root: Node)
    requires forall x :: x in active ==> x in mods
    ensures root == PresetDoc(mods, active)
  {
    var children := [Vanilla];
    for i := 0 to |active|
      invariant children == [Vanilla] + Entries(mods, active[..i])
    {
      var m := mods[active[i]];
      assert Entries(mods, active[..i + 1]) == Entries(mods, active[..i]) + [PresetEntry(m)];
      if m.local {
        children := children + [Element("Local", [("name", m.name)], [], "")];
      } else {
        var wId := if Truthy(m.steamId) then m.steamId.value else m.Id();
        children := children + [Element("Workshop", [("name", m.name), ("id", wId)], [], "")];
      }
    }
    assert active[..|active|] == active;
    root := Element("mods", [], children, "");
  }

  /** The Workshop id written for a mod is always its id. */
  lemma WorkshopIdIsId(m: ModUnit)
    ensures WorkshopId(m) == m.Id()
  {
  }

  // ----- loading -----

  /** `local_mods_by_name` over the first `i` keys: each local mod's name to its id, a later one replacing an earlier one. */
  function LocalsByName(keys: seq<Id>, mods: map<Id, ModUnit>, i: nat): map<string, Id>
    requires i <= |keys| && forall k :: k in keys ==> k in mods
  {
    if i == 0 then map[]
    else
      var l := LocalsByName(keys, mods, i - 1);
      var m := mods[keys[i - 1]];
      if m.local then l[m.name := keys[i - 1]] else l
  }

  /** The lookup finds a local mod of that name, and finds one whenever there is one. */
  lemma {:induction false} LocalsByNameSpec(keys: seq<Id>, mods: map<Id, ModUnit>, i: nat)
    requires i <= |keys| && forall k :: k in keys ==> k in mods
    ensures forall n :: n in LocalsByName(keys, mods, i) ==>
      var k := LocalsByName(keys, mods, i)[n]; k in keys[..i] && mods[k].local && mods[k].name == n
    ensures forall j :: 0 <= j < i && mods[keys[j]].local ==> mods[keys[j]].name in LocalsByName(keys, mods, i)
  {
    if i > 0 {
      LocalsByNameSpec(keys, mods, i - 1);
      assert keys[..i] == keys[..i - 1] + [keys[i - 1]];
    }
  }

  /** `next(m for m in _mod_map.values() if m.name == l_name)`: the first mod of that name, local or not. */
  function FirstByName(keys: seq<Id>, mods: map<Id, ModUnit>, name: Option<string>): (r: Option<Id>)
    requires forall k :: k in keys ==> k in mods
    ensures r.Some? ==> r.value in keys && name == Some(mods[r.value].name)
    ensures r.None? ==> forall k :: k in keys ==> name != Some(mods[k].name)
  {
    if keys == [] then None
    else if name == Some(mods[keys[0]].name) then Some(keys[0])
    else FirstByName(keys[1..], mods, name)
  }

  /** What one preset entry does: nothing, add a registered mod, or report a missing one by name. */
  datatype EntryEffect = Skip | Add(id: Id) | Missing(name: Option<string>)

  /** The text `f"ID: {w_id}"` gives when the id is absent too. */
  function IdLabel(wId: Option<string>): string {
    "ID: " + (if wId.Some? then wId.value else "None")
  }

  /** A `Workshop` entry adds the mod its `id` names, or reports its name (or `ID: ...`) as missing. */
  function WorkshopEffect(attrs: Attributes, mods: map<Id, ModUnit>): (r: EntryEffect)
    ensures r.Add? <==> Get(attrs, "id").Some? && Get(attrs, "id").value in mods
    ensures r.Add? ==> r.id == Get(attrs, "id").value
  {
    var wId := Get(attrs, "id");
    var wName := Get(attrs, "name").GetOr(IdLabel(wId));
    if wId.Some? && wId.value in mods then Add(wId.value) else Missing(Some(wName))
  }

  /** A `Local` entry adds the local mod of that name, else the first mod of that name, or reports the name. */
  function LocalEffect(attrs: Attributes, keys: seq<Id>, mods: map<Id, ModUnit>, locals: map<string, Id>): (r: EntryEffect)
    requires forall k :: k in keys ==> k in mods
    ensures var lName := Get(attrs, "name");
      && (lName.Some? && lName.value in locals ==> r == Add(locals[lName.value]))
      && (r.Missing? <==> !(lName.Some? && lName.value in locals) && forall k :: k in keys ==> lName != Some(mods[k].name))
      && (r.Missing? ==> r.name == lName)
  {
    var lName := Get(attrs, "name");
    var found := if lName.Some? && lName.value in locals then Some(locals[lName.value]) else FirstByName(keys, mods, lName);
    if found.Some? then Add(found.value) else Missing(lName)
  }

  /** How `load_preset` treats one non-comment entry of the preset: the tag is compared in lower case. */
  function EffectOf(node: Node, keys: seq<Id>, mods: map<Id, ModUnit>, locals: map<string, Id>): EntryEffect
    requires forall k :: k in keys ==> k in mods
  {
    var tag := Lower(Tag(node));
    if tag == "vanilla" then Skip
    else if tag == "workshop" then WorkshopEffect(AttributesOf(node), mods)
    else if tag == "local" then LocalEffect(AttributesOf(node), keys, mods, locals)
    else Skip
  }

  /** The tags of a saved preset, in lower case. */
  lemma LowerTag(s: string)
    requires s == "Vanilla" || s == "Workshop" || s == "Local"
    ensures s == "Vanilla" ==> Lower(s) == "vanilla"
    ensures s == "Workshop" ==> Lower(s) == "workshop"
    ensures s == "Local" ==> Lower(s) == "local"
  {
    LowerSpec(s);
  }

  /** The selection after the first `i` entries: the mods to activate, each once, and the names missing. */
  function PresetFold(nodes: seq<Node>, i: nat, keys: seq<Id>, mods: map<Id, ModUnit>, locals: map<string, Id>)
    : (r: (seq<Id>, seq<Option<string>>))
    requires i <= |nodes| && forall k :: k in keys ==> k in mods
    ensures LoadOrder.NoDup(r.0)
    ensures (forall n :: n in locals ==> locals[n] in mods) ==> forall x :: x in r.0 ==> x in mods
  {
    if i == 0 then ([], [])
    else PresetStep(PresetFold(nodes, i - 1, keys, mods, locals), EffectOf(nodes[i - 1], keys, mods, locals))
  }

  /** One entry's effect on the selection: an id already selected is not added twice. */
  function PresetStep(acc: (seq<Id>, seq<Option<string>>), e: EntryEffect): (seq<Id>, seq<Option<string>>) {
    match e
    case Skip => acc
    case Add(id) => (if id in acc.0 then acc.0 else acc.0 + [id], acc.1)
    case Missing(name) => (acc.0, acc.1 + [name])
  }

  /** The entry loop of `load_preset`. */
  method SelectPreset(nodes: seq<Node>, keys: seq<Id>, mods: map<Id, ModUnit>, locals: map<string, Id>)
    returns (active: seq<Id>, missing: seq<Option<string>>)
    requires forall k :: k in keys ==> k in mods
    ensures (active, missing) == PresetFold(nodes, |nodes|, keys, mods, locals)
  {
    active, missing := [], [];
    for i := 0 to |nodes|
      invariant (active, missing) == PresetFold(nodes, i, keys, mods, locals)
    {
      active, missing := ApplyEntry(nodes[i], keys, mods, locals, active, missing);
    }
  }

  /** The body of the entry loop of `load_preset` for one entry. */
  method ApplyEntry(node: Node, keys: seq<Id>, mods: map<Id, ModUnit>, locals: map<string, Id>,
                    active: seq<Id>, missing: seq<Option<string>>)
    returns (active': seq<Id>, missing': seq<Option<string>>)
    requires forall k :: k in keys ==> k in mods
    ensures (active', missing') == PresetStep((active, missing), EffectOf(node, keys, mods, locals))
  {
    active', missing' := active, missing;
    var tag := Lower(Tag(node));
    var toAdd: Option<Id> := None;
    if tag == "vanilla" {
      return;
    } else if tag == "workshop" {
      var wId := Get(AttributesOf(node), "id");
      var wName := Get(AttributesOf(node), "name").GetOr(IdLabel(wId));
      if wId.Some? && wId.value in mods {
        toAdd := Some(wId.value);
      } else {
        missing' := missing' + [Some(wName)];
      }
    } else if tag == "local" {
      var lName := Get(AttributesOf(node), "name");
      if lName.Some? && lName.value in locals {
        toAdd := Some(locals[lName.value]);
      } else {
        toAdd := FirstByName(keys, mods, lName);
      }
      if toAdd.None? {
        missing' := missing' + [lName];
      }
    }
    if toAdd.Some? && toAdd.value !in active' {
      active' := active' + [toAdd.value];
    }
  }

  /** No two local mods of the registry share a name. */
  ghost predicate LocalNamesUnique(keys: seq<Id>, mods: map<Id, ModUnit>)
    requires forall k :: k in keys ==> k in mods
  {
    forall i, j :: 0 <= i < |keys| && 0 <= j < |keys| && i != j && mods[keys[i]].local && mods[keys[j]].local ==>
      mods[keys[i]].name != mods[keys[j]].name
  }

  /** With unique local names, a local mod's name leads back to it. */
  lemma LocalLookup(keys: seq<Id>, mods: map<Id, ModUnit>, id: Id)
    requires ModLists.Registry(keys, mods) && LocalNamesUnique(keys, mods)
    requires id in mods && mods[id].local
    ensures var locals := LocalsByName(keys, mods, |keys|);
      mods[id].name in locals && locals[mods[id].name] == id
  {
    LocalsByNameSpec(keys, mods, |keys|);
    assert keys[..|keys|] == keys;
    var j :| 0 <= j < |keys| && keys[j] == id;
    var locals := LocalsByName(keys, mods, |keys|);
    var k := locals[mods[id].name];
    var j2 :| 0 <= j2 < |keys| && keys[j2] == k;
  }

  /** Each saved entry of a registered mod adds that very mod again. */
  lemma EntryRoundTrip(keys: seq<Id>, mods: map<Id, ModUnit>, id: Id)
    requires ModLists.Registry(keys, mods) && LocalNamesUnique(keys, mods) && id in mods
    ensures EffectOf(PresetEntry(mods[id]), keys, mods, LocalsByName(keys, mods, |keys|)) == Add(id)
  {
    if mods[id].local {
      LocalRoundTrip(keys, mods, id);
    } else {
      WorkshopRoundTrip(keys, mods, id, LocalsByName(keys, mods, |keys|));
    }
  }

  /** The `Local` entry of a local mod finds it again by name. */
  lemma LocalRoundTrip(keys: seq<Id>, mods: map<Id, ModUnit>, id: Id)
    requires ModLists.Registry(keys, mods) && LocalNamesUnique(keys, mods) && id in mods && mods[id].local
    ensures EffectOf(PresetEntry(mods[id]), keys, mods, LocalsByName(keys, mods, |keys|)) == Add(id)
  {
    var m := mods[id];
    LowerTag("Local");
    LocalLookup(keys, mods, id);
    assert Get([("name", m.name)], "name") == Some(m.name);
  }

  /** The `Workshop` entry of any other mod finds it again by id. */
  lemma WorkshopRoundTrip(keys: seq<Id>, mods: map<Id, ModUnit>, id: Id, locals: map<string, Id>)
    requires forall k :: k in keys ==> k in mods
    requires id in mods && !mods[id].local && mods[id].Id() == id
    ensures EffectOf(PresetEntry(mods[id]), keys, mods, locals) == Add(id)
  {
    var m := mods[id];
    LowerTag("Workshop");
    assert Get([("name", m.name), ("id", WorkshopId(m))], "id") == Some(WorkshopId(m));
  }

  /** A list of nodes that skips once and then adds each of `active` in turn selects exactly `active`. */
  lemma {:induction false} FoldAddsInTurn(nodes: seq<Node>, keys: seq<Id>, mods: map<Id, ModUnit>, locals: map<string, Id>,
                                          active: seq<Id>, i: nat)
    requires forall k :: k in keys ==> k in mods
    requires LoadOrder.NoDup(active) && |nodes| == |active| + 1 && i <= |active|
    requires EffectOf(nodes[0], keys, mods, locals) == Skip
    requires forall k :: 0 <= k < |active| ==> EffectOf(nodes[k + 1], keys, mods, locals) == Add(active[k])
    ensures PresetFold(nodes, i + 1, keys, mods, locals) == (active[..i], [])
  {
    if i > 0 {
      FoldAddsInTurn(nodes, keys, mods, locals, active, i - 1);
      FreshInPrefix(active, i - 1);
      assert EffectOf(nodes[i], keys, mods, locals) == Add(active[i - 1]);
      assert active[..i] == active[..i - 1] + [active[i - 1]];
    }
  }

  /** In a list without repeats no element occurs before its own position. */
  lemma FreshInPrefix(s: seq<Id>, i: nat)
    requires LoadOrder.NoDup(s) && i < |s|
    ensures s[i] !in s[..i]
  {
    forall k | 0 <= k < i ensures s[..i][k] != s[i] {
      assert s[..i][k] == s[k];
    }
  }

  /**
   * Saving a preset and loading it back restores the active list, with
   * nothing missing, when the list has no repeats and no two local mods
   * share a name.
   */
  lemma LoadAfterSave(keys: seq<Id>, mods: map<Id, ModUnit>, active: seq<Id>)
    requires ModLists.Registry(keys, mods) && LocalNamesUnique(keys, mods)
    requires LoadOrder.NoDup(active) && forall x :: x in active ==> x in mods
    ensures var nodes := NonCommentChildren(PresetDoc(mods, active));
      PresetFold(nodes, |nodes|, keys, mods, LocalsByName(keys, mods, |keys|)) == (active, [])
  {
    var nodes := NonCommentChildren(PresetDoc(mods, active));
    SavedEffects(keys, mods, active);
    FoldAddsInTurn(nodes, keys, mods, LocalsByName(keys, mods, |keys|), active, |active|);
    assert active[..|active|] == active;
  }

  /** A saved preset reads back as one skipped `Vanilla` entry and then one added mod per active mod. */
  lemma SavedEffects(keys: seq<Id>, mods: map<Id, ModUnit>, active: seq<Id>)
    requires ModLists.Registry(keys, mods) && LocalNamesUnique(keys, mods)
    requires forall x :: x in active ==> x in mods
    ensures var nodes := NonCommentChildren(PresetDoc(mods, active));
      var locals := LocalsByName(keys, mods, |keys|);
      && |nodes| == |active| + 1
      && EffectOf(nodes[0], keys, mods, locals) == Skip
      && forall k :: 0 <= k < |active| ==> EffectOf(nodes[k + 1], keys, mods, locals) == Add(active[k])
  {
    var nodes := NonCommentChildren(PresetDoc(mods, active));
    var locals := LocalsByName(keys, mods, |keys|);
    LowerTag("Vanilla");
    forall k | 0 <= k < |active|
      ensures EffectOf(nodes[k + 1], keys, mods, locals) == Add(active[k])
    {
      assert nodes[k + 1] == PresetEntry(mods[active[k]]);
      EntryRoundTrip(keys, mods, active[k]);
    }
  }
}
