/**
 * The identifier extractor (Code/package/id_parser.py): a depth-first walk
 * over a content document, driven by a static table from lower-case tag to
 * rule, that collects the identifiers a package adds and the ones it
 * overrides.  The walk carries an override flag and an optional context tag
 * on every stack item.
 */
module IdParser {
  import opened Wrappers
  import opened Xml

  /** The closed set of rule kinds of the `_RULES` table. */
  datatype Rule =
    | Context(contextType: Option<string>)   // `_make_context_rule`
    | Override                               // `_make_override_rule`
    | Id(prefix: string, field: string)      // `_make_id_rule`
    | Special(literal: string)               // `_make_special_id_rule`
    | Ignore                                 // `_ignore_rule`

  /** The process-wide static rule table (`_RULES.get`), keyed by lower-case tag. */
  function RuleFor(key: string): Option<Rule> {
    match key
    case "override" => Some(Override)
    case "english" => Some(Ignore)
    case "infotexts" => Some(Ignore)
    case "infotext" => Some(Ignore)
    case "contentpackage" => Some(Ignore)
    case "documentation" => Some(Ignore)
    case "metadata" => Some(Ignore)
    case "vars" => Some(Ignore)
    case "sounds" => Some(Ignore)
    case "names" => Some(Ignore)
    case "particles" => Some(Ignore)
    case "ai" => Some(Ignore)
    case "body" => Some(Ignore)
    case "holdable" => Some(Ignore)
    case "items" => Some(Context(Some("item")))
    case "item" => Some(Id("item", "identifier"))
    case "afflictions" => Some(Context(Some("affliction")))
    case "affliction" => Some(Id("affliction", "identifier"))
    case "cprsettings" => Some(Special("CPRSettings"))
    case "character" => Some(Id("Character", "speciesname"))
    case "characters" => Some(Context(None))
    case "monsters" => Some(Context(Some("monster")))
    case "monster" => Some(Id("Character", "speciesname"))
    case "ragdoll" => Some(Id("Ragdoll", "type"))
    case "ballastflorabehavior" => Some(Id("BallastFlora", "identifier"))
    case "huskappendage" => Some(Context(None))
    case "limb" => Some(Id("HuskAppendage.limb", "name"))
    case "joint" => Some(Id("HuskAppendage.joint", "name"))
    case "levelobjects" => Some(Context(Some("levelobjects")))
    case "levelobject" => Some(Id("LevelObject", "identifier"))
    case "itemassembly" => Some(Id("ItemAssembly", "name"))
    case "upgrademodules" => Some(Context(None))
    case "upgrademodule" => Some(Id("UpgradeModule", "identifier"))
    case "upgradecategory" => Some(Id("UpgradeCategory", "identifier"))
    case "talenttrees" => Some(Context(None))
    case "talenttree" => Some(Id("TalentTree", "jobidentifier"))
    case "talents" => Some(Context(None))
    case "talent" => Some(Id("Talent", "identifier"))
    case "jobs" => Some(Context(None))
    case "job" => Some(Id("Job", "identifier"))
    case "corpses" => Some(Context(None))
    case "corpse" => Some(Id("Corpse", "identifier"))
    case "style" => Some(Special("Style"))
    case "backgroundcreatures" => Some(Context(Some("backgroundcreature")))
    case "backgroundcreature" => Some(Id("BackgroundCreature", ""))
    case "randomevents" => Some(Context(None))
    case "eventset" => Some(Id("EventSet", "identifier"))
    case "missions" => Some(Context(Some("mission")))
    case "mission" => Some(Context(Some("Mission")))
    case "abandonedoutpostmission" => Some(Id("Mission.Outpost", "identifier"))
    case "crawlerlairmission" => Some(Id("Mission.AbandonedOutpost", "identifier"))
    case "salvagemission" => Some(Id("Mission.Salvage", "identifier"))
    case "monstermission" => Some(Id("Mission.Monster", "identifier"))
    case "piratemission" => Some(Id("Mission.Pirate", "identifier"))
    case "mudraptorlairmission" => Some(Id("Mission.MudraptorLair", "identifier"))
    case "thresherlairmission" => Some(Id("Mission.ThresherLair", "identifier"))
    case "huskcrawlerlairmission" => Some(Id("Mission.HuskCrawlerLair", "identifier"))
    case "outpostdestroymission" => Some(Id("Mission.OutpostDestroy", "identifier"))
    case "mineralmission" => Some(Id("Mission.Mineral", "identifier"))
    case "gotomission" => Some(Id("Mission.Goto", "identifier"))
    case "escortmission" => Some(Id("Mission.Escort", "identifier"))
    case "outpostmission" => Some(Id("Mission.Outpost", "identifier"))
    case "cargomission" => Some(Id("Mission.Cargo", "identifier"))
    case "eventprefabs" => Some(Context(None))
    case "scriptedevent" => Some(Id("ScriptedEvent", "identifier"))
    case "triggerevent" => Some(Id("TriggerEvent", "identifier"))
    case "cavegenerationparameters" => Some(Context(None))
    case "cave" => Some(Id("Cave", "identifier"))
    case "outpostgenerationparameters" => Some(Context(None))
    case "outpostconfig" => Some(Id("OutpostConfig", "identifier"))
    case "mapgenerationparameters" => Some(Special("MapGenerationParameters"))
    case "orders" => Some(Context(None))
    case "order" => Some(Id("Order", "identifier"))
    case "factions" => Some(Context(None))
    case "faction" => Some(Id("Faction", "identifier"))
    case "levelgenerationparameters" => Some(Context(Some("levelgenerationparameter")))
    case "levelgenerationparameter" => Some(Id("LevelGenerationParameter", "identifier"))
    case "biomes" => Some(Context(Some("biome")))
    case "biome" => Some(Id("Biome", "identifier"))
    case "locationtypes" => Some(Context(Some("locationtype")))
    case "locationtype" => Some(Id("LocationType", "identifier"))
    case "charactervariant" => Some(Id("Charactervariant", "speciesname"))
    case "wreckaiconfig" => Some(Id("WreckAIConfig", "Entity"))
    case "eventsprites" => Some(Context(Some("eventsprite")))
    case "eventsprite" => Some(Id("EventSprites", "identifier"))
    case "npcsets" => Some(Context(None))
    case "npcset" => Some(Context(Some("npc")))
    case "npc" => Some(Id("NPC", "identifier"))
    case _ => None
  }

  /** A rule table: the static one, or any other for the properties that hold whatever its entries. */
  type Table = string -> Option<Rule>

  /** What one walk collects: added ids, overridden ids and tags no rule knew. */
  datatype Scan = Scan(adds: set<string>, overrides: set<string>, unknown: set<string>) {
    function Union(other: Scan): Scan {
      Scan(adds + other.adds, overrides + other.overrides, unknown + other.unknown)
    }
  }

  const Empty := Scan({}, {}, {})

  /** One identifier, into the overrides when the flag is set and into the adds otherwise. */
  function Emit(isOverride: bool, id: string): (s: Scan)
    ensures s.unknown == {} && s.adds + s.overrides == {id}
    ensures if isOverride then s.adds == {} else s.overrides == {}
  {
    if isOverride then Scan({}, {id}, {}) else Scan({id}, {}, {})
  }

  /**
   * The rule applied to a popped node: the rule of its own lower-case tag,
   * else the rule of the inherited context (looked up verbatim), else none.
   */
  function Resolve(rules: Table, tag: string, ctx: Option<string>): (r: Option<Rule>)
    ensures rules(Lower(tag)).Some? ==> r == rules(Lower(tag))
    ensures rules(Lower(tag)).None? && Truthy(ctx) ==> r == rules(ctx.value)
    ensures rules(Lower(tag)).None? && !Truthy(ctx) ==> r == None
  {
    var own := rules(Lower(tag));
    if own.Some? then own
    else if Truthy(ctx) then rules(ctx.value)
    else None
  }

  /** The context a context rule hands to the children it pushes. */
  function NextContext(contextType: Option<string>, ctx: Option<string>): Option<string> {
    if Truthy(contextType) then contextType else ctx
  }

  /** `_make_id_rule`: the configured attribute when it is non-empty, else the tag. */
  function IdRuleValue(tag: string, attrs: Attributes, prefix: string, field: string): string {
    var v := Get(attrs, field);
    prefix + "." + (if Truthy(v) then v.value else tag)
  }

  /** The animation type for the fallback: exact attribute first, then a case-insensitive lookup. */
  function AnimationType(attrs: Attributes): Option<string> {
    var exact := Get(attrs, "animationtype");
    if Truthy(exact) then exact else GetIgnoreCase(attrs, "animationtype")
  }

  /** `_handle_fallback`: an animation id, nothing, or the tag recorded as unknown. */
  function Fallback(tag: string, attrs: Attributes, isOverride: bool): Scan {
    var anim := AnimationType(attrs);
    if !Truthy(anim) then Scan({}, {}, {tag})
    else if Lower(anim.value) in {"swimslow", "swimfast"} then Emit(isOverride, "WaterAnimation." + tag)
    else if Lower(anim.value) in {"walk", "run", "crouch"} then Emit(isOverride, "GroundAnimation." + tag)
    else Empty
  }

  /**
   * The reference definition of the walk: what visiting `n` with flag
   * `isOverride` and context `ctx` contributes, by recursion over the tree.
   */
  function Visit(rules: Table, n: Node, isOverride: bool, ctx: Option<string>): Scan
    decreases n, 1, 0
  {
    if !n.Element? then Empty
    else
      match Resolve(rules, n.tag, ctx)
      case Some(Context(ct)) => VisitFrom(rules, n, 0, isOverride, NextContext(ct, ctx))
      case Some(Override) => VisitFrom(rules, n, 0, true, ctx)
      case Some(Id(prefix, field)) => Emit(isOverride, IdRuleValue(n.tag, n.attributes, prefix, field))
      case Some(Special(lit)) => Emit(isOverride, lit)
      case Some(Ignore) => Empty
      case None => Fallback(n.tag, n.attributes, isOverride)
  }

  /** The non-comment children of `n` from position `i` on, all with the same flag and context. */
  function VisitFrom(rules: Table, n: Node, i: nat, isOverride: bool, ctx: Option<string>): Scan
    requires n.Element? && i <= |n.children|
    decreases n, 0, |n.children| - i
  {
    if i == |n.children| then Empty
    else
      var rest := VisitFrom(rules, n, i + 1, isOverride, ctx);
      if n.children[i].Element? then Visit(rules, n.children[i], isOverride, ctx).Union(rest) else rest
  }

  // ----- the explicit stack -----

  datatype Item = Item(node: Node, isOverride: bool, ctx: Option<string>)

  /** What a stack still has to contribute. */
  function VisitStack(rules: Table, stack: seq<Item>): Scan {
    if stack == [] then Empty
    else VisitStack(rules, stack[..|stack| - 1]).Union(Visit(rules, stack[|stack| - 1].node, stack[|stack| - 1].isOverride, stack[|stack| - 1].ctx))
  }

  /** The items a context or override rule pushes for the non-comment children of `n`. */
  function ChildItems(n: Node, isOverride: bool, ctx: Option<string>): seq<Item> {
    ItemsOf(NonCommentChildren(n), isOverride, ctx)
  }

  function ItemsOf(ns: seq<Node>, isOverride: bool, ctx: Option<string>): (r: seq<Item>)
    ensures |r| == |ns|
    ensures forall i :: 0 <= i < |ns| ==> r[i] == Item(ns[i], isOverride, ctx)
  {
    if ns == [] then [] else [Item(ns[0], isOverride, ctx)] + ItemsOf(ns[1..], isOverride, ctx)
  }

  lemma {:induction false} VisitStackAppend(rules: Table, a: seq<Item>, b: seq<Item>)
    ensures VisitStack(rules, a + b) == VisitStack(rules, a).Union(VisitStack(rules, b))
    decreases |b|
  {
    if b == [] {
      assert a + b == a;
    } else {
      var b' := b[..|b| - 1];
      assert (a + b)[..|a + b| - 1] == a + b';
      VisitStackAppend(rules, a, b');
    }
  }

  lemma {:induction false} VisitStackCons(rules: Table, it: Item, rest: seq<Item>)
    ensures VisitStack(rules, [it] + rest) == Visit(rules, it.node, it.isOverride, it.ctx).Union(VisitStack(rules, rest))
  {
    VisitStackAppend(rules, [it], rest);
    assert [it][..0] == [];
  }

  /** Visiting the children from position `i` is visiting the items pushed for them. */
  lemma {:induction false} VisitFromItems(rules: Table, n: Node, i: nat, isOverride: bool, ctx: Option<string>)
    requires n.Element? && i <= |n.children|
    ensures VisitFrom(rules, n, i, isOverride, ctx) == VisitStack(rules, ItemsOf(Elements(n.children[i..]), isOverride, ctx))
    decreases |n.children| - i
  {
    if i == |n.children| {
      assert n.children[i..] == [];
    } else {
      VisitFromItems(rules, n, i + 1, isOverride, ctx);
      var cs := n.children[i..];
      assert cs[1..] == n.children[i + 1..];
      assert cs[0] == n.children[i];
      if n.children[i].Element? {
        assert Elements(cs) == [cs[0]] + Elements(cs[1..]);
        assert ItemsOf(Elements(cs), isOverride, ctx)
            == [Item(cs[0], isOverride, ctx)] + ItemsOf(Elements(cs[1..]), isOverride, ctx);
        VisitStackCons(rules, Item(cs[0], isOverride, ctx), ItemsOf(Elements(cs[1..]), isOverride, ctx));
      } else {
        assert Elements(cs) == Elements(cs[1..]);
      }
    }
  }

  /**
   * One rule application to a popped item (the `_handle_*` functions): what
   * it records and the items it pushes.
   */
  function Apply(rules: Table, it: Item): (Scan, seq<Item>) {
    var n := it.node;
    if !n.Element? then (Empty, [])
    else
      match Resolve(rules, n.tag, it.ctx)
      case Some(Context(ct)) => (Empty, ChildItems(n, it.isOverride, NextContext(ct, it.ctx)))
      case Some(Override) => (Empty, ChildItems(n, true, it.ctx))
      case Some(Id(prefix, field)) => (Emit(it.isOverride, IdRuleValue(n.tag, n.attributes, prefix, field)), [])
      case Some(Special(lit)) => (Emit(it.isOverride, lit), [])
      case Some(Ignore) => (Empty, [])
      case None => (Fallback(n.tag, n.attributes, it.isOverride), [])
  }

  /**
   * One step of the stack machine is sound: what the item records now, plus
   * what the items it pushes will record, is what the reference walk gives
   * for it; and the pushed items are strictly smaller.
   */
  lemma ApplySound(rules: Table, it: Item)
    ensures Visit(rules, it.node, it.isOverride, it.ctx) == Apply(rules, it).0.Union(VisitStack(rules, Apply(rules, it).1))
    ensures StackSize(Apply(rules, it).1) < Size(it.node)
  {
    var n, ov, ctx := it.node, it.isOverride, it.ctx;
    if n.Element? {
      var r := Resolve(rules, n.tag, ctx);
      if r.Some? && r.value.Context? {
        var next := NextContext(r.value.contextType, ctx);
        assert Visit(rules, n, ov, ctx) == VisitFrom(rules, n, 0, ov, next);
        assert Apply(rules, it) == (Empty, ChildItems(n, ov, next));
        ApplyDescends(rules, n, ov, next);
      } else if r == Some(Override) {
        assert Visit(rules, n, ov, ctx) == VisitFrom(rules, n, 0, true, ctx);
        assert Apply(rules, it) == (Empty, ChildItems(n, true, ctx));
        ApplyDescends(rules, n, true, ctx);
      } else {
        ApplyLeaf(rules, it);
      }
    }
  }

  lemma ApplyDescends(rules: Table, n: Node, ov: bool, ctx: Option<string>)
    requires n.Element?
    ensures VisitFrom(rules, n, 0, ov, ctx) == Empty.Union(VisitStack(rules, ChildItems(n, ov, ctx)))
    ensures StackSize(ChildItems(n, ov, ctx)) < Size(n)
  {
    assert n.children[0..] == n.children;
    VisitFromItems(rules, n, 0, ov, ctx);
    StackSizeItems(n.children, ov, ctx);
  }

  lemma ApplyLeaf(rules: Table, it: Item)
    requires it.node.Element?
    requires var r := Resolve(rules, it.node.tag, it.ctx); !(r.Some? && (r.value.Context? || r.value.Override?))
    ensures Visit(rules, it.node, it.isOverride, it.ctx) == Apply(rules, it).0.Union(VisitStack(rules, Apply(rules, it).1))
    ensures StackSize(Apply(rules, it).1) < Size(it.node)
  {
    var n, ov := it.node, it.isOverride;
    var r := Resolve(rules, n.tag, it.ctx);
    var s := if r.None? then Fallback(n.tag, n.attributes, ov)
             else if r.value.Id? then Emit(ov, IdRuleValue(n.tag, n.attributes, r.value.prefix, r.value.field))
             else if r.value.Special? then Emit(ov, r.value.literal)
             else Empty;
    assert Apply(rules, it) == (s, []);
    assert Visit(rules, n, ov, it.ctx) == s;
    assert s.Union(Empty) == s;
  }

  /** The size of a tree, which the walk's stack measure is built on. */
  function Size(n: Node): nat
    decreases n, 1
  {
    if n.Element? then 1 + SizeAll(n.children) else 1
  }

  function SizeAll(ns: seq<Node>): nat
    decreases ns, 0
  {
    if ns == [] then 0 else Size(ns[0]) + SizeAll(ns[1..])
  }

  function StackSize(stack: seq<Item>): nat {
    if stack == [] then 0 else StackSize(stack[..|stack| - 1]) + Size(stack[|stack| - 1].node)
  }

  lemma {:induction false} StackSizeAppend(a: seq<Item>, b: seq<Item>)
    ensures StackSize(a + b) == StackSize(a) + StackSize(b)
    decreases |b|
  {
    if b == [] {
      assert a + b == a;
    } else {
      assert (a + b)[..|a + b| - 1] == a + b[..|b| - 1];
      StackSizeAppend(a, b[..|b| - 1]);
    }
  }

  lemma {:induction false} StackSizeItems(ns: seq<Node>, ov: bool, ctx: Option<string>)
    ensures StackSize(ItemsOf(Elements(ns), ov, ctx)) <= SizeAll(ns)
    decreases |ns|
  {
    if ns != [] {
      StackSizeItems(ns[1..], ov, ctx);
      var tail := ItemsOf(Elements(ns[1..]), ov, ctx);
      if ns[0].Element? {
        assert Elements(ns) == [ns[0]] + Elements(ns[1..]);
        var it := Item(ns[0], ov, ctx);
        assert ItemsOf(Elements(ns), ov, ctx) == [it] + tail;
        StackSizeAppend([it], tail);
        assert [it][..0] == [];
      } else {
        assert Elements(ns) == Elements(ns[1..]);
      }
    }
  }

  /** `_parse_loop`: the explicit-stack walk, which computes exactly the reference walk. */
  method ParseLoop(rules: Table, root: Node) returns (scan: Scan)
    ensures scan == Visit(rules, root, false, None)
  {
    var stack := [Item(root, false, None)];
    scan := Empty;
    assert [Item(root, false, None)][..0] == [];
    while stack != []
      invariant scan.Union(VisitStack(rules, stack)) == Visit(rules, root, false, None)
      decreases StackSize(stack)
    {
      var top := stack[|stack| - 1];
      ghost var before := stack;
      stack := stack[..|stack| - 1];
      ApplySound(rules, top);
      var (recorded, pushed) := Apply(rules, top);
      VisitStackAppend(rules, stack, pushed);
      StackSizeAppend(stack, pushed);
      ScanUnionShuffle(scan, recorded, VisitStack(rules, stack), VisitStack(rules, pushed));
      assert VisitStack(rules, before) == VisitStack(rules, stack).Union(Visit(rules, top.node, top.isOverride, top.ctx));
      scan := scan.Union(recorded);
      stack := stack + pushed;
    }
  }

  lemma ScanUnionShuffle(a: Scan, b: Scan, c: Scan, d: Scan)
    ensures a.Union(b).Union(c.Union(d)) == a.Union(c.Union(b.Union(d)))
  {
  }

  /** The tags of documents that `extract_ids` returns empty for without walking them. */
  const WrapperTags: set<string> := {"infotext", "infotexts", "contentpackage", "english"}

  /** `extract_ids` as a function of the document. */
  function ExtractResult(root: Option<Node>): Scan {
    if root.None? || Lower(Tag(root.value)) in WrapperTags then Empty
    else Visit(RuleFor, root.value, false, None)
  }

  /** The identifier sets of one document (`IDParserUnit`). */
  datatype IdUnit = IdUnit(addId: set<string>, overrideId: set<string>)

  /** `IDExtractor`: the only state kept across calls is the diagnostic unknown-tag cache. */
  class IdExtractor {
    var unknownTags: set<string>

    constructor ()
      ensures unknownTags == {}
    {
      unknownTags := {};
    }

    /** `extract_ids`: the sets are a function of the document; unknown tags accumulate. */
    method ExtractIds(root: Option<Node>) returns (unit: IdUnit)
      modifies this
      ensures unit == IdUnit(ExtractResult(root).adds, ExtractResult(root).overrides)
      ensures unknownTags == old(unknownTags) + ExtractResult(root).unknown
    {
      if root.None? {
        return IdUnit({}, {});
      }
      if Lower(Tag(root.value)) in WrapperTags {
        return IdUnit({}, {});
      }
      var scan := ParseLoop(RuleFor, root.value);
      unknownTags := unknownTags + scan.unknown;
      unit := IdUnit(scan.adds, scan.overrides);
    }
  }

  // ----- properties of the walk -----

  /** The early return agrees with the walk: every wrapper tag is an ignore rule. */
  lemma WrapperTagsAreIgnored(root: Node)
    requires root.Element? && Lower(root.tag) in WrapperTags
    ensures Visit(RuleFor, root, false, None) == Empty
  {
  }

  /** An id rule records exactly one identifier, in the set the flag selects, and does not descend. */
  lemma IdRuleEmitsOne(rules: Table, n: Node, ov: bool, ctx: Option<string>, prefix: string, field: string)
    requires n.Element? && Resolve(rules, n.tag, ctx) == Some(Id(prefix, field))
    ensures Visit(rules, n, ov, ctx).unknown == {}
    ensures ov ==> Visit(rules, n, ov, ctx) == Scan({}, {IdRuleValue(n.tag, n.attributes, prefix, field)}, {})
    ensures !ov ==> Visit(rules, n, ov, ctx) == Scan({IdRuleValue(n.tag, n.attributes, prefix, field)}, {}, {})
  {
  }

  /** Ignore rules contribute nothing; special rules contribute their literal whatever the attributes. */
  lemma IgnoreAndSpecialRules(rules: Table, n: Node, ov: bool, ctx: Option<string>)
    requires n.Element? && Resolve(rules, n.tag, ctx).Some?
    ensures Resolve(rules, n.tag, ctx).value == Ignore ==> Visit(rules, n, ov, ctx) == Empty
    ensures Resolve(rules, n.tag, ctx).value.Special? ==>
      Visit(rules, n, ov, ctx) == Emit(ov, Resolve(rules, n.tag, ctx).value.literal)
  {
  }

  /**
   * The context is looked up verbatim: the `mission` rule hands its children
   * the context `Mission`, which names no rule, so those children fall back.
   */
  lemma MissionContextFallsBack(n: Node, ov: bool)
    requires n.Element? && RuleFor(Lower(n.tag)).None?
    ensures Visit(RuleFor, n, ov, Some("Mission")) == Fallback(n.tag, n.attributes, ov)
  {
    MissionNamesNoRule();
    assert Resolve(RuleFor, n.tag, Some("Mission")) == None;
  }

  lemma MissionNamesNoRule()
    ensures RuleFor("Mission") == None
  {
  }

  /** The fallback never descends: the children of an unmatched node do not matter. */
  lemma FallbackIgnoresChildren(rules: Table, n: Node, ov: bool, ctx: Option<string>, cs: seq<Node>)
    requires n.Element? && Resolve(rules, n.tag, ctx).None?
    ensures Visit(rules, n, ov, ctx) == Visit(rules, n.(children := cs), ov, ctx)
    ensures Visit(rules, n, ov, ctx) == Fallback(n.tag, n.attributes, ov)
  {
  }

  /**
   * Below an override node the flag is never reset: a walk that starts with
   * the flag set adds nothing, and overrides exactly what the same walk
   * without the flag would add or override.
   */
  lemma {:induction false} OverrideFlagSticks(rules: Table, n: Node, ctx: Option<string>)
    ensures Visit(rules, n, true, ctx).adds == {}
    ensures Visit(rules, n, true, ctx).overrides == Visit(rules, n, false, ctx).adds + Visit(rules, n, false, ctx).overrides
    ensures Visit(rules, n, true, ctx).unknown == Visit(rules, n, false, ctx).unknown
    decreases n, 1, 0
  {
    if n.Element? {
      var r := Resolve(rules, n.tag, ctx);
      if r.Some? && r.value.Context? {
        var next := NextContext(r.value.contextType, ctx);
        assert Visit(rules, n, true, ctx) == VisitFrom(rules, n, 0, true, next);
        assert Visit(rules, n, false, ctx) == VisitFrom(rules, n, 0, false, next);
        OverrideFlagSticksFrom(rules, n, 0, next);
      } else if r == Some(Override) {
        assert Visit(rules, n, true, ctx) == VisitFrom(rules, n, 0, true, ctx);
        assert Visit(rules, n, false, ctx) == VisitFrom(rules, n, 0, true, ctx);
        OverrideFlagSticksFrom(rules, n, 0, ctx);
      } else {
        OverrideFlagLeaf(rules, n, ctx);
      }
    }
  }

  /** The flag only selects the destination set of a rule that does not descend. */
  lemma OverrideFlagLeaf(rules: Table, n: Node, ctx: Option<string>)
    requires n.Element?
    requires var r := Resolve(rules, n.tag, ctx); !(r.Some? && (r.value.Context? || r.value.Override?))
    ensures Visit(rules, n, true, ctx).adds == {}
    ensures Visit(rules, n, true, ctx).overrides == Visit(rules, n, false, ctx).adds + Visit(rules, n, false, ctx).overrides
    ensures Visit(rules, n, true, ctx).unknown == Visit(rules, n, false, ctx).unknown
  {
    var r := Resolve(rules, n.tag, ctx);
    var id := if r.None? then "" else if r.value.Id? then IdRuleValue(n.tag, n.attributes, r.value.prefix, r.value.field)
              else if r.value.Special? then r.value.literal else "";
    if r.None? {
      assert Visit(rules, n, true, ctx) == Fallback(n.tag, n.attributes, true);
      assert Visit(rules, n, false, ctx) == Fallback(n.tag, n.attributes, false);
    } else if r.value.Ignore? {
      assert Visit(rules, n, true, ctx) == Empty == Visit(rules, n, false, ctx);
    } else {
      assert Visit(rules, n, true, ctx) == Emit(true, id);
      assert Visit(rules, n, false, ctx) == Emit(false, id);
    }
  }

  lemma {:induction false} OverrideFlagSticksFrom(rules: Table, n: Node, i: nat, ctx: Option<string>)
    requires n.Element? && i <= |n.children|
    ensures VisitFrom(rules, n, i, true, ctx).adds == {}
    ensures VisitFrom(rules, n, i, true, ctx).overrides == VisitFrom(rules, n, i, false, ctx).adds + VisitFrom(rules, n, i, false, ctx).overrides
    ensures VisitFrom(rules, n, i, true, ctx).unknown == VisitFrom(rules, n, i, false, ctx).unknown
    decreases n, 0, |n.children| - i
  {
    if i < |n.children| {
      OverrideFlagSticksFrom(rules, n, i + 1, ctx);
      if n.children[i].Element? {
        OverrideFlagSticks(rules, n.children[i], ctx);
      }
    }
  }

  /** Everything below an `override` element lands in the overrides. */
  lemma OverrideNodeAddsNothing(n: Node, ov: bool, ctx: Option<string>)
    requires n.Element? && Lower(n.tag) == "override"
    ensures Visit(RuleFor, n, ov, ctx).adds == {}
  {
    OverrideFlagSticksFrom(RuleFor, n, 0, ctx);
  }
}
