/**
 * The content toggler (`PartsManager`): regions of a content file between
 * `BTM:` start and end comments are switched on or off by turning their
 * nodes into commented-out elements and back, entries of `filelist.xml`
 * named by `modparts.xml` are switched the same way, and the files they
 * name are renamed between `.xml` and `.xml_off`.
 *
 * A loaded document is the sequence of its replaceable nodes, indexed by
 * position (the `index` of a node); `replace(index, node)` overwrites one
 * slot, so a document being rewritten is an `array<Node>`.  Locating the
 * regions is the XML library's job and is an input here.  The condition
 * evaluator is the parameter `eval`.
 */
module Parts {
  import opened Wrappers
  import opened Xml
  import Package

  type Eval = (string, set<string>) -> bool

  // ----- attributes written inside a comment: `key="(.*?)"` -----

  /**
   * The text up to the first `"`, provided no newline comes first (the
   * lazy `.*?` stops at the first quote, and `.` does not match `\n`).
   */
  function ValueBeforeQuote(t: string): (r: Option<string>)
    ensures r.Some? ==> |r.value| < |t| && t[..|r.value|] == r.value && t[|r.value|] == '"'
    ensures r.Some? ==> forall i :: 0 <= i < |r.value| ==> r.value[i] != '"' && r.value[i] != '\n'
  {
    if t == [] then None
    else if t[0] == '"' then Some([])
    else if t[0] == '\n' then None
    else
      match ValueBeforeQuote(t[1..])
      case None => None
      case Some(v) => Some([t[0]] + v)
  }

  /** What `re.search(key + '="(.*?)"', s).group(1)` finds: the leftmost match. */
  function SearchAttr(s: string, key: string): (r: Option<string>)
    decreases |s|
  {
    var lead := key + "=\"";
    var here := if StartsWith(s, lead) then ValueBeforeQuote(s[|lead|..]) else None;
    if here.Some? then here
    else if s == [] then None
    else SearchAttr(s[1..], key)
  }

  /** A clean value after the key is found; a quote-free prefix of its own cannot match. */
  lemma {:induction false} ValueBeforeQuoteOf(v: string, rest: string)
    requires forall i :: 0 <= i < |v| ==> v[i] != '"' && v[i] != '\n'
    ensures ValueBeforeQuote(v + "\"" + rest) == Some(v)
    decreases |v|
  {
    var t := v + "\"" + rest;
    if v == [] {
      assert t[0] == '"';
    } else {
      assert t[0] == v[0] && t[1..] == v[1..] + "\"" + rest;
      ValueBeforeQuoteOf(v[1..], rest);
      assert [v[0]] + v[1..] == v;
    }
  }

  /** Whatever is found follows `key="` somewhere in the text and is closed by a quote. */
  lemma {:induction false} SearchAttrSound(s: string, key: string)
    ensures var r := SearchAttr(s, key);
      r.Some? ==> exists i :: 0 <= i <= |s| && StartsWith(s[i..], key + "=\"" + r.value + "\"")
    decreases |s|
  {
    var lead := key + "=\"";
    var r := SearchAttr(s, key);
    if StartsWith(s, lead) && ValueBeforeQuote(s[|lead|..]).Some? {
      var v := ValueBeforeQuote(s[|lead|..]).value;
      assert s[|lead|..][..|v|] == v;
      assert s[..|lead + v + "\""|] == lead + v + "\"";
      assert s[0..] == s;
    } else if s != [] {
      SearchAttrSound(s[1..], key);
      if r.Some? {
        var i :| 0 <= i <= |s[1..]| && StartsWith(s[1..][i..], key + "=\"" + r.value + "\"");
        assert s[1..][i..] == s[i + 1..];
      }
    }
  }

  /** A comment that starts with `key="v"` yields `v`. */
  lemma SearchAttrFinds(key: string, v: string, rest: string)
    requires forall i :: 0 <= i < |v| ==> v[i] != '"' && v[i] != '\n'
    ensures SearchAttr(key + "=\"" + v + "\"" + rest, key) == Some(v)
  {
    var lead := key + "=\"";
    var s := key + "=\"" + v + "\"" + rest;
    assert s[..|lead|] == lead;
    assert s[|lead|..] == v + "\"" + rest;
    ValueBeforeQuoteOf(v, rest);
  }

  /** A `setState` value means "active" when its lower case is `on`, `1` or `true`. */
  predicate IsOnState(value: string) {
    Lower(value) in {"on", "1", "true"}
  }

  // ----- one content file: regions between `BTM:` comments -----

  /** A region: the text of its start comment and the index of each of its nodes (`None` when it has none). */
  datatype Region = Region(start: string, members: seq<Option<nat>>)

  /**
   * Whether the region's nodes should end up live, or `None` when the region
   * is left alone: no `setState`, or (going forward) a non-empty condition
   * that does not hold.  Rolling back negates the state and ignores conditions.
   */
  function RegionDesire(r: Region, rollback: bool, active: set<string>, eval: Eval): (d: Option<bool>)
    ensures SearchAttr(r.start, "setState").None? ==> d.None?
    ensures rollback ==> d == (if SearchAttr(r.start, "setState").None? then None
                               else Some(!IsOnState(SearchAttr(r.start, "setState").value)))
    ensures !rollback && d.Some? ==> d.value == IsOnState(SearchAttr(r.start, "setState").value)
    ensures !rollback && SearchAttr(r.start, "setState").Some? ==>
      (d.None? <==> Truthy(SearchAttr(r.start, "conditions")) && !eval(SearchAttr(r.start, "conditions").value, active))
  {
    var state := SearchAttr(r.start, "setState");
    if state.None? then None
    else
      var target := IsOnState(state.value);
      if rollback then Some(!target)
      else
        var cond := SearchAttr(r.start, "conditions");
        if Truthy(cond) && !eval(cond.value, active) then None else Some(target)
  }

  /** Rolling back does not depend on the active mods or on the evaluator. */
  lemma RollbackIgnoresConditions(r: Region, a1: set<string>, e1: Eval, a2: set<string>, e2: Eval)
    ensures RegionDesire(r, true, a1, e1) == RegionDesire(r, true, a2, e2)
  {
  }

  /** A commented-out node holds an element, so turning it back gives an element. */
  predicate WellFormed(n: Node) {
    n.CommentedElement? ==> n.element.Element?
  }

  /**
   * The replacement for one node, if any: a comment that should be live
   * becomes its element (a plain comment cannot, and stays), an element
   * that should not be live becomes a comment, anything else stays.
   */
  function Flip(n: Node, live: bool): (r: Option<Node>)
    ensures r.Some? ==> n.Element? != live
    ensures r.Some? && live ==> n.CommentedElement? && r.value == n.element
    ensures r.Some? && !live ==> r.value == ToComment(n)
    ensures n.CommentedElement? && live ==> r.Some?
    ensures n.Element? && !live ==> r.Some?
  {
    if live && n.IsComment() then ToElement(n)
    else if !live && n.Element? then Some(ToComment(n))
    else None
  }

  /** After a flip the node has the kind it should have, so flipping again does nothing. */
  lemma FlipSettles(n: Node, live: bool)
    requires WellFormed(n)
    ensures var r := Flip(n, live);
      r.Some? ==> WellFormed(r.value) && r.value.Element? == live && Flip(r.value, live).None?
  {
  }

  /** One node of a region: the document after it and whether a replacement happened. */
  function ReplaceStep(doc: seq<Node>, m: Option<nat>, live: bool): (seq<Node>, bool) {
    if m.None? || m.value >= |doc| then (doc, false)
    else
      var f := Flip(doc[m.value], live);
      if f.Some? then (doc[m.value := f.value], true) else (doc, false)
  }

  /** The nodes of one region in order; `modified` accumulates. */
  function RegionPass(doc: seq<Node>, modified: bool, ms: seq<Option<nat>>, live: bool): (seq<Node>, bool)
    decreases |ms|
  {
    if ms == [] then (doc, modified)
    else
      var (doc1, f) := ReplaceStep(doc, ms[0], live);
      RegionPass(doc1, modified || f, ms[1..], live)
  }

  /** All regions in order (`_process_single_xml` without the load and the save). */
  function TogglePass(doc: seq<Node>, modified: bool, regions: seq<Region>,
                      rollback: bool, active: set<string>, eval: Eval): (seq<Node>, bool)
    decreases |regions|
  {
    if regions == [] then (doc, modified)
    else
      var d := RegionDesire(regions[0], rollback, active, eval);
      var (doc1, f) := if d.None? then (doc, modified) else RegionPass(doc, modified, regions[0].members, d.value);
      TogglePass(doc1, f, regions[1..], rollback, active, eval)
  }

  /** Every index a region names lies inside the document. */
  predicate Indexed(doc: seq<Node>, regions: seq<Region>) {
    forall i, k :: 0 <= i < |regions| && 0 <= k < |regions[i].members| && regions[i].members[k].Some? ==>
      regions[i].members[k].value < |doc|
  }

  /** `_process_single_xml` between the load and the save: returns whether any node was replaced. */
  method ToggleRegions(doc: array<Node>, regions: seq<Region>, rollback: bool, active: set<string>, eval: Eval)
    returns (modified: bool)
    requires Indexed(doc[..], regions)
    modifies doc
    ensures (doc[..], modified) == TogglePass(old(doc[..]), false, regions, rollback, active, eval)
  {
    modified := false;
    var i := 0;
    while i < |regions|
      invariant 0 <= i <= |regions|
      invariant TogglePass(doc[..], modified, regions[i..], rollback, active, eval)
             == TogglePass(old(doc[..]), false, regions, rollback, active, eval)
    {
      var region := regions[i];
      assert regions[i..][0] == region && regions[i..][1..] == regions[i + 1..];
      var stateMatch := SearchAttr(region.start, "setState");
      if stateMatch.None? {
        i := i + 1;
        continue;
      }
      var targetIsActive := IsOnState(stateMatch.value);
      var shouldBeActive := false;
      if rollback {
        shouldBeActive := !targetIsActive;
      } else {
        var condition := SearchAttr(region.start, "conditions");
        if Truthy(condition) && !eval(condition.value, active) {
          i := i + 1;
          continue;
        }
        shouldBeActive := targetIsActive;
      }
      assert RegionDesire(region, rollback, active, eval) == Some(shouldBeActive);
      modified := SwitchRegion(doc, region.members, shouldBeActive, modified);
      i := i + 1;
    }
  }

  /** The inner loop of `_process_single_xml`: the nodes of one region flipped towards `live`. */
  method SwitchRegion(doc: array<Node>, ms: seq<Option<nat>>, live: bool, modified: bool)
    returns (modified': bool)
    requires forall k :: 0 <= k < |ms| && ms[k].Some? ==> ms[k].value < doc.Length
    modifies doc
    ensures (doc[..], modified') == RegionPass(old(doc[..]), modified, ms, live)
  {
    modified' := modified;
    var j := 0;
    while j < |ms|
      invariant 0 <= j <= |ms|
      invariant RegionPass(doc[..], modified', ms[j..], live) == RegionPass(old(doc[..]), modified, ms, live)
    {
      assert ms[j..][0] == ms[j] && ms[j..][1..] == ms[j + 1..];
      var m := ms[j];
      j := j + 1;
      if m.None? {
        continue;
      }
      var obj := doc[m.value];
      var newObj: Option<Node> := None;
      if live && obj.IsComment() {
        newObj := ToElement(obj);
        if newObj.None? {
          continue;
        }
      } else if !live && obj.Element? {
        newObj := Some(ToComment(obj));
      }
      if newObj.Some? {
        doc[m.value] := newObj.value;
        modified' := true;
      }
    }
  }

  /** A loaded content file: its replaceable nodes and its regions. */
  datatype ContentDoc = ContentDoc(nodes: seq<Node>, regions: seq<Region>)

  /** What `_process_single_xml` writes back: the new nodes when anything was replaced, else nothing. */
  function ContentOutcome(loaded: Option<ContentDoc>, rollback: bool, active: set<string>, eval: Eval): Option<seq<Node>> {
    if loaded.None? then None
    else
      var (d, modified) := TogglePass(loaded.value.nodes, false, loaded.value.regions, rollback, active, eval);
      if modified then Some(d) else None
  }

  /** `_process_single_xml`: a document that does not load is left alone; the file is saved only when modified. */
  method ProcessContentFile(loaded: Option<ContentDoc>, rollback: bool, active: set<string>, eval: Eval)
    returns (saved: Option<seq<Node>>)
    requires loaded.Some? ==> Indexed(loaded.value.nodes, loaded.value.regions)
    ensures saved == ContentOutcome(loaded, rollback, active, eval)
  {
    if loaded.None? {
      return None;
    }
    var nodes := loaded.value.nodes;
    var doc := new Node[|nodes|](k requires 0 <= k < |nodes| => nodes[k]);
    assert doc[..] == nodes;
    var modified := ToggleRegions(doc, loaded.value.regions, rollback, active, eval);
    if modified {
      saved := Some(doc[..]);
    } else {
      saved := None;
    }
  }

  // ----- what a pass over the regions does -----

  /** A pass that replaces nothing leaves the document as it was; the flag only ever turns on. */
  lemma {:induction false} RegionPassFlag(doc: seq<Node>, modified: bool, ms: seq<Option<nat>>, live: bool)
    ensures var r := RegionPass(doc, modified, ms, live);
      |r.0| == |doc| && (modified ==> r.1) && (!r.1 ==> r.0 == doc)
    decreases |ms|
  {
    if ms != [] {
      var (doc1, f) := ReplaceStep(doc, ms[0], live);
      RegionPassFlag(doc1, modified || f, ms[1..], live);
    }
  }

  lemma {:induction false} TogglePassFlag(doc: seq<Node>, modified: bool, regions: seq<Region>,
                                          rollback: bool, active: set<string>, eval: Eval)
    ensures var r := TogglePass(doc, modified, regions, rollback, active, eval);
      |r.0| == |doc| && (modified ==> r.1) && (!r.1 ==> r.0 == doc)
    decreases |regions|
  {
    if regions != [] {
      var d := RegionDesire(regions[0], rollback, active, eval);
      if d.None? {
        TogglePassFlag(doc, modified, regions[1..], rollback, active, eval);
      } else {
        var (doc1, f) := RegionPass(doc, modified, regions[0].members, d.value);
        RegionPassFlag(doc, modified, regions[0].members, d.value);
        TogglePassFlag(doc1, f, regions[1..], rollback, active, eval);
      }
    }
  }

  /** A file that is not saved is unchanged. */
  lemma NotSavedMeansUnchanged(loaded: ContentDoc, rollback: bool, active: set<string>, eval: Eval)
    ensures ContentOutcome(Some(loaded), rollback, active, eval).None? ==>
      TogglePass(loaded.nodes, false, loaded.regions, rollback, active, eval).0 == loaded.nodes
  {
    TogglePassFlag(loaded.nodes, false, loaded.regions, rollback, active, eval);
  }

  // ----- running the toggler twice -----

  predicate AllWellFormed(doc: seq<Node>) {
    forall k :: 0 <= k < |doc| ==> WellFormed(doc[k])
  }

  /** No node belongs to two different regions (regions between start and end comments do not overlap). */
  predicate Disjoint(regions: seq<Region>) {
    forall a, b, k, l ::
      (0 <= a < b < |regions| && 0 <= k < |regions[a].members| && 0 <= l < |regions[b].members|
       && regions[a].members[k].Some?) ==> regions[a].members[k] != regions[b].members[l]
  }

  predicate Names(ms: seq<Option<nat>>, j: nat) {
    exists k :: 0 <= k < |ms| && ms[k] == Some(j)
  }

  /** A pass touches only the nodes of its region, and keeps every node well formed. */
  lemma {:induction false} RegionPassFrame(doc: seq<Node>, modified: bool, ms: seq<Option<nat>>, live: bool)
    requires AllWellFormed(doc)
    ensures var r := RegionPass(doc, modified, ms, live);
      && |r.0| == |doc| && AllWellFormed(r.0)
      && forall j :: 0 <= j < |doc| && !Names(ms, j) ==> r.0[j] == doc[j]
    decreases |ms|
  {
    if ms != [] {
      var (doc1, f) := ReplaceStep(doc, ms[0], live);
      if ms[0].Some? && ms[0].value < |doc| {
        FlipSettles(doc[ms[0].value], live);
      }
      assert AllWellFormed(doc1);
      RegionPassFrame(doc1, modified || f, ms[1..], live);
      var r := RegionPass(doc, modified, ms, live);
      forall j | 0 <= j < |doc| && !Names(ms, j) ensures r.0[j] == doc[j] {
        forall k | 0 <= k < |ms[1..]| ensures ms[1..][k] != Some(j) {
          assert ms[1..][k] == ms[k + 1];
        }
        assert ms[0] != Some(j);
      }
    }
  }

  /** A node with the kind its region wants stays so for the rest of the pass. */
  lemma {:induction false} RegionPassKeepsSettled(doc: seq<Node>, modified: bool, ms: seq<Option<nat>>, live: bool, j: nat)
    requires j < |doc| && Flip(doc[j], live).None?
    ensures var r := RegionPass(doc, modified, ms, live);
      |r.0| == |doc| && Flip(r.0[j], live).None?
    decreases |ms|
  {
    if ms != [] {
      var (doc1, f) := ReplaceStep(doc, ms[0], live);
      assert doc1[j] == doc[j];
      RegionPassKeepsSettled(doc1, modified || f, ms[1..], live, j);
    }
  }

  /** After a pass every node of the region has the kind the region wants (or cannot be turned). */
  lemma {:induction false} RegionPassSettles(doc: seq<Node>, modified: bool, ms: seq<Option<nat>>, live: bool)
    requires AllWellFormed(doc)
    ensures var r := RegionPass(doc, modified, ms, live);
      |r.0| == |doc| &&
      forall k :: 0 <= k < |ms| && ms[k].Some? && ms[k].value < |doc| ==> Flip(r.0[ms[k].value], live).None?
    decreases |ms|
  {
    if ms != [] {
      var (doc1, f) := ReplaceStep(doc, ms[0], live);
      if ms[0].Some? && ms[0].value < |doc| {
        FlipSettles(doc[ms[0].value], live);
        RegionPassKeepsSettled(doc1, modified || f, ms[1..], live, ms[0].value);
      }
      RegionPassFrame(doc, modified, [ms[0]], live);
      assert RegionPass(doc, modified, [ms[0]], live).0 == doc1;
      RegionPassSettles(doc1, modified || f, ms[1..], live);
      RegionPassFlag(doc, modified, ms, live);
      var r := RegionPass(doc, modified, ms, live);
      forall k | 0 <= k < |ms| && ms[k].Some? && ms[k].value < |doc| ensures Flip(r.0[ms[k].value], live).None? {
        if k > 0 { assert ms[1..][k - 1] == ms[k]; }
      }
    }
  }

  /** A pass over nodes that already have the wanted kind replaces nothing. */
  lemma {:induction false} RegionPassNoop(doc: seq<Node>, modified: bool, ms: seq<Option<nat>>, live: bool)
    requires forall k :: 0 <= k < |ms| && ms[k].Some? && ms[k].value < |doc| ==> Flip(doc[ms[k].value], live).None?
    ensures RegionPass(doc, modified, ms, live) == (doc, modified)
    decreases |ms|
  {
    if ms != [] {
      assert ReplaceStep(doc, ms[0], live) == (doc, false);
      forall k | 0 <= k < |ms[1..]| && ms[1..][k].Some? && ms[1..][k].value < |doc|
        ensures Flip(doc[ms[1..][k].value], live).None?
      {
        assert ms[1..][k] == ms[k + 1];
      }
      RegionPassNoop(doc, modified, ms[1..], live);
    }
  }

  /** Every node of every acting region has the kind that region wants. */
  predicate Settled(doc: seq<Node>, regions: seq<Region>, rollback: bool, active: set<string>, eval: Eval) {
    forall i, k ::
      (0 <= i < |regions| && 0 <= k < |regions[i].members|
       && RegionDesire(regions[i], rollback, active, eval).Some?
       && regions[i].members[k].Some? && regions[i].members[k].value < |doc|) ==>
      Flip(doc[regions[i].members[k].value], RegionDesire(regions[i], rollback, active, eval).value).None?
  }

  /** The regions after the first name none of the nodes of the first. */
  lemma DisjointTail(regions: seq<Region>, j: nat)
    requires Disjoint(regions) && regions != [] && Names(regions[0].members, j)
    ensures Disjoint(regions[1..])
    ensures forall i :: 0 <= i < |regions[1..]| ==> !Names(regions[1..][i].members, j)
  {
    forall i | 0 <= i < |regions[1..]| ensures !Names(regions[1..][i].members, j) {
      assert regions[1..][i] == regions[i + 1];
      var k :| 0 <= k < |regions[0].members| && regions[0].members[k] == Some(j);
      var later := regions[i + 1].members;
      forall l | 0 <= l < |later| ensures later[l] != Some(j) {
        assert regions[0].members[k] != later[l];
      }
    }
  }

  /** The whole pass touches only nodes some region names, and keeps every node well formed. */
  lemma {:induction false} TogglePassFrame(doc: seq<Node>, modified: bool, regions: seq<Region>,
                                           rollback: bool, active: set<string>, eval: Eval, j: nat)
    requires AllWellFormed(doc) && j < |doc|
    requires forall i :: 0 <= i < |regions| ==> !Names(regions[i].members, j)
    ensures var r := TogglePass(doc, modified, regions, rollback, active, eval);
      |r.0| == |doc| && AllWellFormed(r.0) && r.0[j] == doc[j]
    decreases |regions|
  {
    if regions != [] {
      var d := RegionDesire(regions[0], rollback, active, eval);
      assert forall i :: 0 <= i < |regions[1..]| ==> regions[1..][i] == regions[i + 1];
      if d.None? {
        TogglePassFrame(doc, modified, regions[1..], rollback, active, eval, j);
      } else {
        var (doc1, f) := RegionPass(doc, modified, regions[0].members, d.value);
        RegionPassFrame(doc, modified, regions[0].members, d.value);
        TogglePassFrame(doc1, f, regions[1..], rollback, active, eval, j);
      }
    }
  }

  /** After a whole pass over non-overlapping regions, every acting region is settled. */
  lemma {:induction false} TogglePassSettles(doc: seq<Node>, modified: bool, regions: seq<Region>,
                                             rollback: bool, active: set<string>, eval: Eval)
    requires AllWellFormed(doc) && Disjoint(regions)
    ensures var r := TogglePass(doc, modified, regions, rollback, active, eval);
      |r.0| == |doc| && AllWellFormed(r.0) && Settled(r.0, regions, rollback, active, eval)
    decreases |regions|
  {
    if regions != [] {
      var d := RegionDesire(regions[0], rollback, active, eval);
      var r := TogglePass(doc, modified, regions, rollback, active, eval);
      var (doc1, f) := if d.None? then (doc, modified) else RegionPass(doc, modified, regions[0].members, d.value);
      assert r == TogglePass(doc1, f, regions[1..], rollback, active, eval);
      if d.Some? {
        RegionPassFrame(doc, modified, regions[0].members, d.value);
        RegionPassSettles(doc, modified, regions[0].members, d.value);
      }
      assert Disjoint(regions[1..]) by {
        forall a, b, k, l | 0 <= a < b < |regions[1..]| && 0 <= k < |regions[1..][a].members|
          && 0 <= l < |regions[1..][b].members| && regions[1..][a].members[k].Some?
          ensures regions[1..][a].members[k] != regions[1..][b].members[l]
        {
          assert regions[1..][a] == regions[a + 1] && regions[1..][b] == regions[b + 1];
        }
      }
      TogglePassSettles(doc1, f, regions[1..], rollback, active, eval);
      forall i, k | 0 <= i < |regions| && 0 <= k < |regions[i].members|
        && RegionDesire(regions[i], rollback, active, eval).Some?
        && regions[i].members[k].Some? && regions[i].members[k].value < |r.0|
        ensures Flip(r.0[regions[i].members[k].value], RegionDesire(regions[i], rollback, active, eval).value).None?
      {
        if i == 0 {
          var j := regions[0].members[k].value;
          assert Names(regions[0].members, j);
          DisjointTail(regions, j);
          TogglePassFrame(doc1, f, regions[1..], rollback, active, eval, j);
        } else {
          assert regions[1..][i - 1] == regions[i];
        }
      }
    }
  }

  /** A pass over settled regions replaces nothing. */
  lemma {:induction false} TogglePassNoop(doc: seq<Node>, modified: bool, regions: seq<Region>,
                                          rollback: bool, active: set<string>, eval: Eval)
    requires Settled(doc, regions, rollback, active, eval)
    ensures TogglePass(doc, modified, regions, rollback, active, eval) == (doc, modified)
    decreases |regions|
  {
    if regions != [] {
      var d := RegionDesire(regions[0], rollback, active, eval);
      if d.Some? {
        forall k | 0 <= k < |regions[0].members| && regions[0].members[k].Some? && regions[0].members[k].value < |doc|
          ensures Flip(doc[regions[0].members[k].value], d.value).None?
        {
        }
        RegionPassNoop(doc, modified, regions[0].members, d.value);
      }
      assert Settled(doc, regions[1..], rollback, active, eval) by {
        forall i, k | 0 <= i < |regions[1..]| && 0 <= k < |regions[1..][i].members|
          && RegionDesire(regions[1..][i], rollback, active, eval).Some?
          && regions[1..][i].members[k].Some? && regions[1..][i].members[k].value < |doc|
          ensures Flip(doc[regions[1..][i].members[k].value], RegionDesire(regions[1..][i], rollback, active, eval).value).None?
        {
          assert regions[1..][i] == regions[i + 1];
        }
      }
      TogglePassNoop(doc, modified, regions[1..], rollback, active, eval);
    }
  }

  /**
   * Running the toggler a second time with the same active mods (or rolling
   * back twice) replaces nothing, so the file is not saved again.
   */
  lemma SecondRunSavesNothing(loaded: ContentDoc, rollback: bool, active: set<string>, eval: Eval)
    requires AllWellFormed(loaded.nodes) && Disjoint(loaded.regions)
    ensures var first := TogglePass(loaded.nodes, false, loaded.regions, rollback, active, eval).0;
      ContentOutcome(Some(ContentDoc(first, loaded.regions)), rollback, active, eval).None?
  {
    TogglePassSettles(loaded.nodes, false, loaded.regions, rollback, active, eval);
    var first := TogglePass(loaded.nodes, false, loaded.regions, rollback, active, eval).0;
    TogglePassNoop(first, false, loaded.regions, rollback, active, eval);
  }

  // ----- `modparts.xml`: switching entries of `filelist.xml` -----

  /** What one action of `modparts.xml` asks for: the file, the entry tag and whether it should be live. */
  datatype Target = Target(file: string, tag: string, live: bool)

  /**
   * The target of one action, or `None` when it is skipped: going forward a
   * non-empty `conditions` that does not hold, and always a missing or empty
   * `file`, `type` or `setState` (all looked up ignoring case).
   */
  function ActionTarget(action: Node, rollback: bool, active: set<string>, eval: Eval): (t: Option<Target>)
    ensures t.Some? ==> t.value.file != "" && t.value.tag != ""
    ensures t.Some? ==> GetIgnoreCase(AttributesOf(action), "file") == Some(t.value.file)
    ensures t.Some? ==> GetIgnoreCase(AttributesOf(action), "type") == Some(t.value.tag)
    ensures t.Some? ==> Truthy(GetIgnoreCase(AttributesOf(action), "setState"))
    ensures t.Some? ==> t.value.live == (IsOnState(GetIgnoreCase(AttributesOf(action), "setState").value) != rollback)
  {
    var attrs := AttributesOf(action);
    var cond := GetIgnoreCase(attrs, "conditions");
    if !rollback && Truthy(cond) && !eval(cond.value, active) then None
    else
      var file := GetIgnoreCase(attrs, "file");
      var tag := GetIgnoreCase(attrs, "type");
      var state := GetIgnoreCase(attrs, "setState");
      if !(Truthy(file) && Truthy(tag) && Truthy(state)) then None
      else
        var target := IsOnState(state.value);
        Some(Target(file.value, tag.value, if rollback then !target else target))
  }

  /**
   * The gate of an action, both ways: going forward a target is given only
   * when a non-empty `conditions` holds, and an action whose condition holds
   * (or any action, when rolling back) with `file`, `type` and `setState`
   * all non-empty is always used.
   */
  lemma ActionTargetGate(action: Node, rollback: bool, active: set<string>, eval: Eval)
    ensures var t := ActionTarget(action, rollback, active, eval);
      var c := GetIgnoreCase(AttributesOf(action), "conditions");
      t.Some? && !rollback ==> !(Truthy(c) && !eval(c.value, active))
    ensures var attrs := AttributesOf(action);
      var c := GetIgnoreCase(attrs, "conditions");
      var used := Truthy(GetIgnoreCase(attrs, "file")) && Truthy(GetIgnoreCase(attrs, "type"))
                  && Truthy(GetIgnoreCase(attrs, "setState"));
      (rollback || !(Truthy(c) && !eval(c.value, active))) && used ==> ActionTarget(action, rollback, active, eval).Some?
  {
  }

  /**
   * The tag and `file` attribute of a filelist entry, looking through a
   * commented-out entry; `None` for a plain comment or an entry missing either.
   */
  function EntryKey(item: Node): Option<(string, string)> {
    var check := if item.IsComment() then ToElement(item) else Some(item);
    if check.None? then None
    else
      var tag := Tag(check.value);
      var file := GetIgnoreCase(AttributesOf(check.value), "file");
      if tag == "" || !Truthy(file) then None else Some((tag, file.value))
  }

  /** An entry is the one an action names: same tag ignoring case, same path once `posix` normalises both. */
  predicate Matches(item: Node, t: Target, posix: string -> string) {
    var key := EntryKey(item);
    key.Some? && Lower(key.value.0) == Lower(t.tag) && posix(key.value.1) == posix(t.file)
  }

  /** The first matching entry at or after `from`. */
  function FirstMatch(items: seq<Node>, t: Target, posix: string -> string, from: nat): (r: Option<nat>)
    requires from <= |items|
    ensures r.Some? ==> from <= r.value < |items|
    decreases |items| - from
  {
    if from == |items| then None
    else if Matches(items[from], t, posix) then Some(from)
    else FirstMatch(items, t, posix, from + 1)
  }

  /** The first match is a match, nothing before it matches, and no result means no entry matches. */
  lemma {:induction false} FirstMatchSpec(items: seq<Node>, t: Target, posix: string -> string, from: nat)
    requires from <= |items|
    ensures var r := FirstMatch(items, t, posix, from);
      && (r.Some? ==> Matches(items[r.value], t, posix))
      && (r.Some? ==> forall k :: from <= k < r.value ==> !Matches(items[k], t, posix))
      && (r.None? ==> forall k :: from <= k < |items| ==> !Matches(items[k], t, posix))
  {
    FirstMatchHits(items, t, posix, from);
    FirstMatchSkips(items, t, posix, from);
  }

  lemma {:induction false} FirstMatchHits(items: seq<Node>, t: Target, posix: string -> string, from: nat)
    requires from <= |items|
    ensures var r := FirstMatch(items, t, posix, from);
      r.Some? ==> Matches(items[r.value], t, posix)
    decreases |items| - from
  {
    if from < |items| && !Matches(items[from], t, posix) {
      FirstMatchHits(items, t, posix, from + 1);
    }
  }

  lemma {:induction false} FirstMatchSkips(items: seq<Node>, t: Target, posix: string -> string, from: nat)
    requires from <= |items|
    ensures var r := FirstMatch(items, t, posix, from);
      forall k :: from <= k < (if r.Some? then r.value else |items|) ==> !Matches(items[k], t, posix)
    decreases |items| - from
  {
    if from < |items| && !Matches(items[from], t, posix) {
      FirstMatchSkips(items, t, posix, from + 1);
    }
  }

  /** A rename `_process_config` requests of `_rename_file_on_disk`. */
  datatype Rename = Rename(raw: string, toActive: bool)

  /**
   * The state `_process_config` carries from one action to the next: the
   * filelist entries, whether any changed, the renames requested so far, the
   * local `new_node` (unbound until a deactivation binds it) and whether the
   * run stopped on reading it unbound.
   */
  datatype ConfigState = ConfigState(items: seq<Node>, modified: bool, renames: seq<Rename>,
                                     newNode: Option<Node>, failed: bool)

  /**
   * One action as the code stands: activating a commented entry puts
   * `new_node` in its place, which fails while it is unbound and is the
   * node of an earlier deactivation otherwise.
   */
  function ConfigStep(st: ConfigState, t: Option<Target>, posix: string -> string): ConfigState
  {
    if st.failed || t.None? then st
    else
      var j := FirstMatch(st.items, t.value, posix, 0);
      if j.None? then st
      else
        var item := st.items[j.value];
        if t.value.live && item.IsComment() then
          if st.newNode.None? then st.(failed := true)
          else st.(items := st.items[j.value := st.newNode.value], modified := true,
                   renames := st.renames + [Rename(t.value.file, true)])
        else if !t.value.live && !item.IsComment() then
          var node := ToComment(item);
          st.(items := st.items[j.value := node], modified := true,
              renames := st.renames + [Rename(t.value.file, false)], newNode := Some(node))
        else st
  }

  /**
   * Deactivating a live entry comments it out, records the change, binds
   * `new_node` to the commented entry and requests the `.xml` to `.xml_off`
   * rename of the action's file.
   */
  lemma DeactivationParks(st: ConfigState, t: Option<Target>, posix: string -> string, j: nat)
    requires !st.failed && t.Some? && !t.value.live
    requires FirstMatch(st.items, t.value, posix, 0) == Some(j) && !st.items[j].IsComment()
    ensures var r := ConfigStep(st, t, posix);
      && r.items == st.items[j := ToComment(st.items[j])]
      && r.items[j].IsComment()
      && ToElement(r.items[j]) == Some(st.items[j])
      && r.modified && !r.failed
      && r.renames == st.renames + [Rename(t.value.file, false)]
      && r.newNode == Some(ToComment(st.items[j]))
  {
  }

  /** Deactivating an entry that is already commented out changes nothing. */
  lemma DeactivatingCommentIsNoop(st: ConfigState, t: Option<Target>, posix: string -> string, j: nat)
    requires t.Some? && !t.value.live
    requires FirstMatch(st.items, t.value, posix, 0) == Some(j) && st.items[j].IsComment()
    ensures ConfigStep(st, t, posix) == st
  {
  }

  /** The targets of the actions, in order. */
  function TargetsOf(actions: seq<Node>, rollback: bool, active: set<string>, eval: Eval): (ts: seq<Option<Target>>)
    ensures |ts| == |actions|
    ensures forall k :: 0 <= k < |actions| ==> ts[k] == ActionTarget(actions[k], rollback, active, eval)
  {
    if actions == [] then [] else [ActionTarget(actions[0], rollback, active, eval)] + TargetsOf(actions[1..], rollback, active, eval)
  }

  function ConfigFold(st: ConfigState, ts: seq<Option<Target>>, posix: string -> string): ConfigState
    decreases |ts|
  {
    if ts == [] then st else ConfigFold(ConfigStep(st, ts[0], posix), ts[1..], posix)
  }

  /**
   * The result of `_process_config`: not run when either file is missing or
   * does not load; the error raised by the unbound `new_node`, after the
   * renames already done; or the filelist to save (when modified) and the
   * renames.
   */
  datatype ConfigResult =
    | NotRun
    | Unbound(renamesDone: seq<Rename>)
    | Done(saved: Option<seq<Node>>, renames: seq<Rename>)

  function ConfigOutcome(parts: Option<Node>, filelist: Option<seq<Node>>, rollback: bool, active: set<string>,
                         eval: Eval, posix: string -> string): ConfigResult
  {
    if parts.None? || filelist.None? then NotRun
    else
      var st := ConfigFold(ConfigState(filelist.value, false, [], None, false),
                           TargetsOf(NonCommentChildren(parts.value), rollback, active, eval), posix);
      ResultOf(st)
  }

  /** What a finished run reports: the renames done before an unbound `new_node`, or the filelist to save and the renames. */
  function ResultOf(st: ConfigState): ConfigResult {
    if st.failed then Unbound(st.renames)
    else Done(if st.modified then Some(st.items) else None, st.renames)
  }

  /** Folding from the `i`-th target takes that target's step first, so a loop over the targets keeps its invariant. */
  lemma ConfigFoldAt(st: ConfigState, ts: seq<Option<Target>>, i: nat, posix: string -> string,
                     start: ConfigState, st': ConfigState)
    requires i < |ts| && st' == ConfigStep(st, ts[i], posix)
    requires ConfigFold(st, ts[i..], posix) == ConfigFold(start, ts, posix)
    ensures ConfigFold(st', ts[i + 1..], posix) == ConfigFold(start, ts, posix)
  {
    assert ts[i..][0] == ts[i] && ts[i..][1..] == ts[i + 1..];
  }

  /** Once the unbound `new_node` has raised, nothing further happens. */
  lemma {:induction false} ConfigFoldFailed(st: ConfigState, ts: seq<Option<Target>>, posix: string -> string)
    requires st.failed
    ensures ConfigFold(st, ts, posix) == st
    decreases |ts|
  {
    if ts != [] {
      ConfigFoldFailed(st, ts[1..], posix);
    }
  }

  /** Skipping entries that do not match leaves the first match where it was. */
  lemma {:induction false} FirstMatchSkip(items: seq<Node>, t: Target, posix: string -> string, from: nat, j: nat)
    requires from <= j <= |items|
    requires forall k :: from <= k < j ==> !Matches(items[k], t, posix)
    ensures FirstMatch(items, t, posix, from) == FirstMatch(items, t, posix, j)
    decreases j - from
  {
    if from < j {
      FirstMatchSkip(items, t, posix, from + 1, j);
    }
  }

  /** The inner loop of `_process_config`: the first entry the action names. */
  method FindEntry(items: array<Node>, t: Target, posix: string -> string) returns (found: Option<nat>)
    ensures found == FirstMatch(items[..], t, posix, 0)
  {
    var j := 0;
    while j < items.Length
      invariant 0 <= j <= items.Length
      invariant FirstMatch(items[..], t, posix, 0) == FirstMatch(items[..], t, posix, j)
    {
      var key := EntryKey(items[j]);
      if key.Some? {
        var (itemTag, itemFile) := key.value;
        if Lower(itemTag) == Lower(t.tag) && posix(itemFile) == posix(t.file) {
          return Some(j);
        }
      }
      j := j + 1;
    }
    return None;
  }

  /** The body of the inner loop of `_process_config` for one action element. */
  method ApplyAction(items: array<Node>, action: Node, rollback: bool, active: set<string>, eval: Eval,
                     modified: bool, renames: seq<Rename>, newNode: Option<Node>, posix: string -> string)
    returns (modified': bool, renames': seq<Rename>, newNode': Option<Node>, failed: bool)
    modifies items
    ensures ConfigState(items[..], modified', renames', newNode', failed)
         == ConfigStep(ConfigState(old(items[..]), modified, renames, newNode, false),
                       ActionTarget(action, rollback, active, eval), posix)
  {
    modified', renames', newNode', failed := modified, renames, newNode, false;
    var t := ActionTarget(action, rollback, active, eval);
    if t.None? {
      return;
    }
    var target := t.value;
    var found := FindEntry(items, target, posix);
    if found.None? {
      return;
    }
    var j := found.value;
    var item := items[j];
    if target.live && item.IsComment() {
      if newNode.None? {
        failed := true;
        return;
      }
      items[j] := newNode.value;
      modified' := true;
      renames' := renames + [Rename(target.file, true)];
    } else if !target.live && !item.IsComment() {
      newNode' := Some(ToComment(item));
      items[j] := newNode'.value;
      modified' := true;
      renames' := renames + [Rename(target.file, false)];
    }
  }

  /** `_process_config`: `parts` is the loaded `modparts.xml`, `filelist` the children of the loaded `filelist.xml`. */
  method ProcessConfig(parts: Option<Node>, filelist: Option<seq<Node>>, rollback: bool, active: set<string>,
                       eval: Eval, posix: string -> string) returns (result: ConfigResult)
    ensures result == ConfigOutcome(parts, filelist, rollback, active, eval, posix)
  {
    if parts.None? || filelist.None? {
      return NotRun;
    }
    var entries := filelist.value;
    var items := new Node[|entries|](k requires 0 <= k < |entries| => entries[k]);
    assert items[..] == entries;
    result := RunActions(items, NonCommentChildren(parts.value), rollback, active, eval, posix);
  }

  /** The loop of `_process_config` over the action elements of `modparts.xml`, editing `items` in place. */
  method RunActions(items: array<Node>, actions: seq<Node>, rollback: bool, active: set<string>,
                    eval: Eval, posix: string -> string) returns (result: ConfigResult)
    modifies items
    ensures result == ResultOf(ConfigFold(ConfigState(old(items[..]), false, [], None, false),
                                          TargetsOf(actions, rollback, active, eval), posix))
  {
    var modified := false;
    var renames: seq<Rename> := [];
    var newNode: Option<Node> := None;
    ghost var start := ConfigState(items[..], false, [], None, false);
    ghost var ts := TargetsOf(actions, rollback, active, eval);
    var i := 0;
    while i < |actions|
      invariant 0 <= i <= |actions|
      invariant ConfigFold(ConfigState(items[..], modified, renames, newNode, false), ts[i..], posix)
             == ConfigFold(start, ts, posix)
    {
      ghost var st := ConfigState(items[..], modified, renames, newNode, false);
      var failed;
      modified, renames, newNode, failed := ApplyAction(items, actions[i], rollback, active, eval,
                                                        modified, renames, newNode, posix);
      ConfigFoldAt(st, ts, i, posix, start, ConfigState(items[..], modified, renames, newNode, failed));
      i := i + 1;
      if failed {
        ConfigFoldFailed(ConfigState(items[..], modified, renames, newNode, failed), ts[i..], posix);
        return Unbound(renames);
      }
    }
    result := Done(if modified then Some(items[..]) else None, renames);
  }

  // ----- line 173 as intended -----

  /**
   * One action as evidently intended: activating a commented entry puts the
   * element it holds in its place (`item.to_element()`).
   */
  function ConfigStepIntended(st: ConfigState, t: Option<Target>, posix: string -> string): ConfigState
  {
    if st.failed || t.None? then st
    else
      var j := FirstMatch(st.items, t.value, posix, 0);
      if j.None? then st
      else
        var f := Flip(st.items[j.value], t.value.live);
        if f.None? then st
        else st.(items := st.items[j.value := f.value], modified := true,
                 renames := st.renames + [Rename(t.value.file, t.value.live)],
                 newNode := if t.value.live then st.newNode else f)
  }

  /**
   * As written, activating a commented entry never yields an element: the
   * run fails, or the slot receives the comment an earlier deactivation made.
   */
  lemma ActivationStaysComment(st: ConfigState, t: Option<Target>, posix: string -> string, j: nat)
    requires !st.failed && t.Some? && t.value.live
    requires st.newNode.None? || st.newNode.value.IsComment()
    requires FirstMatch(st.items, t.value, posix, 0) == Some(j) && st.items[j].IsComment()
    ensures var r := ConfigStep(st, t, posix);
      (r.failed <==> st.newNode.None?) && (!r.failed ==> |r.items| == |st.items| && r.items[j].IsComment())
  {
  }

  /** The smallest input that shows it: enabling one commented-out entry raises. */
  lemma ActivationUnboundExample()
    ensures var entry := Element("Item", [("file", "a.xml")], [], "");
      var st := ConfigState([ToComment(entry)], false, [], None, false);
      ConfigStep(st, Some(Target("a.xml", "Item", true)), p => p).failed
  {
    var entry := Element("Item", [("file", "a.xml")], [], "");
    var items := [ToComment(entry)];
    var t := Target("a.xml", "Item", true);
    assert GetIgnoreCase(entry.attributes, "file") == Some("a.xml");
    assert EntryKey(items[0]) == Some(("Item", "a.xml"));
    assert Matches(items[0], t, p => p);
    assert FirstMatch(items, t, p => p, 0) == Some(0);
  }

  /**
   * The intended step leaves the chosen entry in the state the action asks
   * for, still naming the same file, and touches no other entry.
   */
  lemma IntendedStepSettles(st: ConfigState, t: Option<Target>, posix: string -> string, j: nat)
    requires !st.failed && t.Some?
    requires FirstMatch(st.items, t.value, posix, 0) == Some(j)
    ensures var r := ConfigStepIntended(st, t, posix);
      && !r.failed && |r.items| == |st.items|
      && r.items[j].IsComment() == !t.value.live
      && Matches(r.items[j], t.value, posix)
      && (forall k :: 0 <= k < |st.items| && k != j ==> r.items[k] == st.items[k])
  {
    FirstMatchSpec(st.items, t.value, posix, 0);
    var item := st.items[j];
    assert EntryKey(item).Some?;
    if item.IsComment() {
      assert item.CommentedElement?;
      assert Tag(item.element) != "";
      assert EntryKey(item.element) == EntryKey(item);
    } else {
      assert EntryKey(ToComment(item)) == EntryKey(item);
    }
  }

  function ConfigFoldIntended(st: ConfigState, ts: seq<Option<Target>>, posix: string -> string): ConfigState
    decreases |ts|
  {
    if ts == [] then st else ConfigFoldIntended(ConfigStepIntended(st, ts[0], posix), ts[1..], posix)
  }

  /** The intended `_process_config` never stops on an unbound name. */
  lemma {:induction false} ConfigFoldIntendedNeverFails(st: ConfigState, ts: seq<Option<Target>>, posix: string -> string)
    requires !st.failed
    ensures !ConfigFoldIntended(st, ts, posix).failed
    ensures |ConfigFoldIntended(st, ts, posix).items| == |st.items|
    decreases |ts|
  {
    if ts != [] {
      ConfigFoldIntendedNeverFails(ConfigStepIntended(st, ts[0], posix), ts[1..], posix);
    }
  }

  function ConfigOutcomeIntended(parts: Option<Node>, filelist: Option<seq<Node>>, rollback: bool, active: set<string>,
                                 eval: Eval, posix: string -> string): (r: ConfigResult)
    ensures r.NotRun? <==> parts.None? || filelist.None?
    ensures !r.Unbound?
  {
    if parts.None? || filelist.None? then NotRun
    else
      var st0 := ConfigState(filelist.value, false, [], None, false);
      var st := ConfigFoldIntended(st0, TargetsOf(NonCommentChildren(parts.value), rollback, active, eval), posix);
      ConfigFoldIntendedNeverFails(st0, TargetsOf(NonCommentChildren(parts.value), rollback, active, eval), posix);
      Done(if st.modified then Some(st.items) else None, st.renames)
  }

  // ----- `_rename_file_on_disk` -----

  /** `str.replace(pat, sub)`: every non-overlapping occurrence, scanning left to right. */
  function ReplaceAll(s: string, pat: string, sub: string): (r: string)
    requires pat != []
    ensures !Contains(s, pat) ==> r == s
    decreases |s|
  {
    if s == [] then []
    else if StartsWith(s, pat) then sub + ReplaceAll(s[|pat|..], pat, sub)
    else [s[0]] + ReplaceAll(s[1..], pat, sub)
  }

  /** The path an entry names once `%ModDir%` and then `LocalMods` are expanded. */
  function ResolvePath(raw: string, steamPath: string, localPath: string): (r: string)
    ensures !Contains(raw, "%ModDir%") && !Contains(raw, "LocalMods") ==> r == raw
  {
    ReplaceAll(ReplaceAll(raw, "%ModDir%", steamPath), "LocalMods", localPath)
  }

  /** An occurrence at the front is replaced, and the scan resumes right after it. */
  lemma ReplaceAllLeading(s: string, pat: string, sub: string)
    requires pat != []
    ensures ReplaceAll(pat + s, pat, sub) == sub + ReplaceAll(s, pat, sub)
  {
    assert StartsWith(pat + s, pat);
    assert (pat + s)[|pat|..] == s;
  }

  /** `%ModDir%/rest` resolves to the Steam mod folder followed by `rest`. */
  lemma ResolveModDir(rest: string, steamPath: string, localPath: string)
    requires !Contains(rest, "%ModDir%") && !Contains(steamPath + rest, "LocalMods")
    ensures ResolvePath("%ModDir%" + rest, steamPath, localPath) == steamPath + rest
  {
    ReplaceAllLeading(rest, "%ModDir%", steamPath);
  }

  /** `LocalMods/rest` resolves to the local mod folder followed by `rest`. */
  lemma ResolveLocalMods(rest: string, steamPath: string, localPath: string)
    requires !Contains("LocalMods" + rest, "%ModDir%") && !Contains(rest, "LocalMods")
    ensures ResolvePath("LocalMods" + rest, steamPath, localPath) == localPath + rest
  {
    ReplaceAllLeading(rest, "LocalMods", localPath);
  }

  /** `Path.name` of a `/`-separated path: the text after the last separator. */
  function NameOf(p: string): (r: string)
    ensures EndsWith(p, r)
    ensures forall i :: 0 <= i < |r| ==> r[i] != '/'
    ensures |r| < |p| ==> p[|p| - |r| - 1] == '/'
  {
    if p == [] || p[|p| - 1] == '/' then [] else NameOf(p[..|p| - 1]) + [p[|p| - 1]]
  }

  /** `Path.suffix == ".xml"`: the name ends in `.xml` after a non-empty stem. */
  predicate HasXmlSuffix(p: string) {
    var name := NameOf(p);
    |name| > 4 && EndsWith(name, ".xml")
  }

  /** `with_name(stem + ".xml_off")` of a path with suffix `.xml`. */
  function DisabledPath(p: string): (r: string)
    requires HasXmlSuffix(p)
  {
    var name := NameOf(p);
    p[..|p| - |name|] + name[..|name| - 4] + ".xml_off"
  }

  /** The disabled name is the enabled one with `_off` appended. */
  lemma DisabledPathAppends(p: string)
    requires HasXmlSuffix(p)
    ensures DisabledPath(p) == p + "_off"
  {
    var name := NameOf(p);
    var dir := p[..|p| - |name|];
    var stem := name[..|name| - 4];
    SplitEnd(p, name);
    SplitEnd(name, ".xml");
    AppendOff(dir, stem);
  }

  lemma AppendOff(dir: string, stem: string)
    ensures dir + stem + ".xml_off" == (dir + (stem + ".xml")) + "_off"
  {
    assert ".xml_off" == ".xml" + "_off";
  }

  /** A string that ends in `suffix` is what comes before it followed by `suffix`. */
  lemma SplitEnd(s: string, suffix: string)
    requires EndsWith(s, suffix)
    ensures s == s[..|s| - |suffix|] + suffix
  {
    assert s == s[..|s| - |suffix|] + s[|s| - |suffix|..];
  }

  /** A name ending in `_off` ends neither in `.xml` nor has that suffix. */
  lemma OffNameIsNotXml(p: string)
    ensures !EndsWith(NameOf(p + "_off"), ".xml")
    ensures !HasXmlSuffix(p + "_off")
  {
    var q := p + "_off";
    var name := NameOf(q);
    if 4 <= |name| {
      var tail := name[|name| - 4..];
      assert tail[3] == name[|name| - 1] == q[|q| - 1] == 'f';
      assert tail != ".xml" by { assert ".xml"[3] == 'l'; }
    }
  }

  /** A file renamed from `from` to `to`. */
  datatype Move = Move(from: string, to: string)

  /**
   * `_rename_file_on_disk` on a disk holding the paths `disk`: the rename it
   * performs, if any.  Only `.xml` paths are touched; activating moves
   * `p_off` to `p` when `p_off` exists, deactivating moves `p` to `p_off`
   * when `p` exists.
   */
  function RenameMove(disk: set<string>, raw: string, toActive: bool, steamPath: string, localPath: string): (r: Option<Move>)
    ensures var p := ResolvePath(raw, steamPath, localPath);
      && (r.Some? <==> HasXmlSuffix(p) && (if toActive then p + "_off" in disk else p in disk))
      && (r.Some? ==> r.value == (if toActive then Move(p + "_off", p) else Move(p, p + "_off")))
  {
    var target := ResolvePath(raw, steamPath, localPath);
    if !HasXmlSuffix(target) then None
    else
      DisabledPathAppends(target);
      OffNameIsNotXml(target);
      if toActive then
        var disabled := DisabledPath(target);
        if disabled in disk then Some(Move(disabled, target)) else None
      else if target in disk then Some(Move(target, DisabledPath(target)))
      else None
  }

  /** A rename on disk (a POSIX rename replaces an existing target). */
  function ApplyMove(disk: set<string>, m: Move): set<string> {
    disk - {m.from} + {m.to}
  }

  /** Deactivating and then activating the same entry puts the disk back as it was. */
  lemma RenameRoundTrip(disk: set<string>, raw: string, steamPath: string, localPath: string)
    requires var p := ResolvePath(raw, steamPath, localPath); HasXmlSuffix(p) && p in disk && p + "_off" !in disk
    ensures var off := RenameMove(disk, raw, false, steamPath, localPath);
      && off.Some?
      && var parked := ApplyMove(disk, off.value);
         var on := RenameMove(parked, raw, true, steamPath, localPath);
         on.Some? && ApplyMove(parked, on.value) == disk
  {
    var p := ResolvePath(raw, steamPath, localPath);
    assert p != p + "_off" by { assert |p| < |p + "_off"|; }
  }

  /** The requested renames, in order, each against the disk the earlier ones left. */
  function ApplyRenames(disk: set<string>, renames: seq<Rename>, steamPath: string, localPath: string): (set<string>, seq<Move>)
    decreases |renames|
  {
    if renames == [] then (disk, [])
    else
      var m := RenameMove(disk, renames[0].raw, renames[0].toActive, steamPath, localPath);
      var next := if m.Some? then ApplyMove(disk, m.value) else disk;
      var (d, ms) := ApplyRenames(next, renames[1..], steamPath, localPath);
      (d, (if m.Some? then [m.value] else []) + ms)
  }

  /**
   * A deactivation rename of an existing `.xml` file parks it: the file
   * moves to its `_off` name and that is the one move made.
   */
  lemma ParkRenameMoves(disk: set<string>, raw: string, steamPath: string, localPath: string)
    requires var p := ResolvePath(raw, steamPath, localPath); HasXmlSuffix(p) && p in disk
    ensures var p := ResolvePath(raw, steamPath, localPath);
      ApplyRenames(disk, [Rename(raw, false)], steamPath, localPath) == (disk - {p} + {p + "_off"}, [Move(p, p + "_off")])
  {
    var p := ResolvePath(raw, steamPath, localPath);
    var rs := [Rename(raw, false)];
    assert rs[1..] == [];
    assert RenameMove(disk, raw, false, steamPath, localPath) == Some(Move(p, p + "_off"));
    assert ApplyRenames(disk - {p} + {p + "_off"}, [], steamPath, localPath) == (disk - {p} + {p + "_off"}, []);
    assert [Move(p, p + "_off")] + [] == [Move(p, p + "_off")];
  }

  /** Every rename made moves an `.xml` path and its `_off` twin, one way or the other. */
  lemma {:induction false} ApplyRenamesMovesXmlOnly(disk: set<string>, renames: seq<Rename>, steamPath: string, localPath: string)
    ensures forall m :: m in ApplyRenames(disk, renames, steamPath, localPath).1 ==>
      (HasXmlSuffix(m.to) && m.from == m.to + "_off") || (HasXmlSuffix(m.from) && m.to == m.from + "_off")
    decreases |renames|
  {
    if renames != [] {
      var m := RenameMove(disk, renames[0].raw, renames[0].toActive, steamPath, localPath);
      var next := if m.Some? then ApplyMove(disk, m.value) else disk;
      ApplyRenamesMovesXmlOnly(next, renames[1..], steamPath, localPath);
    }
  }

  // ----- `do_changes`, `rollback_changes` -----

  /** `_get_target_files`: a file below the mod folder named `*.xml` that is not a manifest. */
  predicate IsTargetFile(p: string, modPath: string) {
    var name := NameOf(p);
    StartsWith(p, modPath + "/") && EndsWith(name, ".xml") && Lower(name) !in Package.XmlSystemFiles
  }

  /** A file parked under its `_off` name is never a content file. */
  lemma ParkedIsNoTarget(p: string, modPath: string)
    ensures !IsTargetFile(p + "_off", modPath)
  {
    OffNameIsNotXml(p);
  }

  /**
   * What one toggling run does: the manifest pass, its renames performed as
   * they were requested, and, unless the manifest pass raised, every target
   * file found afterwards processed independently.
   */
  datatype RunOutcome = RunOutcome(config: ConfigResult, moves: seq<Move>, disk: set<string>,
                                   saves: map<string, seq<Node>>, raised: bool)

  /** The renames a manifest pass requested before it returned or raised. */
  function RenamesOf(c: ConfigResult): seq<Rename> {
    match c
    case NotRun => []
    case Unbound(done) => done
    case Done(_, rs) => rs
  }

  /** `_get_target_files` on a disk holding the paths `disk`. */
  function TargetFiles(disk: set<string>, modPath: string): (ts: set<string>)
    ensures forall p :: p in ts <==> p in disk && IsTargetFile(p, modPath)
  {
    set p | p in disk && IsTargetFile(p, modPath)
  }

  /**
   * The files the content pass rewrites, with what it writes: every target
   * file whose processing saves, read by `load` as it is then.  Files are
   * independent of one another, so the threaded and the sequential
   * variants agree.
   */
  function ContentSaves(targets: set<string>, load: string -> Option<ContentDoc>,
                        rollback: bool, active: set<string>, eval: Eval): (saves: map<string, seq<Node>>)
    ensures forall p :: p in saves <==> p in targets && ContentOutcome(load(p), rollback, active, eval).Some?
    ensures forall p :: p in saves ==> Some(saves[p]) == ContentOutcome(load(p), rollback, active, eval)
  {
    map p | p in targets && ContentOutcome(load(p), rollback, active, eval).Some?
      :: ContentOutcome(load(p), rollback, active, eval).value
  }

  /** The content pass after the manifest pass `config`, once its renames are done. */
  function RunAfter(config: ConfigResult, modPath: string, disk: set<string>, load: string -> Option<ContentDoc>,
                    rollback: bool, active: set<string>, eval: Eval, steamPath: string, localPath: string): (r: RunOutcome)
    ensures r.raised <==> config.Unbound?
    ensures r.raised ==> r.saves == map[]
    ensures !r.raised ==> r.saves == ContentSaves(TargetFiles(r.disk, modPath), load, rollback, active, eval)
    ensures config.NotRun? ==> r.moves == [] && r.disk == disk
    ensures r.config == config
    ensures (r.disk, r.moves) == ApplyRenames(disk, RenamesOf(config), steamPath, localPath)
  {
    var (disk1, moves) := ApplyRenames(disk, RenamesOf(config), steamPath, localPath);
    if config.Unbound? then RunOutcome(config, moves, disk1, map[], true)
    else RunOutcome(config, moves, disk1, ContentSaves(TargetFiles(disk1, modPath), load, rollback, active, eval), false)
  }

  /** `do_changes`: the forward run against the active mod ids. */
  function DoChanges(modPath: string, disk: set<string>, parts: Option<Node>, filelist: Option<seq<Node>>,
                     load: string -> Option<ContentDoc>, active: set<string>, eval: Eval, posix: string -> string,
                     steamPath: string, localPath: string): RunOutcome
  {
    RunAfter(ConfigOutcome(parts, filelist, false, active, eval, posix), modPath, disk, load, false, active, eval,
             steamPath, localPath)
  }

  /** `rollback_changes` and `rollback_changes_no_thread`: the rollback run, with no active ids. */
  function RollbackChanges(modPath: string, disk: set<string>, parts: Option<Node>, filelist: Option<seq<Node>>,
                           load: string -> Option<ContentDoc>, eval: Eval, posix: string -> string,
                           steamPath: string, localPath: string): RunOutcome
  {
    RunAfter(ConfigOutcome(parts, filelist, true, {}, eval, posix), modPath, disk, load, true, {}, eval,
             steamPath, localPath)
  }

  /** The forward run with line 173 as intended: it never raises. */
  function DoChangesIntended(modPath: string, disk: set<string>, parts: Option<Node>, filelist: Option<seq<Node>>,
                             load: string -> Option<ContentDoc>, active: set<string>, eval: Eval, posix: string -> string,
                             steamPath: string, localPath: string): (r: RunOutcome)
    ensures !r.raised
  {
    RunAfter(ConfigOutcomeIntended(parts, filelist, false, active, eval, posix), modPath, disk, load, false, active, eval,
             steamPath, localPath)
  }

  /** A file the manifest pass parked under its `_off` name is not rewritten by the content pass. */
  lemma ParkedFilesNotRewritten(config: ConfigResult, modPath: string, disk: set<string>, load: string -> Option<ContentDoc>,
                                rollback: bool, active: set<string>, eval: Eval, steamPath: string, localPath: string)
    ensures var r := RunAfter(config, modPath, disk, load, rollback, active, eval, steamPath, localPath);
      forall m :: m in r.moves && HasXmlSuffix(m.from) && m.to == m.from + "_off" ==> m.to !in r.saves
  {
    var r := RunAfter(config, modPath, disk, load, rollback, active, eval, steamPath, localPath);
    forall m | m in r.moves && HasXmlSuffix(m.from) && m.to == m.from + "_off" ensures m.to !in r.saves {
      ParkedIsNoTarget(m.from, modPath);
    }
  }

  /** Rolling back a content file consults no condition. */
  lemma {:induction false} TogglePassRollbackIgnoresConditions(doc: seq<Node>, modified: bool, regions: seq<Region>,
                                                              a1: set<string>, e1: Eval, a2: set<string>, e2: Eval)
    ensures TogglePass(doc, modified, regions, true, a1, e1) == TogglePass(doc, modified, regions, true, a2, e2)
    decreases |regions|
  {
    if regions != [] {
      RollbackIgnoresConditions(regions[0], a1, e1, a2, e2);
      var d := RegionDesire(regions[0], true, a1, e1);
      var (doc1, f) := if d.None? then (doc, modified) else RegionPass(doc, modified, regions[0].members, d.value);
      TogglePassRollbackIgnoresConditions(doc1, f, regions[1..], a1, e1, a2, e2);
    }
  }

  /** Rolling back the manifest consults no condition either. */
  lemma TargetsOfRollbackIgnoresConditions(actions: seq<Node>, a1: set<string>, e1: Eval, a2: set<string>, e2: Eval)
    ensures TargetsOf(actions, true, a1, e1) == TargetsOf(actions, true, a2, e2)
  {
    var ts1 := TargetsOf(actions, true, a1, e1);
    var ts2 := TargetsOf(actions, true, a2, e2);
    forall k | 0 <= k < |actions| ensures ts1[k] == ts2[k] {
      assert ts1[k] == ActionTarget(actions[k], true, a1, e1);
    }
  }

  /** The content pass sees a file only through what processing it would save. */
  lemma ContentSavesSeesOutcomes(targets: set<string>, load: string -> Option<ContentDoc>,
                                 rollback: bool, a1: set<string>, e1: Eval, a2: set<string>, e2: Eval)
    requires forall p :: ContentOutcome(load(p), rollback, a1, e1) == ContentOutcome(load(p), rollback, a2, e2)
    ensures ContentSaves(targets, load, rollback, a1, e1) == ContentSaves(targets, load, rollback, a2, e2)
  {
    var m1 := ContentSaves(targets, load, rollback, a1, e1);
    var m2 := ContentSaves(targets, load, rollback, a2, e2);
    forall p | p in m1 ensures p in m2 && m1[p] == m2[p] {
      assert Some(m1[p]) == Some(m2[p]);
    }
  }

  /** `rollback_changes` does the same whatever the condition evaluator says. */
  lemma RollbackIgnoresEval(modPath: string, disk: set<string>, parts: Option<Node>, filelist: Option<seq<Node>>,
                            load: string -> Option<ContentDoc>, e1: Eval, e2: Eval, posix: string -> string,
                            steamPath: string, localPath: string)
    ensures RollbackChanges(modPath, disk, parts, filelist, load, e1, posix, steamPath, localPath)
         == RollbackChanges(modPath, disk, parts, filelist, load, e2, posix, steamPath, localPath)
  {
    if parts.Some? {
      TargetsOfRollbackIgnoresConditions(NonCommentChildren(parts.value), {}, e1, {}, e2);
    }
    var c := ConfigOutcome(parts, filelist, true, {}, e1, posix);
    assert c == ConfigOutcome(parts, filelist, true, {}, e2, posix);
    forall p ensures ContentOutcome(load(p), true, {}, e1) == ContentOutcome(load(p), true, {}, e2) {
      if load(p).Some? {
        TogglePassRollbackIgnoresConditions(load(p).value.nodes, false, load(p).value.regions, {}, e1, {}, e2);
      }
    }
    var (disk1, _) := ApplyRenames(disk, RenamesOf(c), steamPath, localPath);
    ContentSavesSeesOutcomes(TargetFiles(disk1, modPath), load, true, {}, e1, {}, e2);
  }
}
