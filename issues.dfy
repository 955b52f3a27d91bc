/**
 * The dependency check of `process_errors`: every active mod's messages are
 * refreshed from its metadata, and then each of its dependencies may add a
 * conflict message or a "mod not found" error, and each id it overrides
 * that an earlier active mod already overrides adds a warning naming that
 * mod.
 *
 * `process_condition` (the condition language) is not part of this model:
 * it is the parameter `eval`, applied to a condition and the active ids.
 * Python's set iteration order is the parameter `order`.
 */
module Issues {
  import opened Wrappers
  import opened Xml
  import Package
  import LoadOrder

  type Id = LoadOrder.Id
  type ModUnit = Package.ModUnit
  type Dependency = Package.Dependency
  type Message = Package.Message

  /** `process_condition(condition, active ids)`. */
  type Eval = (string, set<Id>) -> bool

  /** A dependency without a condition (or with an empty one) always applies; otherwise its condition decides. */
  predicate Applies(d: Dependency, ids: set<Id>, eval: Eval) {
    !Truthy(d.condition) || eval(d.condition.value, ids)
  }

  /** The result of checking one dependency. */
  datatype Issue = NoIssue | Warning(msg: Message) | Error(msg: Message)

  /** `loc.get_string("mod-unfind-mod", ...)` for a dependency. */
  function MissingMessage(d: Dependency): Message {
    Package.Localized("mod-unfind-mod", [("mod_name", Some(d.name)), ("mod_id", d.steamId)])
  }

  /** The `level` of a conflict, `error` unless the dependency says otherwise. */
  function ConflictLevel(d: Dependency): string {
    Get(d.attributes, "level").GetOr("error")
  }

  function ConflictText(d: Dependency): string {
    Get(d.attributes, "message").GetOr("base-conflict")
  }

  /**
   * One dependency of an active mod: a conflict with an active mod is a
   * warning at level `warning` and an error otherwise; a `requiredAnyOrder`
   * dependency is never reported; any other kind is an error when its mod
   * is not active and its condition applies.
   */
  function IssueOf(d: Dependency, ids: set<Id>, eval: Eval): (r: Issue)
    ensures r.Warning? <==> d.kind == "conflict" && d.Id() in ids && ConflictLevel(d) == "warning"
    ensures r.Warning? ==> r.msg == Package.Literal(ConflictText(d))
    ensures d.kind == "conflict" ==> (r.Error? <==> d.Id() in ids && ConflictLevel(d) != "warning")
    ensures d.kind == "conflict" && r.Error? ==> r.msg == Package.Literal(ConflictText(d))
    ensures d.kind == "requiredAnyOrder" ==> r == NoIssue
    ensures d.kind != "conflict" && d.kind != "requiredAnyOrder" ==>
      (r.Error? <==> d.Id() !in ids && Applies(d, ids, eval)) && (r.Error? ==> r.msg == MissingMessage(d))
    ensures d.kind != "conflict" ==> !r.Warning?
  {
    if d.kind == "conflict" then
      if d.Id() in ids then
        if ConflictLevel(d) == "warning" then Warning(Package.Literal(ConflictText(d)))
        else Error(Package.Literal(ConflictText(d)))
      else NoIssue
    else if d.kind == "requiredAnyOrder" then NoIssue
    else if d.Id() !in ids && Applies(d, ids, eval) then Error(MissingMessage(d))
    else NoIssue
  }

  /** The warnings the first `i` dependencies add, in order. */
  function DepWarnings(deps: seq<Dependency>, i: nat, ids: set<Id>, eval: Eval): (r: seq<Message>)
    requires i <= |deps|
    ensures |r| <= i
  {
    if i == 0 then []
    else
      var w := DepWarnings(deps, i - 1, ids, eval);
      var issue := IssueOf(deps[i - 1], ids, eval);
      if issue.Warning? then w + [issue.msg] else w
  }

  /** The errors the first `i` dependencies add, in order. */
  function DepErrors(deps: seq<Dependency>, i: nat, ids: set<Id>, eval: Eval): (r: seq<Message>)
    requires i <= |deps|
    ensures |r| <= i
  {
    if i == 0 then []
    else
      var e := DepErrors(deps, i - 1, ids, eval);
      var issue := IssueOf(deps[i - 1], ids, eval);
      if issue.Error? then e + [issue.msg] else e
  }

  /** A mod whose dependencies are all active and all conflicts inactive gets no dependency messages. */
  lemma {:induction false} SatisfiedDepsAreQuiet(deps: seq<Dependency>, i: nat, ids: set<Id>, eval: Eval)
    requires i <= |deps|
    requires forall k :: 0 <= k < |deps| ==> (deps[k].kind == "conflict" <==> deps[k].Id() !in ids)
    ensures DepWarnings(deps, i, ids, eval) == [] && DepErrors(deps, i, ids, eval) == []
  {
    if i > 0 {
      SatisfiedDepsAreQuiet(deps, i - 1, ids, eval);
    }
  }

  // ----- override warnings -----

  /** Who first overrides an id: the name and id of a mod. */
  type Binding = (string, Id)

  /** `bind_id` after the first `i` active mods: each overridden id to the first mod overriding it. */
  function BindOf(ms: seq<ModUnit>, i: nat): map<string, Binding>
    requires i <= |ms|
  {
    if i == 0 then map[]
    else
      var b := BindOf(ms, i - 1);
      var m := ms[i - 1];
      b + map o | o in m.overrideId && o !in b :: (m.name, m.Id())
  }

  /** An id is bound exactly when some mod overrides it, and then to the first one that does. */
  lemma {:induction false} BindFirstOverrider(ms: seq<ModUnit>, i: nat)
    requires i <= |ms|
    ensures forall o :: o in BindOf(ms, i) <==> exists k :: 0 <= k < i && o in ms[k].overrideId
    ensures forall o, k ::
      0 <= k < i && o in ms[k].overrideId && (forall j :: 0 <= j < k ==> o !in ms[j].overrideId) ==>
      o in BindOf(ms, i) && BindOf(ms, i)[o] == (ms[k].name, ms[k].Id())
  {
    if i > 0 {
      BindFirstOverrider(ms, i - 1);
    }
  }

  /** `b` is `bind` with the ids of `os` not bound there bound to `m`. */
  ghost predicate BoundTo(b: map<string, Binding>, bind: map<string, Binding>, m: ModUnit, os: set<string>) {
    && b.Keys == bind.Keys + os
    && forall o :: o in b ==> b[o] == if o in bind then bind[o] else (m.name, m.Id())
  }

  /** The inner loop of `bind_id` for one mod: its overridden ids not yet bound go to it. */
  method BindMod(bind: map<string, Binding>, m: ModUnit, overs: seq<string>) returns (b: map<string, Binding>)
    requires LoadOrder.Enumerates(overs, m.overrideId)
    ensures b == bind + map o | o in m.overrideId && o !in bind :: (m.name, m.Id())
  {
    b := bind;
    for j := 0 to |overs|
      invariant BoundTo(b, bind, m, set o | o in overs[..j])
    {
      assert forall o :: o in overs[..j + 1] <==> o in overs[..j] || o == overs[j];
      if overs[j] !in b {
        b := b[overs[j] := (m.name, m.Id())];
      }
    }
    assert overs[..|overs|] == overs;
    assert (set o | o in overs) == m.overrideId;
    BoundToIsUnion(b, bind, m);
  }

  lemma BoundToIsUnion(b: map<string, Binding>, bind: map<string, Binding>, m: ModUnit)
    requires BoundTo(b, bind, m, m.overrideId)
    ensures b == bind + map o | o in m.overrideId && o !in bind :: (m.name, m.Id())
  {
    var expected := bind + map o | o in m.overrideId && o !in bind :: (m.name, m.Id());
    assert b.Keys == expected.Keys;
  }

  /** The loop building `bind_id` over the active mods. */
  method BuildBind(ms: seq<ModUnit>, order: set<string> -> seq<string>) returns (bind: map<string, Binding>)
    requires forall s :: LoadOrder.Enumerates(order(s), s)
    ensures bind == BindOf(ms, |ms|)
  {
    bind := map[];
    for i := 0 to |ms|
      invariant bind == BindOf(ms, i)
    {
      bind := BindMod(bind, ms[i], order(ms[i].overrideId));
    }
  }

  /** `loc.get_string("mod-override-id", ...)`. */
  function OverrideMessage(b: Binding, o: string): Message {
    Package.Localized("mod-override-id", [("mod_name", Some(b.0)), ("mod_id", Some(b.1)), ("key_id", Some(o))])
  }

  /** The override warnings for the first `j` of a mod's overridden ids: one for each id bound to another mod. */
  function OverrideWarnings(id: Id, bind: map<string, Binding>, overs: seq<string>, j: nat): seq<Message>
    requires j <= |overs|
  {
    if j == 0 then []
    else
      var w := OverrideWarnings(id, bind, overs, j - 1);
      var o := overs[j - 1];
      if o in bind && bind[o].1 != id then w + [OverrideMessage(bind[o], o)] else w
  }

  /** A warning names an overridden id exactly when another mod holds its binding. */
  lemma {:induction false} OverrideWarningsSpec(id: Id, bind: map<string, Binding>, overs: seq<string>, j: nat)
    requires j <= |overs|
    ensures forall msg :: msg in OverrideWarnings(id, bind, overs, j) ==>
      exists o :: o in overs[..j] && o in bind && bind[o].1 != id && msg == OverrideMessage(bind[o], o)
    ensures forall o :: o in overs[..j] && o in bind && bind[o].1 != id ==>
      OverrideMessage(bind[o], o) in OverrideWarnings(id, bind, overs, j)
  {
    if j > 0 {
      OverrideWarningsSpec(id, bind, overs, j - 1);
      assert overs[..j] == overs[..j - 1] + [overs[j - 1]];
    }
  }

  /** The first active mod overriding an id is never warned about that id. */
  lemma FirstOverriderQuiet(ms: seq<ModUnit>, k: nat, o: string, overs: seq<string>, b: Binding)
    requires k < |ms| && o in ms[k].overrideId && forall j :: 0 <= j < k ==> o !in ms[j].overrideId
    ensures OverrideMessage(b, o) !in OverrideWarnings(ms[k].Id(), BindOf(ms, |ms|), overs, |overs|)
  {
    BindFirstOverrider(ms, |ms|);
    OverrideWarningsSpec(ms[k].Id(), BindOf(ms, |ms|), overs, |overs|);
  }

  /** An id no mod among the first `i` overrides stays unbound. */
  lemma {:induction false} BindUnbound(ms: seq<ModUnit>, i: nat, o: string)
    requires i <= |ms| && forall j :: 0 <= j < i ==> o !in ms[j].overrideId
    ensures o !in BindOf(ms, i)
  {
    if i > 0 {
      BindUnbound(ms, i - 1, o);
    }
  }

  /** An id is bound to the first of the first `i` mods that overrides it. */
  lemma {:induction false} BindFirstAt(ms: seq<ModUnit>, i: nat, k: nat, o: string)
    requires k < i <= |ms| && o in ms[k].overrideId && forall j :: 0 <= j < k ==> o !in ms[j].overrideId
    ensures o in BindOf(ms, i) && BindOf(ms, i)[o] == (ms[k].name, ms[k].Id())
  {
    if i - 1 > k {
      BindFirstAt(ms, i - 1, k, o);
    } else {
      BindUnbound(ms, k, o);
    }
  }

  /** An overridden id bound to another mod is warned about. */
  lemma {:induction false} OverrideWarnedAt(id: Id, bind: map<string, Binding>, overs: seq<string>, j: nat, o: string)
    requires j <= |overs| && o in overs[..j] && o in bind && bind[o].1 != id
    ensures OverrideMessage(bind[o], o) in OverrideWarnings(id, bind, overs, j)
  {
    assert overs[..j] == overs[..j - 1] + [overs[j - 1]];
    if o != overs[j - 1] {
      OverrideWarnedAt(id, bind, overs, j - 1, o);
    }
  }

  /** A later active mod overriding an id an earlier one (with another id) overrides is warned about it. */
  lemma LaterOverriderWarned(ms: seq<ModUnit>, k: nat, e: nat, o: string, overs: seq<string>)
    requires e < k < |ms| && o in ms[e].overrideId && o in ms[k].overrideId
    requires forall j :: 0 <= j < e ==> o !in ms[j].overrideId
    requires ms[e].Id() != ms[k].Id() && LoadOrder.Enumerates(overs, ms[k].overrideId)
    ensures OverrideMessage((ms[e].name, ms[e].Id()), o) in OverrideWarnings(ms[k].Id(), BindOf(ms, |ms|), overs, |overs|)
  {
    BindFirstAt(ms, |ms|, e, o);
    assert overs[..|overs|] == overs;
    OverrideWarnedAt(ms[k].Id(), BindOf(ms, |ms|), overs, |overs|, o);
  }

  // ----- one mod -----

  /** A mod after `process_errors`: messages refreshed, then dependency messages, then override warnings. */
  function Checked(m: ModUnit, ids: set<Id>, bind: map<string, Binding>, eval: Eval,
                   metaDocFor: string -> Option<Node>, overs: seq<string>): ModUnit
  {
    var u := Package.UpdatedMeta(m, metaDocFor);
    var md := u.metadata;
    var deps := md.dependencies;
    u.(metadata := md.(
      warnings := md.warnings + DepWarnings(deps, |deps|, ids, eval) + OverrideWarnings(m.Id(), bind, overs, |overs|),
      errors := md.errors + DepErrors(deps, |deps|, ids, eval)))
  }

  /** The dependency loop of `process_errors` for one mod: the messages it appends. */
  method DepMessages(deps: seq<Dependency>, ids: set<Id>, eval: Eval) returns (warnings: seq<Message>, errors: seq<Message>)
    ensures warnings == DepWarnings(deps, |deps|, ids, eval) && errors == DepErrors(deps, |deps|, ids, eval)
  {
    warnings, errors := [], [];
    for i := 0 to |deps|
      invariant warnings == DepWarnings(deps, i, ids, eval)
      invariant errors == DepErrors(deps, i, ids, eval)
    {
      var dep := deps[i];
      if dep.kind == "conflict" {
        if dep.Id() in ids {
          var level := Get(dep.attributes, "level").GetOr("error");
          var msg := Get(dep.attributes, "message").GetOr("base-conflict");
          if level == "warning" {
            warnings := warnings + [Package.Literal(msg)];
          } else {
            errors := errors + [Package.Literal(msg)];
          }
        }
      } else if dep.kind == "requiredAnyOrder" {
      } else {
        var isMissing := dep.Id() !in ids;
        if Truthy(dep.condition) {
          if eval(dep.condition.value, ids) && isMissing {
            errors := errors + [MissingMessage(dep)];
          }
        } else if isMissing {
          errors := errors + [MissingMessage(dep)];
        }
      }
    }
  }

  /** The override loop of `process_errors` for one mod: the warnings it appends. */
  method OverrideLoop(id: Id, bind: map<string, Binding>, overs: seq<string>) returns (warnings: seq<Message>)
    ensures warnings == OverrideWarnings(id, bind, overs, |overs|)
  {
    warnings := [];
    for j := 0 to |overs|
      invariant warnings == OverrideWarnings(id, bind, overs, j)
    {
      var o := overs[j];
      if o in bind && bind[o].1 != id {
        warnings := warnings + [OverrideMessage(bind[o], o)];
      }
    }
  }

  /** The loop body of `process_errors` for one mod. */
  method CheckMod(m: ModUnit, ids: set<Id>, bind: map<string, Binding>, eval: Eval,
                  metaDocFor: string -> Option<Node>, overs: seq<string>) returns (r: ModUnit)
    ensures r == Checked(m, ids, bind, eval, metaDocFor, overs)
  {
    r := Package.UpdateMetaErrors(m, metaDocFor);
    var md := r.metadata;
    var depWarnings, depErrors := DepMessages(md.dependencies, ids, eval);
    var overWarnings := OverrideLoop(m.Id(), bind, overs);
    r := r.(metadata := md.(warnings := md.warnings + depWarnings + overWarnings, errors := md.errors + depErrors));
  }

  /** Refreshing the messages does not look at the messages already there. */
  lemma UpdatedMetaIgnoresMessages(m: ModUnit, w: seq<Message>, e: seq<Message>, metaDocFor: string -> Option<Node>)
    ensures Package.UpdatedMeta(m.(metadata := m.metadata.(warnings := w, errors := e)), metaDocFor)
         == Package.UpdatedMeta(m, metaDocFor)
  {
    var m' := m.(metadata := m.metadata.(warnings := w, errors := e));
    assert m'.Id() == m.Id();
    assert m'.metadata.(errors := [], warnings := []) == m.metadata.(errors := [], warnings := []);
  }

  /** Checking keeps everything but the metadata, and the dependencies within it. */
  lemma CheckedKeeps(m: ModUnit, ids: set<Id>, bind: map<string, Binding>, eval: Eval,
                     metaDocFor: string -> Option<Node>, overs: seq<string>)
    ensures var r := Checked(m, ids, bind, eval, metaDocFor, overs);
      r == m.(metadata := r.metadata) && r.metadata.dependencies == m.metadata.dependencies
  {
    Package.UpdatedMetaSpec(m, metaDocFor);
  }

  /** Checking a mod a second time with the same active set gives the same messages: nothing accumulates. */
  lemma CheckedIdempotent(m: ModUnit, ids: set<Id>, bind: map<string, Binding>, eval: Eval,
                          metaDocFor: string -> Option<Node>, overs: seq<string>)
    ensures var r := Checked(m, ids, bind, eval, metaDocFor, overs);
      Checked(r, ids, bind, eval, metaDocFor, overs) == r
  {
    var u := Package.UpdatedMeta(m, metaDocFor);
    var r := Checked(m, ids, bind, eval, metaDocFor, overs);
    CheckedKeeps(m, ids, bind, eval, metaDocFor, overs);
    assert r == u.(metadata := u.metadata.(warnings := r.metadata.warnings, errors := r.metadata.errors));
    UpdatedMetaIgnoresMessages(u, r.metadata.warnings, r.metadata.errors, metaDocFor);
    Package.UpdatedMetaIdempotent(m, metaDocFor);
    assert r.Id() == m.Id();
  }
}
