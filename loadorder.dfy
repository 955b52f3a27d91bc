/**
 * The load-order resolver at the end of `ModManager.sort`: Kahn's algorithm
 * over the active mods and their parents, seeded in the current order, with
 * cycles broken first by dropping soft edges and then by forcing out the
 * mod with the fewest unresolved parents.
 *
 * Python's set iteration order is the parameter `order`: the order in which
 * a set's members are visited (a function of the set).  `min` over a set
 * returns the first minimiser in that order.
 *
 * `fixed` selects the corrected soft phase: children are read from the
 * current parents, so a dropped soft edge is no longer counted twice (see
 * the lemmas at the end).
 */
module LoadOrder {
  type Id = string

  /** Parent sets (`dependencies`, a `defaultdict(set)`). */
  type Deps = map<Id, set<Id>>

  function Parents(deps: Deps, v: Id): set<Id> {
    if v in deps then deps[v] else {}
  }

  /** `in_degree[v]`, a `defaultdict(int)`. */
  function Deg(inDeg: map<Id, int>, v: Id): int {
    if v in inDeg then inDeg[v] else 0
  }

  predicate NoDup(s: seq<Id>) {
    forall i, j :: 0 <= i < j < |s| ==> s[i] != s[j]
  }

  /** `xs` lists the members of `s`, each once. */
  predicate Enumerates(xs: seq<Id>, s: set<Id>) {
    NoDup(xs) && (forall x :: x in xs ==> x in s) && (forall x :: x in s ==> x in xs)
  }

  /** `order` is a set iteration order. */
  ghost predicate IsOrder(order: set<Id> -> seq<Id>) {
    forall s :: Enumerates(order(s), s)
  }

  /** The members of `xs` that lie in `r`, in order. */
  function Filter(xs: seq<Id>, r: set<Id>): (ys: seq<Id>)
    ensures forall y :: y in ys <==> y in xs && y in r
    ensures |ys| <= |xs|
  {
    if xs == [] then [] else (if xs[0] in r then [xs[0]] else []) + Filter(xs[1..], r)
  }

  /** `children_graph[p]`: the mods with parent `p`, in the order their parent sets were created. */
  function ChildrenOf(nodes: seq<Id>, deps: Deps, p: Id): seq<Id> {
    if nodes == [] then []
    else (if p in Parents(deps, nodes[0]) then [nodes[0]] else []) + ChildrenOf(nodes[1..], deps, p)
  }

  /** The children of `p` are the listed mods that have `p` as a parent. */
  lemma {:induction false} ChildrenOfMembers(nodes: seq<Id>, deps: Deps, p: Id)
    ensures forall c :: c in ChildrenOf(nodes, deps, p) <==> c in nodes && p in Parents(deps, c)
  {
    if nodes != [] {
      ChildrenOfMembers(nodes[1..], deps, p);
      assert forall c :: c in nodes <==> c == nodes[0] || c in nodes[1..];
    }
  }

  /** The mods to order, their parents and the hard edges `(child, parent)`. */
  datatype Graph = Graph(nodes: seq<Id>, deps: Deps, hard: set<(Id, Id)>)

  function Active(g: Graph): set<Id> {
    set v | v in g.nodes
  }

  /**
   * The resolver's state: in-degrees, the current parent sets, the queue,
   * the mods emitted so far and their set, and the mods forced out.
   */
  datatype St = St(inDeg: map<Id, int>, deps: Deps, queue: seq<Id>, sorted: seq<Id>,
                   processed: set<Id>, forced: set<Id>)

  /** The mods with no parent. */
  function Parentless(g: Graph): set<Id> {
    set v | v in Active(g) && |Parents(g.deps, v)| == 0
  }

  lemma InitQueue(g: Graph)
    ensures Init(g).queue == Filter(g.nodes, Parentless(g))
  {
  }

  lemma ParentlessAt(g: Graph, m: Id)
    requires m in g.nodes
    ensures m in Parentless(g) <==> |Parents(g.deps, m)| == 0
  {
  }

  /** In-degrees, and a queue seeded with every parentless mod in the current order. */
  function Init(g: Graph): (st: St)
    ensures st.sorted == [] && st.processed == {} && st.forced == {} && st.deps == g.deps
  {
    var inDeg := map v | v in Active(g) :: |Parents(g.deps, v)|;
    St(inDeg, g.deps, Filter(g.nodes, Parentless(g)), [], {}, {})
  }

  /** The as-written code reads children from the parents it started with; the corrected one from the current ones. */
  function Kids(g: Graph, fixed: bool, st: St, u: Id): seq<Id> {
    ChildrenOf(g.nodes, if fixed then st.deps else g.deps, u)
  }

  /** One decrement per child; a child reaching zero joins the queue. */
  function Release(st: St, cs: seq<Id>): St
    decreases |cs|
  {
    if cs == [] then st
    else
      var v := cs[0];
      var d := Deg(st.inDeg, v) - 1;
      Release(st.(inDeg := st.inDeg[v := d], queue := if d == 0 then st.queue + [v] else st.queue), cs[1..])
  }

  lemma {:induction false} ReleaseKeeps(st: St, cs: seq<Id>)
    ensures var r := Release(st, cs);
      r.deps == st.deps && r.sorted == st.sorted && r.processed == st.processed && r.forced == st.forced
      && |r.queue| >= |st.queue| && r.queue[..|st.queue|] == st.queue
    decreases |cs|
  {
    if cs != [] {
      var v := cs[0];
      var d := Deg(st.inDeg, v) - 1;
      var st1 := st.(inDeg := st.inDeg[v := d], queue := if d == 0 then st.queue + [v] else st.queue);
      ReleaseKeeps(st1, cs[1..]);
      assert st1.queue[..|st.queue|] == st.queue;
    }
  }

  /** Emitting `u`: appended to the output, marked processed, its children released. */
  function Emit(g: Graph, fixed: bool, st: St, u: Id): St {
    var st1 := st.(sorted := st.sorted + [u], processed := st.processed + {u});
    Release(st1, Kids(g, fixed, st1, u))
  }

  lemma SubsetCard(a: set<Id>, b: set<Id>)
    requires a <= b
    ensures |a| <= |b|
    ensures a < b ==> |a| < |b|
  {
    assert b == a + (b - a);
    assert a * (b - a) == {};
    if a < b {
      var x :| x in b && x !in a;
      assert x in b - a;
    }
  }

  lemma CardRemove(a: set<Id>, p: set<Id>, u: Id)
    requires u in a && u !in p
    ensures |a - (p + {u})| < |a - p|
  {
    assert a - (p + {u}) == (a - p) - {u};
  }

  /** `process_queue`: pop; skip what is processed or not active; emit the rest. */
  function ProcessQueue(g: Graph, fixed: bool, st: St): (r: St)
    ensures r.queue == []
    decreases |Active(g) - st.processed|, |st.queue|
  {
    if st.queue == [] then st
    else
      var u := st.queue[0];
      var st1 := st.(queue := st.queue[1..]);
      if u in st.processed || u !in Active(g) then ProcessQueue(g, fixed, st1)
      else
        var st2 := Emit(g, fixed, st1, u);
        ReleaseKeeps(st1.(sorted := st1.sorted + [u], processed := st1.processed + {u}), Kids(g, fixed, st1, u));
        CardRemove(Active(g), st.processed, u);
        ProcessQueue(g, fixed, st2)
  }

  /** The processed set only grows, and every active mod that was queued ends processed. */
  lemma {:induction false} ProcessQueueGrows(g: Graph, fixed: bool, st: St)
    ensures var r := ProcessQueue(g, fixed, st);
      st.processed <= r.processed && r.deps == st.deps && r.forced == st.forced
      && forall v :: v in st.queue && v in Active(g) ==> v in r.processed
    decreases |Active(g) - st.processed|, |st.queue|
  {
    if st.queue != [] {
      var u := st.queue[0];
      var st1 := st.(queue := st.queue[1..]);
      if u in st.processed || u !in Active(g) {
        ProcessQueueGrows(g, fixed, st1);
      } else {
        var st2 := Emit(g, fixed, st1, u);
        ReleaseKeeps(st1.(sorted := st1.sorted + [u], processed := st1.processed + {u}), Kids(g, fixed, st1, u));
        CardRemove(Active(g), st.processed, u);
        ProcessQueueGrows(g, fixed, st2);
        forall v | v in st.queue && v in Active(g) ensures v in ProcessQueue(g, fixed, st).processed {
          if v != u {
            assert v in st1.queue;
            assert v in st2.queue[..|st1.queue|];
          }
        }
      }
    }
  }

  // ----- the soft phase -----

  /** The soft parents of `u` that are still unresolved: the edges one soft round drops. */
  function SoftOf(g: Graph, st: St, unresolved: set<Id>, u: Id): (s: set<Id>)
    ensures s <= Parents(st.deps, u) && s <= unresolved
    ensures forall p :: p in s ==> (u, p) !in g.hard
  {
    SoftAmong(u, unresolved, g.hard, Parents(st.deps, u))
  }

  /** The members of `parents` that are unresolved and not hard parents of `u`. */
  function SoftAmong(u: Id, unresolved: set<Id>, hard: set<(Id, Id)>, parents: set<Id>): set<Id> {
    set p | p in parents && p in unresolved && (u, p) !in hard
  }

  /**
   * One pass of the soft loop over every unresolved mod: its soft unresolved
   * parents are dropped and its in-degree lowered by as many; a mod whose
   * in-degree reaches zero on the way is queued, in the visiting order.
   * Returns whether any mod was queued (`has_soft_resolves`).
   */
  function SoftRound(g: Graph, st: St, order: set<Id> -> seq<Id>): (St, bool)
  {
    var unresolved := Active(g) - st.processed;
    var released := Released(g, st, unresolved);
    (st.(deps := SoftDeps(g, st, unresolved), inDeg := SoftDegs(g, st, unresolved),
         queue := st.queue + Filter(order(unresolved), released)),
     released != {})
  }

  /** The mods whose in-degree passes zero while their soft parents are dropped. */
  function Released(g: Graph, st: St, unresolved: set<Id>): (r: set<Id>)
    ensures forall v :: v in r <==>
      v in unresolved && SoftOf(g, st, unresolved, v) != {} && 1 <= Deg(st.inDeg, v) <= |SoftOf(g, st, unresolved, v)|
  {
    set u | u in unresolved && SoftOf(g, st, unresolved, u) != {}
            && 1 <= Deg(st.inDeg, u) <= |SoftOf(g, st, unresolved, u)|
  }

  /** The parent sets once the soft unresolved parents of every unresolved mod are dropped. */
  function SoftDeps(g: Graph, st: St, unresolved: set<Id>): (d: Deps)
    ensures forall v :: (Parents(d, v) ==
      if v in unresolved then Parents(st.deps, v) - SoftOf(g, st, unresolved, v) else Parents(st.deps, v))
  {
    map v | v in st.deps.Keys + unresolved ::
      if v in unresolved then Parents(st.deps, v) - SoftOf(g, st, unresolved, v) else st.deps[v]
  }

  /** The in-degrees lowered by one per dropped parent. */
  function SoftDegs(g: Graph, st: St, unresolved: set<Id>): (m: map<Id, int>)
    ensures forall v :: (Deg(m, v) ==
      if v in unresolved then Deg(st.inDeg, v) - |SoftOf(g, st, unresolved, v)| else Deg(st.inDeg, v))
  {
    map v | v in st.inDeg.Keys + unresolved ::
      if v in unresolved then Deg(st.inDeg, v) - |SoftOf(g, st, unresolved, v)| else st.inDeg[v]
  }

  /** The number of parent links of the mods in `ns`. */
  function Links(deps: Deps, ns: seq<Id>): nat {
    if ns == [] then 0 else |Parents(deps, ns[0])| + Links(deps, ns[1..])
  }

  lemma {:induction false} LinksShrink(d1: Deps, d2: Deps, ns: seq<Id>, w: Id)
    requires forall v :: v in ns ==> Parents(d2, v) <= Parents(d1, v)
    ensures Links(d2, ns) <= Links(d1, ns)
    ensures w in ns && Parents(d2, w) < Parents(d1, w) ==> Links(d2, ns) < Links(d1, ns)
  {
    if ns != [] {
      LinksShrink(d1, d2, ns[1..], w);
      assert Parents(d2, ns[0]) <= Parents(d1, ns[0]);
      SubsetCard(Parents(d2, ns[0]), Parents(d1, ns[0]));
      if w in ns && Parents(d2, w) < Parents(d1, w) && w != ns[0] {
        assert w in ns[1..];
      }
    }
  }

  /** A round that queues something dropped at least one edge. */
  lemma SoftRoundShrinks(g: Graph, st: St, order: set<Id> -> seq<Id>)
    ensures var (st1, has) := SoftRound(g, st, order);
      && Links(st1.deps, g.nodes) <= Links(st.deps, g.nodes)
      && (has ==> Links(st1.deps, g.nodes) < Links(st.deps, g.nodes))
      && st1.processed == st.processed && st1.sorted == st.sorted && st1.forced == st.forced
  {
    var (st1, has) := SoftRound(g, st, order);
    var unresolved := Active(g) - st.processed;
    forall v | v in g.nodes ensures Parents(st1.deps, v) <= Parents(st.deps, v) {
    }
    if has {
      var w :| w in Released(g, st, unresolved);
      var p :| p in SoftOf(g, st, unresolved, w);
      assert p !in Parents(st1.deps, w);
      LinksShrink(st.deps, st1.deps, g.nodes, w);
    } else {
      LinksShrink(st.deps, st1.deps, g.nodes, "");
    }
  }

  /** The soft loop: rounds run while the previous one queued something and mods remain. */
  function SoftPhase(g: Graph, fixed: bool, st: St, order: set<Id> -> seq<Id>): St
    decreases Links(st.deps, g.nodes)
  {
    if |st.sorted| == |g.nodes| then st
    else
      var (st1, has) := SoftRound(g, st, order);
      if !has then st1
      else
        SoftRoundShrinks(g, st, order);
        ProcessQueueGrows(g, fixed, st1);
        SoftPhase(g, fixed, ProcessQueue(g, fixed, st1), order)
  }

  // ----- the forced phase -----

  /** The number of unresolved parents, the key of the forced phase's `min`. */
  function Holding(st: St, unresolved: set<Id>, v: Id): nat {
    |Parents(st.deps, v) * unresolved|
  }

  /** The first member of `xs` with the least key (Python's `min`). */
  function FirstMin(xs: seq<Id>, st: St, unresolved: set<Id>): (m: Id)
    requires xs != []
    ensures m in xs
    ensures forall x :: x in xs ==> Holding(st, unresolved, m) <= Holding(st, unresolved, x)
  {
    MinScanLeast(xs, 1, xs[0], st, unresolved);
    MinScan(xs, 1, xs[0], st, unresolved)
  }

  /** `min`'s scan from position `i`, `m` the least so far: a later member replaces it only with a smaller key. */
  function MinScan(xs: seq<Id>, i: nat, m: Id, st: St, unresolved: set<Id>): (r: Id)
    requires 0 < i <= |xs| && m in xs
    ensures r in xs
    decreases |xs| - i
  {
    if i == |xs| then m
    else MinScan(xs, i + 1, if Holding(st, unresolved, xs[i]) < Holding(st, unresolved, m) then xs[i] else m,
                 st, unresolved)
  }

  /** A scan started from the least of the first `i` members ends at the least of all. */
  lemma {:induction false} MinScanLeast(xs: seq<Id>, i: nat, m: Id, st: St, unresolved: set<Id>)
    requires 0 < i <= |xs| && m in xs
    requires forall k :: 0 <= k < i ==> Holding(st, unresolved, m) <= Holding(st, unresolved, xs[k])
    ensures forall x :: x in xs ==> Holding(st, unresolved, MinScan(xs, i, m, st, unresolved)) <= Holding(st, unresolved, x)
    decreases |xs| - i
  {
    if i < |xs| {
      var m' := if Holding(st, unresolved, xs[i]) < Holding(st, unresolved, m) then xs[i] else m;
      MinScanLeast(xs, i + 1, m', st, unresolved);
    } else {
      forall x | x in xs ensures Holding(st, unresolved, m) <= Holding(st, unresolved, x) {
        var k :| 0 <= k < |xs| && xs[k] == x;
      }
    }
  }

  /** The mod the forced phase picks: a minimiser of unresolved parents. */
  function Pick(g: Graph, st: St, order: set<Id> -> seq<Id>): (best: Id)
    requires IsOrder(order)
    requires Active(g) - st.processed != {}
    ensures best in Active(g) - st.processed
    ensures forall v :: v in Active(g) - st.processed ==>
      Holding(st, Active(g) - st.processed, best) <= Holding(st, Active(g) - st.processed, v)
  {
    var unresolved := Active(g) - st.processed;
    var v :| v in unresolved;
    assert v in order(unresolved);
    FirstMin(order(unresolved), st, unresolved)
  }

  /** The forced loop: queue the pick with its in-degree zeroed, and drain the queue. */
  function ForcedPhase(g: Graph, fixed: bool, st: St, order: set<Id> -> seq<Id>): St
    requires IsOrder(order)
    decreases |Active(g) - st.processed|
  {
    if |st.sorted| == |g.nodes| then st
    else if Active(g) - st.processed == {} then st
    else
      var best := Pick(g, st, order);
      var st1 := st.(queue := st.queue + [best], inDeg := st.inDeg[best := 0], forced := st.forced + {best});
      ProcessQueueGrows(g, fixed, st1);
      CardRemove(Active(g), st.processed, best);
      assert Active(g) - ProcessQueue(g, fixed, st1).processed <= Active(g) - (st.processed + {best});
      SubsetCard(Active(g) - ProcessQueue(g, fixed, st1).processed, Active(g) - (st.processed + {best}));
      ForcedPhase(g, fixed, ProcessQueue(g, fixed, st1), order)
  }

  /** The resolver's final state: Kahn's pass, then the soft loop, then the forced loop. */
  function ResolveState(g: Graph, fixed: bool, order: set<Id> -> seq<Id>): St
    requires IsOrder(order)
  {
    var st1 := ProcessQueue(g, fixed, Init(g));
    ForcedPhase(g, fixed, SoftPhase(g, fixed, st1, order), order)
  }

  /** The load order `sort` computes, as written. */
  function Resolve(g: Graph, order: set<Id> -> seq<Id>): seq<Id>
    requires IsOrder(order)
  {
    ResolveState(g, false, order).sorted
  }

  /** The load order with the soft phase corrected. */
  function ResolveFixed(g: Graph, order: set<Id> -> seq<Id>): seq<Id>
    requires IsOrder(order)
  {
    ResolveState(g, true, order).sorted
  }

  // ----- every active mod is emitted exactly once -----

  /** The emitted mods are exactly the processed ones, each once, all active. */
  ghost predicate Basic(g: Graph, st: St) {
    && st.processed <= Active(g)
    && NoDup(st.sorted)
    && |st.sorted| == |st.processed|
    && (forall v :: v in st.sorted <==> v in st.processed)
  }

  lemma {:induction false} SeqSetCard(s: seq<Id>)
    ensures |set v | v in s| <= |s|
    ensures NoDup(s) ==> |set v | v in s| == |s|
  {
    if s != [] {
      SeqSetCard(s[1..]);
      assert (set v | v in s) == (set v | v in s[1..]) + {s[0]};
      if NoDup(s) {
        assert s[0] !in s[1..];
        assert NoDup(s[1..]) by {
          forall i, j | 0 <= i < j < |s[1..]| ensures s[1..][i] != s[1..][j] {
            assert s[1..][i] == s[i + 1] && s[1..][j] == s[j + 1];
          }
        }
      }
    }
  }

  lemma EmitBasic(g: Graph, fixed: bool, st: St, u: Id)
    requires Basic(g, st) && u in Active(g) && u !in st.processed
    ensures Basic(g, Emit(g, fixed, st, u))
  {
    var st1 := st.(sorted := st.sorted + [u], processed := st.processed + {u});
    ReleaseKeeps(st1, Kids(g, fixed, st1, u));
    assert u !in st.sorted;
    assert NoDup(st1.sorted) by {
      forall i, j | 0 <= i < j < |st1.sorted| ensures st1.sorted[i] != st1.sorted[j] {
        if j == |st.sorted| { assert st1.sorted[i] in st.sorted; }
      }
    }
  }

  lemma {:induction false} ProcessQueueBasic(g: Graph, fixed: bool, st: St)
    requires Basic(g, st)
    ensures Basic(g, ProcessQueue(g, fixed, st))
    decreases |Active(g) - st.processed|, |st.queue|
  {
    if st.queue != [] {
      var u := st.queue[0];
      var st1 := st.(queue := st.queue[1..]);
      if u in st.processed || u !in Active(g) {
        ProcessQueueBasic(g, fixed, st1);
      } else {
        EmitBasic(g, fixed, st1, u);
        ReleaseKeeps(st1.(sorted := st1.sorted + [u], processed := st1.processed + {u}), Kids(g, fixed, st1, u));
        CardRemove(Active(g), st.processed, u);
        ProcessQueueBasic(g, fixed, Emit(g, fixed, st1, u));
      }
    }
  }

  lemma {:induction false} SoftPhaseBasic(g: Graph, fixed: bool, st: St, order: set<Id> -> seq<Id>)
    requires Basic(g, st)
    ensures Basic(g, SoftPhase(g, fixed, st, order))
    decreases Links(st.deps, g.nodes)
  {
    if |st.sorted| != |g.nodes| {
      var (st1, has) := SoftRound(g, st, order);
      SoftRoundShrinks(g, st, order);
      if has {
        ProcessQueueGrows(g, fixed, st1);
        ProcessQueueBasic(g, fixed, st1);
        SoftPhaseBasic(g, fixed, ProcessQueue(g, fixed, st1), order);
      }
    }
  }

  /** The forced loop ends with every active mod processed. */
  lemma {:induction false} ForcedPhaseBasic(g: Graph, fixed: bool, st: St, order: set<Id> -> seq<Id>)
    requires IsOrder(order) && Basic(g, st)
    ensures var r := ForcedPhase(g, fixed, st, order);
      Basic(g, r) && r.processed == Active(g) && st.forced <= r.forced
    decreases |Active(g) - st.processed|
  {
    if |st.sorted| == |g.nodes| {
      SeqSetCard(g.nodes);
      SubsetCard(st.processed, Active(g));
    } else if Active(g) - st.processed != {} {
      var best := Pick(g, st, order);
      var st1 := st.(queue := st.queue + [best], inDeg := st.inDeg[best := 0], forced := st.forced + {best});
      ProcessQueueGrows(g, fixed, st1);
      ProcessQueueBasic(g, fixed, st1);
      CardRemove(Active(g), st.processed, best);
      SubsetCard(Active(g) - ProcessQueue(g, fixed, st1).processed, Active(g) - (st.processed + {best}));
      ForcedPhaseBasic(g, fixed, ProcessQueue(g, fixed, st1), order);
    }
  }

  /**
   * `sort` lists every active mod exactly once, whatever the edges and
   * cycles: the result has no repeats and the same members as the active
   * list, so for a repeat-free active list it is a permutation of it.
   */
  lemma ResolvePermutation(g: Graph, fixed: bool, order: set<Id> -> seq<Id>)
    requires IsOrder(order)
    ensures var r := ResolveState(g, fixed, order).sorted;
      && NoDup(r)
      && (forall v :: v in r <==> v in g.nodes)
      && (NoDup(g.nodes) ==> |r| == |g.nodes|)
  {
    var st0 := Init(g);
    assert Basic(g, st0);
    ProcessQueueBasic(g, fixed, st0);
    var st1 := ProcessQueue(g, fixed, st0);
    SoftPhaseBasic(g, fixed, st1, order);
    ForcedPhaseBasic(g, fixed, SoftPhase(g, fixed, st1, order), order);
    var r := ResolveState(g, fixed, order);
    SeqSetCard(g.nodes);
  }

  // ----- Kahn's bookkeeping -----

  /** Every emitted mod that was not forced out comes after all its current parents. */
  ghost predicate Respects(st: St) {
    forall i, p :: 0 <= i < |st.sorted| && st.sorted[i] !in st.forced && p in Parents(st.deps, st.sorted[i])
      ==> p in st.sorted[..i]
  }

  /** The in-degree of an unprocessed mod not forced out counts its unprocessed parents. */
  ghost predicate DegOk(g: Graph, st: St) {
    forall v :: v in Active(g) && v !in st.processed && v !in st.forced ==>
      Deg(st.inDeg, v) == |Parents(st.deps, v) - st.processed|
  }

  /** Such a mod, when queued, has in-degree zero. */
  ghost predicate QueueOk(g: Graph, st: St) {
    forall v :: v in st.queue && v in Active(g) && v !in st.processed && v !in st.forced ==>
      Deg(st.inDeg, v) == 0
  }

  /** Such a mod with in-degree zero is queued. */
  ghost predicate ZeroOk(g: Graph, st: St) {
    forall v :: v in Active(g) && v !in st.processed && v !in st.forced && Deg(st.inDeg, v) == 0 ==>
      v in st.queue
  }

  /** Kahn's invariant; children are read from the current parents. */
  ghost predicate KInv(g: Graph, fixed: bool, st: St) {
    && Basic(g, st)
    && (fixed || st.deps == g.deps)
    && DegOk(g, st) && QueueOk(g, st) && ZeroOk(g, st) && Respects(st)
  }

  lemma {:induction false} ChildrenNoDup(nodes: seq<Id>, deps: Deps, p: Id)
    requires NoDup(nodes)
    ensures NoDup(ChildrenOf(nodes, deps, p))
  {
    if nodes != [] {
      assert NoDup(nodes[1..]) by {
        forall i, j | 0 <= i < j < |nodes[1..]| ensures nodes[1..][i] != nodes[1..][j] {
          assert nodes[1..][i] == nodes[i + 1] && nodes[1..][j] == nodes[j + 1];
        }
      }
      ChildrenNoDup(nodes[1..], deps, p);
      ChildrenOfMembers(nodes[1..], deps, p);
      var rest := ChildrenOf(nodes[1..], deps, p);
      assert nodes[0] !in nodes[1..];
      assert nodes[0] !in rest;
      var cs := ChildrenOf(nodes, deps, p);
      forall i, j | 0 <= i < j < |cs| ensures cs[i] != cs[j] {
        if p in Parents(deps, nodes[0]) && i == 0 {
          assert cs[j] in rest;
        } else if p in Parents(deps, nodes[0]) {
          assert cs[i] == rest[i - 1] && cs[j] == rest[j - 1];
        } else {
          assert cs[i] == rest[i] && cs[j] == rest[j];
        }
      }
    }
  }

  /** Releasing children one by one: each loses one in-degree, and those at one join the queue. */
  lemma {:induction false} ReleaseEffect(st: St, cs: seq<Id>)
    requires NoDup(cs)
    ensures var r := Release(st, cs);
      && (forall v :: Deg(r.inDeg, v) == Deg(st.inDeg, v) - (if v in cs then 1 else 0))
      && (forall v :: v in r.queue <==> v in st.queue || (v in cs && Deg(st.inDeg, v) == 1))
    decreases |cs|
  {
    if cs != [] {
      var v0 := cs[0];
      var d := Deg(st.inDeg, v0) - 1;
      var st1 := st.(inDeg := st.inDeg[v0 := d], queue := if d == 0 then st.queue + [v0] else st.queue);
      assert NoDup(cs[1..]) by {
        forall i, j | 0 <= i < j < |cs[1..]| ensures cs[1..][i] != cs[1..][j] {
          assert cs[1..][i] == cs[i + 1] && cs[1..][j] == cs[j + 1];
        }
      }
      assert v0 !in cs[1..];
      ReleaseEffect(st1, cs[1..]);
      forall v ensures v in cs <==> v == v0 || v in cs[1..] {
        assert cs == [v0] + cs[1..];
      }
    }
  }

  lemma DiffCard(a: set<Id>, p: set<Id>, u: Id)
    requires u !in p
    ensures |a - (p + {u})| == |a - p| - (if u in a then 1 else 0)
  {
    if u in a {
      assert a - p == (a - (p + {u})) + {u};
    } else {
      assert a - (p + {u}) == a - p;
    }
  }

  /** One emission in closed form, when children are read from the current parents. */
  lemma EmitFacts(g: Graph, fixed: bool, st: St, u: Id)
    requires NoDup(g.nodes) && (fixed || st.deps == g.deps) && st.queue != [] && u == st.queue[0]
    ensures var r := Emit(g, fixed, st.(queue := st.queue[1..]), u);
      && r.deps == st.deps && r.forced == st.forced
      && r.sorted == st.sorted + [u] && r.processed == st.processed + {u}
      && (forall v :: Deg(r.inDeg, v) == Deg(st.inDeg, v) - (if v in Active(g) && u in Parents(st.deps, v) then 1 else 0))
      && (forall v :: v in r.queue <==>
            v in st.queue[1..] || (v in Active(g) && u in Parents(st.deps, v) && Deg(st.inDeg, v) == 1))
  {
    var st1 := st.(queue := st.queue[1..]);
    var st2 := st1.(sorted := st1.sorted + [u], processed := st1.processed + {u});
    var cs := Kids(g, fixed, st2, u);
    assert cs == ChildrenOf(g.nodes, st.deps, u);
    ChildrenNoDup(g.nodes, st.deps, u);
    ChildrenOfMembers(g.nodes, st.deps, u);
    ReleaseEffect(st2, cs);
    ReleaseKeeps(st2, cs);
  }

  lemma EmitDegOk(g: Graph, fixed: bool, st: St)
    requires NoDup(g.nodes) && KInv(g, fixed, st)
    requires st.queue != [] && st.queue[0] in Active(g) && st.queue[0] !in st.processed
    ensures DegOk(g, Emit(g, fixed, st.(queue := st.queue[1..]), st.queue[0]))
  {
    var u := st.queue[0];
    EmitFacts(g, fixed, st, u);
    var r := Emit(g, fixed, st.(queue := st.queue[1..]), u);
    forall v | v in Active(g) && v !in r.processed && v !in r.forced
      ensures Deg(r.inDeg, v) == |Parents(r.deps, v) - r.processed|
    {
      DiffCard(Parents(st.deps, v), st.processed, u);
    }
  }

  lemma EmitQueueOk(g: Graph, fixed: bool, st: St)
    requires NoDup(g.nodes) && KInv(g, fixed, st)
    requires st.queue != [] && st.queue[0] in Active(g) && st.queue[0] !in st.processed
    ensures QueueOk(g, Emit(g, fixed, st.(queue := st.queue[1..]), st.queue[0]))
  {
    var u := st.queue[0];
    EmitFacts(g, fixed, st, u);
    var r := Emit(g, fixed, st.(queue := st.queue[1..]), u);
    forall v | v in r.queue && v in Active(g) && v !in r.processed && v !in r.forced
      ensures Deg(r.inDeg, v) == 0
    {
      if v in st.queue[1..] {
        assert v in st.queue;
        assert Parents(st.deps, v) - st.processed == {};
        assert u !in Parents(st.deps, v);
      }
    }
  }

  lemma EmitZeroOk(g: Graph, fixed: bool, st: St)
    requires NoDup(g.nodes) && KInv(g, fixed, st)
    requires st.queue != [] && st.queue[0] in Active(g) && st.queue[0] !in st.processed
    ensures ZeroOk(g, Emit(g, fixed, st.(queue := st.queue[1..]), st.queue[0]))
  {
    var u := st.queue[0];
    var rest := st.queue[1..];
    assert forall v :: v in st.queue ==> v == u || v in rest by {
      assert st.queue == [u] + rest;
    }
    EmitFacts(g, fixed, st, u);
    var r := Emit(g, fixed, st.(queue := rest), u);
    forall v | v in Active(g) && v !in r.processed && v !in r.forced && Deg(r.inDeg, v) == 0
      ensures v in r.queue
    {
      if u !in Parents(st.deps, v) {
        assert v in st.queue;
      }
    }
  }

  lemma EmitRespects(g: Graph, fixed: bool, st: St)
    requires NoDup(g.nodes) && KInv(g, fixed, st)
    requires st.queue != [] && st.queue[0] in Active(g) && st.queue[0] !in st.processed
    ensures Respects(Emit(g, fixed, st.(queue := st.queue[1..]), st.queue[0]))
  {
    var u := st.queue[0];
    EmitFacts(g, fixed, st, u);
    var r := Emit(g, fixed, st.(queue := st.queue[1..]), u);
    forall i, p | 0 <= i < |r.sorted| && r.sorted[i] !in r.forced && p in Parents(r.deps, r.sorted[i])
      ensures p in r.sorted[..i]
    {
      if i < |st.sorted| {
        assert r.sorted[..i] == st.sorted[..i];
        assert r.sorted[i] == st.sorted[i];
      } else {
        assert r.sorted[..i] == st.sorted;
        assert Deg(st.inDeg, u) == 0;
        assert Parents(st.deps, u) - st.processed == {};
      }
    }
  }

  /** Emitting the head of the queue keeps Kahn's invariant. */
  lemma EmitKInv(g: Graph, fixed: bool, st: St)
    requires NoDup(g.nodes) && KInv(g, fixed, st)
    requires st.queue != [] && st.queue[0] in Active(g) && st.queue[0] !in st.processed
    ensures KInv(g, fixed, Emit(g, fixed, st.(queue := st.queue[1..]), st.queue[0]))
  {
    EmitFacts(g, fixed, st, st.queue[0]);
    EmitBasic(g, fixed, st.(queue := st.queue[1..]), st.queue[0]);
    EmitDegOk(g, fixed, st);
    EmitQueueOk(g, fixed, st);
    EmitZeroOk(g, fixed, st);
    EmitRespects(g, fixed, st);
  }

  /** Skipping the head of the queue keeps Kahn's invariant. */
  lemma SkipKInv(g: Graph, fixed: bool, st: St)
    requires KInv(g, fixed, st)
    requires st.queue != [] && (st.queue[0] !in Active(g) || st.queue[0] in st.processed)
    ensures KInv(g, fixed, st.(queue := st.queue[1..]))
  {
    var st1 := st.(queue := st.queue[1..]);
    forall v | v in Active(g) && v !in st1.processed && v !in st1.forced && Deg(st1.inDeg, v) == 0
      ensures v in st1.queue
    {
      assert st.queue == [st.queue[0]] + st1.queue;
    }
  }

  lemma {:induction false} ProcessQueueKInv(g: Graph, fixed: bool, st: St)
    requires NoDup(g.nodes) && KInv(g, fixed, st)
    ensures KInv(g, fixed, ProcessQueue(g, fixed, st))
    decreases |Active(g) - st.processed|, |st.queue|
  {
    if st.queue != [] {
      var u := st.queue[0];
      var st1 := st.(queue := st.queue[1..]);
      if u in st.processed || u !in Active(g) {
        SkipKInv(g, fixed, st);
        ProcessQueueKInv(g, fixed, st1);
      } else {
        EmitKInv(g, fixed, st);
        ReleaseKeeps(st1.(sorted := st1.sorted + [u], processed := st1.processed + {u}), Kids(g, fixed, st1, u));
        CardRemove(Active(g), st.processed, u);
        ProcessQueueKInv(g, fixed, Emit(g, fixed, st1, u));
      }
    }
  }

  lemma InitKInv(g: Graph, fixed: bool)
    ensures KInv(g, fixed, Init(g))
  {
    var st := Init(g);
    assert Respects(st);
    assert DegOk(g, st) && QueueOk(g, st) && ZeroOk(g, st);
  }

  // ----- an acyclic graph needs no cycle breaking -----

  ghost predicate HasSource(deps: Deps, s: set<Id>) {
    exists v :: v in s && Parents(deps, v) * s == {}
  }

  /** No cycle: every non-empty set of mods has a member with no parent inside the set. */
  ghost predicate Acyclic(g: Graph) {
    forall s :: s <= Active(g) && s != {} ==> HasSource(g.deps, s)
  }

  /** Every parent is an active mod (as `sort` builds the edges). */
  ghost predicate Closed(g: Graph) {
    forall v, p :: v in Active(g) && p in Parents(g.deps, v) ==> p in Active(g)
  }

  /** Once the queue is empty, every unresolved mod still has an unresolved parent. */
  lemma StuckHasParent(g: Graph, fixed: bool, st: St, v: Id)
    requires KInv(g, fixed, st) && st.queue == [] && st.forced == {}
    requires v in Active(g) && v !in st.processed
    ensures Parents(st.deps, v) - st.processed != {}
  {
    assert DegOk(g, st) && ZeroOk(g, st);
    assert v !in st.queue;
    assert Deg(st.inDeg, v) != 0;
    assert |Parents(st.deps, v) - st.processed| != 0;
  }

  /** With the queue empty and nothing forced, an acyclic graph leaves nothing unresolved. */
  lemma StuckIsDone(g: Graph, fixed: bool, st: St)
    requires Closed(g) && Acyclic(g)
    requires KInv(g, fixed, st) && st.queue == [] && st.forced == {} && st.deps == g.deps
    ensures st.processed == Active(g)
  {
    forall v | v in Active(g) && v !in st.processed ensures Parents(g.deps, v) - st.processed != {} {
      StuckHasParent(g, fixed, st, v);
    }
    NothingHeld(g, st.processed);
  }

  /** If every unresolved mod of an acyclic, closed graph had an unresolved parent, none is unresolved. */
  lemma NothingHeld(g: Graph, processed: set<Id>)
    requires Closed(g) && Acyclic(g)
    requires forall v :: v in Active(g) && v !in processed ==> Parents(g.deps, v) - processed != {}
    ensures Active(g) <= processed
  {
    var rest := Active(g) - processed;
    assert rest != {} ==> HasSource(g.deps, rest);
  }

  /** On an acyclic graph the first pass of `process_queue` emits every mod. */
  lemma Phase1Complete(g: Graph, fixed: bool)
    requires NoDup(g.nodes) && Closed(g) && Acyclic(g)
    ensures var st := ProcessQueue(g, fixed, Init(g));
      st.processed == Active(g) && st.forced == {} && st.deps == g.deps && KInv(g, fixed, st)
  {
    InitKInv(g, fixed);
    ProcessQueueKInv(g, fixed, Init(g));
    ProcessQueueGrows(g, fixed, Init(g));
    StuckIsDone(g, fixed, ProcessQueue(g, fixed, Init(g)));
  }

  /**
   * When the parents form no cycle, `sort` places every mod after all of
   * its parents (hard and soft) and forces nothing out, in either variant.
   */
  lemma AcyclicRespected(g: Graph, fixed: bool, order: set<Id> -> seq<Id>)
    requires IsOrder(order) && NoDup(g.nodes) && Closed(g) && Acyclic(g)
    ensures var st := ResolveState(g, fixed, order);
      && st.forced == {}
      && forall i, p :: 0 <= i < |st.sorted| && p in Parents(g.deps, st.sorted[i]) ==> p in st.sorted[..i]
  {
    Phase1Complete(g, fixed);
    var st := ProcessQueue(g, fixed, Init(g));
    SeqSetCard(g.nodes);
    assert |st.sorted| == |g.nodes|;
    assert ResolveState(g, fixed, order) == st;
  }

  lemma {:induction false} FilterAll(xs: seq<Id>, r: set<Id>)
    requires forall x :: x in xs ==> x in r
    ensures Filter(xs, r) == xs
  {
    if xs != [] {
      FilterAll(xs[1..], r);
    }
  }

  lemma {:induction false} ChildrenNone(nodes: seq<Id>, deps: Deps, p: Id)
    requires forall v :: Parents(deps, v) == {}
    ensures ChildrenOf(nodes, deps, p) == []
  {
    if nodes != [] {
      ChildrenNone(nodes[1..], deps, p);
    }
  }

  lemma EmitNoEdges(g: Graph, fixed: bool, st: St, u: Id)
    requires forall v :: Parents(g.deps, v) == {}
    requires forall v :: Parents(st.deps, v) == {}
    ensures Emit(g, fixed, st, u) == st.(sorted := st.sorted + [u], processed := st.processed + {u})
  {
    ChildrenNone(g.nodes, if fixed then st.deps else g.deps, u);
  }

  lemma {:induction false} ProcessQueueNoEdges(g: Graph, fixed: bool, st: St)
    requires forall v :: Parents(g.deps, v) == {}
    requires forall v :: Parents(st.deps, v) == {}
    requires NoDup(st.sorted + st.queue)
    requires forall v :: v in st.queue ==> v in Active(g) && v !in st.processed
    ensures ProcessQueue(g, fixed, st).sorted == st.sorted + st.queue
    decreases |Active(g) - st.processed|, |st.queue|
  {
    if st.queue != [] {
      var u := st.queue[0];
      var st1 := st.(queue := st.queue[1..]);
      var st2 := st1.(sorted := st1.sorted + [u], processed := st1.processed + {u});
      EmitNoEdges(g, fixed, st1, u);
      CardRemove(Active(g), st.processed, u);
      HeadMoved(st.sorted, st.queue);
      ProcessQueueNoEdges(g, fixed, st2);
    }
  }

  /** Moving the head of the queue to the end of the order keeps their concatenation and its lack of repeats. */
  lemma HeadMoved(sorted: seq<Id>, queue: seq<Id>)
    requires queue != [] && NoDup(sorted + queue)
    ensures (sorted + [queue[0]]) + queue[1..] == sorted + queue
    ensures queue[0] !in queue[1..]
  {
    assert (sorted + [queue[0]]) + queue[1..] == sorted + queue;
    forall v | v in queue[1..] ensures v != queue[0] {
      var k :| 0 <= k < |queue[1..]| && queue[1..][k] == v;
      assert (sorted + queue)[|sorted|] == queue[0];
      assert (sorted + queue)[|sorted| + 1 + k] == v;
    }
  }

  /** With no edges at all, `sort` keeps the current order. */
  lemma NoEdgesKeepsOrder(g: Graph, fixed: bool, order: set<Id> -> seq<Id>)
    requires IsOrder(order) && NoDup(g.nodes)
    requires forall v :: Parents(g.deps, v) == {}
    ensures ResolveState(g, fixed, order).sorted == g.nodes
  {
    var st0 := Init(g);
    FilterAll(g.nodes, Parentless(g));
    assert st0.queue == g.nodes;
    ProcessQueueNoEdges(g, fixed, st0);
    var st1 := ProcessQueue(g, fixed, st0);
    assert st1.sorted == g.nodes;
  }

  // ----- the soft phase drops soft edges only -----

  lemma SoftRoundFacts(g: Graph, st: St, order: set<Id> -> seq<Id>)
    ensures var (st1, has) := SoftRound(g, st, order);
      var unresolved := Active(g) - st.processed;
      && st1.processed == st.processed && st1.sorted == st.sorted && st1.forced == st.forced
      && st1.deps == SoftDeps(g, st, unresolved) && st1.inDeg == SoftDegs(g, st, unresolved)
      && (forall v :: (v in st1.queue) == (v in st.queue || (v in order(unresolved) && v in Released(g, st, unresolved))))
      && (has <==> Released(g, st, unresolved) != {})
  {
  }

  /**
   * A soft round drops only edges that are not hard, between two mods that
   * are both still unresolved, and adds none.
   */
  lemma SoftRoundDropsSoftOnly(g: Graph, st: St, order: set<Id> -> seq<Id>)
    ensures var st1 := SoftRound(g, st, order).0;
      && (forall v :: Parents(st1.deps, v) <= Parents(st.deps, v))
      && (forall v, p :: p in Parents(st.deps, v) && p !in Parents(st1.deps, v) ==>
            && (v, p) !in g.hard
            && v in Active(g) && v !in st.processed
            && p in Active(g) && p !in st.processed)
  {
    SoftRoundFacts(g, st, order);
  }

  /** Over the whole soft loop no hard edge is dropped. */
  lemma {:induction false} SoftPhaseKeepsHard(g: Graph, fixed: bool, st: St, order: set<Id> -> seq<Id>)
    ensures var r := SoftPhase(g, fixed, st, order);
      && (forall v :: Parents(r.deps, v) <= Parents(st.deps, v))
      && (forall v, p :: p in Parents(st.deps, v) && (v, p) in g.hard ==> p in Parents(r.deps, v))
    decreases Links(st.deps, g.nodes)
  {
    if |st.sorted| != |g.nodes| {
      var (st1, has) := SoftRound(g, st, order);
      SoftRoundDropsSoftOnly(g, st, order);
      if has {
        SoftRoundShrinks(g, st, order);
        ProcessQueueGrows(g, fixed, st1);
        SoftPhaseKeepsHard(g, fixed, ProcessQueue(g, fixed, st1), order);
      }
    }
  }

  /** Each forced step emits the picked mod, so the forced loop makes progress. */
  lemma ForcedStepEmits(g: Graph, fixed: bool, st: St, order: set<Id> -> seq<Id>)
    requires IsOrder(order) && Active(g) - st.processed != {}
    ensures var best := Pick(g, st, order);
      var r := ProcessQueue(g, fixed, st.(queue := st.queue + [best], inDeg := st.inDeg[best := 0],
                                          forced := st.forced + {best}));
      best in r.processed && best !in st.processed && st.processed < r.processed
  {
    var best := Pick(g, st, order);
    var st1 := st.(queue := st.queue + [best], inDeg := st.inDeg[best := 0], forced := st.forced + {best});
    ProcessQueueGrows(g, fixed, st1);
  }

  // ----- the corrected soft phase keeps Kahn's invariant -----

  lemma SubDiffCard(a: set<Id>, b: set<Id>)
    requires b <= a
    ensures |a - b| == |a| - |b|
  {
    assert a == (a - b) + b;
    assert (a - b) * b == {};
  }

  lemma DropCard(a: set<Id>, p: set<Id>, soft: set<Id>)
    requires soft <= a - p
    ensures |(a - soft) - p| == |a - p| - |soft|
  {
    assert (a - soft) - p == (a - p) - soft;
    SubDiffCard(a - p, soft);
  }

  lemma SoftDegOk(g: Graph, st: St, order: set<Id> -> seq<Id>)
    requires DegOk(g, st)
    ensures DegOk(g, SoftRound(g, st, order).0)
  {
    SoftRoundFacts(g, st, order);
    var r := SoftRound(g, st, order).0;
    var unresolved := Active(g) - st.processed;
    forall v | v in Active(g) && v !in r.processed && v !in r.forced
      ensures Deg(r.inDeg, v) == |Parents(r.deps, v) - r.processed|
    {
      SoftDegAt(g, st, unresolved, v);
    }
  }

  /** Dropping a mod's soft unresolved parents lowers its in-degree by as many. */
  lemma SoftDegAt(g: Graph, st: St, unresolved: set<Id>, v: Id)
    requires v in unresolved && unresolved * st.processed == {}
    requires Deg(st.inDeg, v) == |Parents(st.deps, v) - st.processed|
    ensures Deg(SoftDegs(g, st, unresolved), v) == |Parents(SoftDeps(g, st, unresolved), v) - st.processed|
  {
    var soft := SoftOf(g, st, unresolved, v);
    assert soft <= Parents(st.deps, v) - st.processed;
    DropCard(Parents(st.deps, v), st.processed, soft);
  }

  lemma SoftQueueOk(g: Graph, st: St, order: set<Id> -> seq<Id>)
    requires KInv(g, true, st)
    ensures QueueOk(g, SoftRound(g, st, order).0)
  {
    SoftRoundFacts(g, st, order);
    var r := SoftRound(g, st, order).0;
    var unresolved := Active(g) - st.processed;
    forall v | v in r.queue && v in Active(g) && v !in r.processed && v !in r.forced
      ensures Deg(r.inDeg, v) == 0
    {
      var soft := SoftOf(g, st, unresolved, v);
      assert soft <= Parents(st.deps, v) - st.processed;
      SubsetCard(soft, Parents(st.deps, v) - st.processed);
      if v in st.queue {
        assert |Parents(st.deps, v) - st.processed| == 0;
        assert |soft| == 0;
      }
    }
  }

  lemma SoftZeroOk(g: Graph, st: St, order: set<Id> -> seq<Id>)
    requires IsOrder(order) && KInv(g, true, st)
    ensures ZeroOk(g, SoftRound(g, st, order).0)
  {
    SoftRoundFacts(g, st, order);
    var r := SoftRound(g, st, order).0;
    var unresolved := Active(g) - st.processed;
    assert Enumerates(order(unresolved), unresolved);
    forall v | v in Active(g) && v !in r.processed && v !in r.forced && Deg(r.inDeg, v) == 0
      ensures v in r.queue
    {
      var soft := SoftOf(g, st, unresolved, v);
      if soft == {} {
        assert Deg(st.inDeg, v) == 0;
        assert v in st.queue;
      } else {
        assert v in Released(g, st, unresolved);
        assert v in order(unresolved);
      }
    }
  }

  lemma SoftKInv(g: Graph, st: St, order: set<Id> -> seq<Id>)
    requires IsOrder(order) && KInv(g, true, st)
    ensures KInv(g, true, SoftRound(g, st, order).0)
  {
    SoftRoundFacts(g, st, order);
    SoftDegOk(g, st, order);
    SoftQueueOk(g, st, order);
    SoftZeroOk(g, st, order);
    var r := SoftRound(g, st, order).0;
    forall i, p | 0 <= i < |r.sorted| && r.sorted[i] !in r.forced && p in Parents(r.deps, r.sorted[i])
      ensures p in r.sorted[..i]
    {
      assert r.sorted[i] in st.processed;
    }
  }

  /** Forcing the pick out keeps the invariant: the forced mod is exempt from it. */
  lemma ForcedKInv(g: Graph, st: St, best: Id)
    requires KInv(g, true, st)
    ensures KInv(g, true, st.(queue := st.queue + [best], inDeg := st.inDeg[best := 0], forced := st.forced + {best}))
  {
    var r := st.(queue := st.queue + [best], inDeg := st.inDeg[best := 0], forced := st.forced + {best});
    assert DegOk(g, r) && QueueOk(g, r);
    assert Respects(r);
  }

  lemma {:induction false} SoftPhaseKInv(g: Graph, st: St, order: set<Id> -> seq<Id>)
    requires IsOrder(order) && NoDup(g.nodes) && KInv(g, true, st)
    ensures KInv(g, true, SoftPhase(g, true, st, order))
    decreases Links(st.deps, g.nodes)
  {
    if |st.sorted| != |g.nodes| {
      var (st1, has) := SoftRound(g, st, order);
      SoftKInv(g, st, order);
      if has {
        SoftRoundShrinks(g, st, order);
        ProcessQueueGrows(g, true, st1);
        ProcessQueueKInv(g, true, st1);
        SoftPhaseKInv(g, ProcessQueue(g, true, st1), order);
      }
    }
  }

  lemma {:induction false} ForcedPhaseKInv(g: Graph, st: St, order: set<Id> -> seq<Id>)
    requires IsOrder(order) && NoDup(g.nodes) && KInv(g, true, st)
    ensures var r := ForcedPhase(g, true, st, order);
      KInv(g, true, r) && r.deps == st.deps
    decreases |Active(g) - st.processed|
  {
    if |st.sorted| != |g.nodes| && Active(g) - st.processed != {} {
      var best := Pick(g, st, order);
      var st1 := st.(queue := st.queue + [best], inDeg := st.inDeg[best := 0], forced := st.forced + {best});
      ForcedKInv(g, st, best);
      ProcessQueueGrows(g, true, st1);
      ProcessQueueKInv(g, true, st1);
      CardRemove(Active(g), st.processed, best);
      SubsetCard(Active(g) - ProcessQueue(g, true, st1).processed, Active(g) - (st.processed + {best}));
      ForcedPhaseKInv(g, ProcessQueue(g, true, st1), order);
    }
  }

  /**
   * With the soft phase corrected, the forced phase is the only place a
   * hard edge can be broken: every mod that was not forced out comes after
   * all its hard parents.
   */
  lemma FixedRespectsHard(g: Graph, order: set<Id> -> seq<Id>)
    requires IsOrder(order) && NoDup(g.nodes)
    requires forall v, p :: (v, p) in g.hard ==> p in Parents(g.deps, v)
    ensures var st := ResolveState(g, true, order);
      forall i, p :: 0 <= i < |st.sorted| && st.sorted[i] !in st.forced && (st.sorted[i], p) in g.hard
        ==> p in st.sorted[..i]
  {
    InitKInv(g, true);
    ProcessQueueKInv(g, true, Init(g));
    ProcessQueueGrows(g, true, Init(g));
    var st1 := ProcessQueue(g, true, Init(g));
    SoftPhaseKInv(g, st1, order);
    SoftPhaseKeepsHard(g, true, st1, order);
    var st2 := SoftPhase(g, true, st1, order);
    ForcedPhaseKInv(g, st2, order);
    var st := ResolveState(g, true, order);
    assert st == ForcedPhase(g, true, st2, order);
    forall i, p | 0 <= i < |st.sorted| && st.sorted[i] !in st.forced && (st.sorted[i], p) in g.hard
      ensures p in st.sorted[..i]
    {
      assert p in Parents(st.deps, st.sorted[i]);
    }
  }

  // ----- the double count in the as-written soft phase -----

  /**
   * A requires the soft patch `B` and hard-requires `C`; `B` softly needs
   * `A`; `C` hard-requires `B`.  The hard edges alone form no cycle.
   */
  function DoubleCountGraph(): Graph {
    Graph(["A", "B", "C"], map["A" := {"B", "C"}, "B" := {"A"}, "C" := {"B"}], {("A", "C"), ("C", "B")})
  }

  lemma {:induction false} FilterMisses(xs: seq<Id>, r: set<Id>)
    requires forall x :: x in xs ==> x !in r
    ensures Filter(xs, r) == []
  {
    if xs != [] {
      FilterMisses(xs[1..], r);
    }
  }

  lemma {:induction false} FilterSingleton(xs: seq<Id>, x: Id)
    requires NoDup(xs) && x in xs
    ensures Filter(xs, {x}) == [x]
  {
    if xs[0] == x {
      assert x !in xs[1..];
      FilterMisses(xs[1..], {x});
    } else {
      assert NoDup(xs[1..]) by {
        forall i, j | 0 <= i < j < |xs[1..]| ensures xs[1..][i] != xs[1..][j] {
          assert xs[1..][i] == xs[i + 1] && xs[1..][j] == xs[j + 1];
        }
      }
      FilterSingleton(xs[1..], x);
    }
  }

  lemma DoubleCountActive()
    ensures Active(DoubleCountGraph()) == {"A", "B", "C"}
  {
  }

  lemma {:induction false} FilterNone(xs: seq<Id>)
    ensures Filter(xs, {}) == []
  {
    if xs != [] {
      FilterNone(xs[1..]);
    }
  }

  lemma DoubleCountInit()
    ensures var g := DoubleCountGraph();
      var st0 := Init(g);
      && st0.queue == [] && st0.deps == g.deps
      && Deg(st0.inDeg, "A") == 2 && Deg(st0.inDeg, "B") == 1 && Deg(st0.inDeg, "C") == 1
  {
    var g := DoubleCountGraph();
    DoubleCountActive();
    assert |Parents(g.deps, "A")| == 2 by { assert {"B", "C"} == {"B"} + {"C"}; }
    var zeros := Parentless(g);
    assert zeros == {};
    FilterNone(g.nodes);
  }

  lemma DoubleCountSoftOf(st: St)
    requires st.deps == DoubleCountGraph().deps
    ensures var g := DoubleCountGraph();
      && SoftOf(g, st, {"A", "B", "C"}, "A") == {"B"}
      && SoftOf(g, st, {"A", "B", "C"}, "B") == {"A"}
      && SoftOf(g, st, {"A", "B", "C"}, "C") == {}
  {
  }

  lemma DoubleCountReleased(st: St)
    requires st.deps == DoubleCountGraph().deps
    requires Deg(st.inDeg, "A") == 2 && Deg(st.inDeg, "B") == 1 && Deg(st.inDeg, "C") == 1
    ensures Released(DoubleCountGraph(), st, {"A", "B", "C"}) == {"B"}
  {
    DoubleCountSoftOf(st);
  }

  /** The one soft round this graph gets queues only `B`. */
  lemma DoubleCountSoftQueue(order: set<Id> -> seq<Id>)
    requires IsOrder(order)
    ensures var g := DoubleCountGraph();
      var r := SoftRound(g, Init(g), order);
      && r.1 && r.0.queue == ["B"] && r.0.sorted == [] && r.0.processed == {} && r.0.forced == {}
  {
    var g := DoubleCountGraph();
    var st0 := Init(g);
    var all := {"A", "B", "C"};
    DoubleCountInit();
    assert Active(g) - st0.processed == all by {
      DoubleCountActive();
    }
    assert Released(g, st0, all) == {"B"} by {
      DoubleCountReleased(st0);
    }
    assert Filter(order(all), {"B"}) == ["B"] by {
      assert Enumerates(order(all), all);
      FilterSingleton(order(all), "B");
    }
    SoftRoundShape(g, st0, order, all, {"B"});
  }

  lemma SoftRoundShape(g: Graph, st: St, order: set<Id> -> seq<Id>, unresolved: set<Id>, released: set<Id>)
    requires unresolved == Active(g) - st.processed && released == Released(g, st, unresolved)
    ensures var r := SoftRound(g, st, order);
      && r.1 == (released != {}) && r.0.queue == st.queue + Filter(order(unresolved), released)
      && r.0.sorted == st.sorted && r.0.processed == st.processed && r.0.forced == st.forced
      && r.0.deps == SoftDeps(g, st, unresolved) && r.0.inDeg == SoftDegs(g, st, unresolved)
  {
  }

  /** It lowers `A` and `B` by one each and leaves `C` alone. */
  lemma DoubleCountSoftDegs(order: set<Id> -> seq<Id>)
    ensures var g := DoubleCountGraph();
      var st1 := SoftRound(g, Init(g), order).0;
      Deg(st1.inDeg, "A") == 1 && Deg(st1.inDeg, "B") == 0 && Deg(st1.inDeg, "C") == 1
  {
    var g := DoubleCountGraph();
    var st0 := Init(g);
    var all := {"A", "B", "C"};
    DoubleCountInit();
    assert Active(g) - st0.processed == all by {
      DoubleCountActive();
    }
    SoftRoundShape(g, st0, order, all, Released(g, st0, all));
    assert |SoftOf(g, st0, all, "A")| == 1 && |SoftOf(g, st0, all, "B")| == 1 && |SoftOf(g, st0, all, "C")| == 0 by {
      DoubleCountSoftOf(st0);
    }
  }

  /**
   * The as-written resolver on `DoubleCountGraph`: the soft round drops the
   * edges between `A` and `B` and queues `B`; emitting `B` then lowers `A`
   * twice (once for the dropped edge, again through the child list built
   * before it was dropped), so `A` is emitted before its hard parent `C`,
   * although nothing was forced out.
   */
  lemma SoftPhaseDoubleCount(order: set<Id> -> seq<Id>)
    requires IsOrder(order)
    ensures var g := DoubleCountGraph();
      var st := ResolveState(g, false, order);
      && st.sorted == ["B", "A", "C"] && st.forced == {}
      && ("A", "C") in g.hard && st.sorted[1] == "A" && "C" !in st.sorted[..1]
  {
    var g := DoubleCountGraph();
    var st0 := Init(g);
    assert ProcessQueue(g, false, st0) == st0 by {
      DoubleCountInit();
    }
    DoubleCountSoftQueue(order);
    DoubleCountSoftDegs(order);
    var st1 := SoftRound(g, st0, order).0;
    var st4 := DoubleCountDrain(st1);
    PhasesEndAt(g, false, order, st1, st4);
    DoubleCountOrder(st4.sorted);
  }

  /** In `B, A, C`, `A` comes second and `C` is not before it. */
  lemma DoubleCountOrder(xs: seq<Id>)
    requires xs == ["B", "A", "C"]
    ensures xs[1] == "A" && "C" !in xs[..1]
  {
    assert xs[..1] == ["B"];
  }

  /**
   * The resolver's outcome when the first queue pass does nothing, one soft
   * round releases something, and draining the queue after it emits every mod.
   */
  lemma PhasesEndAt(g: Graph, fixed: bool, order: set<Id> -> seq<Id>, st1: St, st4: St)
    requires IsOrder(order) && ProcessQueue(g, fixed, Init(g)) == Init(g)
    requires |Init(g).sorted| != |g.nodes| && SoftRound(g, Init(g), order) == (st1, true)
    requires ProcessQueue(g, fixed, st1) == st4 && |st4.sorted| == |g.nodes|
    ensures ResolveState(g, fixed, order) == st4
  {
    assert SoftPhase(g, fixed, st4, order) == st4;
    assert ForcedPhase(g, fixed, st4, order) == st4;
  }

  lemma PopEmit(g: Graph, fixed: bool, st: St)
    requires st.queue != [] && st.queue[0] in Active(g) && st.queue[0] !in st.processed
    ensures ProcessQueue(g, fixed, st) == ProcessQueue(g, fixed, Emit(g, fixed, st.(queue := st.queue[1..]), st.queue[0]))
  {
  }

  lemma PopSkip(g: Graph, st: St)
    requires st.queue != [] && (st.queue[0] !in Active(g) || st.queue[0] in st.processed)
    ensures ProcessQueue(g, false, st) == ProcessQueue(g, false, st.(queue := st.queue[1..]))
  {
  }

  lemma ReleaseStep(st: St, cs: seq<Id>)
    requires cs != []
    ensures var d := Deg(st.inDeg, cs[0]) - 1;
      Release(st, cs) == Release(st.(inDeg := st.inDeg[cs[0] := d], queue := if d == 0 then st.queue + [cs[0]] else st.queue), cs[1..])
  {
  }

  /** The child lists of the original parent sets. */
  lemma DoubleCountChildren()
    ensures var g := DoubleCountGraph();
      && ChildrenOf(g.nodes, g.deps, "A") == ["B"]
      && ChildrenOf(g.nodes, g.deps, "B") == ["A", "C"]
      && ChildrenOf(g.nodes, g.deps, "C") == ["A"]
  {
    var g := DoubleCountGraph();
    assert Parents(g.deps, "A") == {"B", "C"} && Parents(g.deps, "B") == {"A"} && Parents(g.deps, "C") == {"B"};
  }

  /** Releasing a list that starts with `v`: `v` is lowered to `d` first. */
  lemma ReleaseHead(st: St, v: Id, rest: seq<Id>, d: int)
    requires d == Deg(st.inDeg, v) - 1
    ensures Release(st, [v] + rest)
            == Release(st.(inDeg := st.inDeg[v := d], queue := if d == 0 then st.queue + [v] else st.queue), rest)
  {
    assert ([v] + rest)[1..] == rest;
  }

  /** Emitting `B`: both `A` and `C` drop to zero and are queued, in that order. */
  lemma DoubleCountEmitB(st1: St) returns (st2: St)
    requires st1.queue == ["B"] && st1.sorted == [] && st1.processed == {} && st1.forced == {}
    requires Deg(st1.inDeg, "A") == 1 && Deg(st1.inDeg, "B") == 0 && Deg(st1.inDeg, "C") == 1
    ensures st2 == Emit(DoubleCountGraph(), false, st1.(queue := []), "B")
    ensures st2.queue == ["A", "C"] && st2.sorted == ["B"] && st2.processed == {"B"} && st2.forced == {}
    ensures Deg(st2.inDeg, "A") == 0 && Deg(st2.inDeg, "B") == 0
  {
    var g := DoubleCountGraph();
    var s0 := st1.(queue := []);
    var e1 := s0.(sorted := s0.sorted + ["B"], processed := s0.processed + {"B"});
    var e2 := e1.(inDeg := e1.inDeg["A" := 0], queue := e1.queue + ["A"]);
    var e3 := e2.(inDeg := e2.inDeg["C" := 0], queue := e2.queue + ["C"]);
    assert Emit(g, false, s0, "B") == Release(e1, ["A"] + ["C"]) by {
      DoubleCountChildren();
      assert Kids(g, false, e1, "B") == ["A"] + ["C"];
    }
    assert Release(e1, ["A"] + ["C"]) == Release(e2, ["C"]) by {
      ReleaseHead(e1, "A", ["C"], 0);
    }
    assert Release(e2, ["C"]) == e3 by {
      assert ["C"] == ["C"] + [];
      ReleaseHead(e2, "C", [], 0);
    }
    st2 := e3;
    assert st2.queue == ["A", "C"] && st2.sorted == ["B"];
  }

  /** Emitting `A` next, while its hard parent `C` still waits in the queue. */
  lemma DoubleCountEmitA(st2: St) returns (st3: St)
    requires st2.queue == ["A", "C"] && st2.sorted == ["B"] && st2.processed == {"B"} && st2.forced == {}
    requires Deg(st2.inDeg, "A") == 0 && Deg(st2.inDeg, "B") == 0
    ensures st3 == Emit(DoubleCountGraph(), false, st2.(queue := ["C"]), "A")
    ensures st3.queue == ["C"] && st3.sorted == ["B", "A"] && st3.processed == {"B", "A"} && st3.forced == {}
    ensures Deg(st3.inDeg, "A") == 0
  {
    var g := DoubleCountGraph();
    var s0 := st2.(queue := ["C"]);
    var e := s0.(sorted := s0.sorted + ["A"], processed := s0.processed + {"A"});
    DoubleCountChildren();
    assert Kids(g, false, e, "A") == ["B"] + [];
    ReleaseHead(e, "B", [], -1);
    st3 := e.(inDeg := e.inDeg["B" := -1]);
    assert st3.sorted == ["B", "A"];
  }

  /** Emitting `C` last. */
  lemma DoubleCountEmitC(st3: St) returns (st4: St)
    requires st3.queue == ["C"] && st3.sorted == ["B", "A"] && st3.processed == {"B", "A"} && st3.forced == {}
    requires Deg(st3.inDeg, "A") == 0
    ensures st4 == Emit(DoubleCountGraph(), false, st3.(queue := []), "C")
    ensures st4.queue == [] && st4.sorted == ["B", "A", "C"] && st4.forced == {}
  {
    var g := DoubleCountGraph();
    var s0 := st3.(queue := []);
    var e := s0.(sorted := s0.sorted + ["C"], processed := s0.processed + {"C"});
    DoubleCountChildren();
    assert Kids(g, false, e, "C") == ["A"] + [];
    ReleaseHead(e, "A", [], -1);
    st4 := e.(inDeg := e.inDeg["A" := -1]);
    assert st4.sorted == ["B", "A", "C"];
  }

  /** Draining the queue after that round with the child lists of the original parents. */
  lemma DoubleCountDrain(st1: St) returns (st4: St)
    requires st1.queue == ["B"] && st1.sorted == [] && st1.processed == {} && st1.forced == {}
    requires Deg(st1.inDeg, "A") == 1 && Deg(st1.inDeg, "B") == 0 && Deg(st1.inDeg, "C") == 1
    ensures st4 == ProcessQueue(DoubleCountGraph(), false, st1)
    ensures st4.sorted == ["B", "A", "C"] && st4.forced == {} && st4.queue == []
  {
    var g := DoubleCountGraph();
    DoubleCountActive();
    PopEmit(g, false, st1);
    var st2 := DoubleCountEmitB(st1);
    PopEmit(g, false, st2);
    assert st2.queue[1..] == ["C"];
    var st3 := DoubleCountEmitA(st2);
    PopEmit(g, false, st3);
    st4 := DoubleCountEmitC(st3);
  }

  // ----- the resolver as `sort` runs it -----

  lemma {:induction false} ChildrenSnoc(xs: seq<Id>, x: Id, deps: Deps, p: Id)
    ensures ChildrenOf(xs + [x], deps, p) == ChildrenOf(xs, deps, p) + (if p in Parents(deps, x) then [x] else [])
  {
    if xs != [] {
      assert (xs + [x])[1..] == xs[1..] + [x];
      ChildrenSnoc(xs[1..], x, deps, p);
    }
  }

  lemma {:induction false} FilterSnoc(xs: seq<Id>, x: Id, r: set<Id>)
    ensures Filter(xs + [x], r) == Filter(xs, r) + (if x in r then [x] else [])
  {
    if xs != [] {
      assert (xs + [x])[1..] == xs[1..] + [x];
      FilterSnoc(xs[1..], x, r);
    }
  }

  /** `children_graph.get(p, [])`. */
  function KidList(children: map<Id, seq<Id>>, p: Id): seq<Id> {
    if p in children then children[p] else []
  }

  /** Appending `child` to the list of `p` changes that list only. */
  lemma AddLink(children: map<Id, seq<Id>>, p: Id, child: Id)
    ensures forall q :: KidList(children[p := KidList(children, p) + [child]], q)
                        == KidList(children, q) + (if q == p then [child] else [])
  {
  }

  /** Appending `child` to the list of each of its parents. */
  method AddChild(children: map<Id, seq<Id>>, child: Id, parents: set<Id>) returns (r: map<Id, seq<Id>>)
    ensures forall q :: KidList(r, q) == KidList(children, q) + (if q in parents then [child] else [])
  {
    r := children;
    var left := parents;
    while left != {}
      invariant left <= parents
      invariant forall q :: KidList(r, q) == KidList(children, q) + (if q in parents - left then [child] else [])
      decreases |left|
    {
      var p :| p in left;
      AddLink(r, p, child);
      r := r[p := KidList(r, p) + [child]];
      left := left - {p};
    }
  }

  /** Building `children_graph`: every parent-to-child link, children in mod order. */
  method ChildGraph(g: Graph) returns (children: map<Id, seq<Id>>)
    ensures forall p :: KidList(children, p) == ChildrenOf(g.nodes, g.deps, p)
  {
    children := map[];
    for i := 0 to |g.nodes|
      invariant forall p :: KidList(children, p) == ChildrenOf(g.nodes[..i], g.deps, p)
    {
      ghost var before := children;
      children := AddChild(children, g.nodes[i], Parents(g.deps, g.nodes[i]));
      ChildGraphStep(g.nodes, g.deps, i, before, children);
    }
    assert g.nodes[..|g.nodes|] == g.nodes;
  }

  /** One more mod's links extend the child lists of the prefix before it. */
  lemma ChildGraphStep(nodes: seq<Id>, deps: Deps, i: nat, before: map<Id, seq<Id>>, after: map<Id, seq<Id>>)
    requires i < |nodes|
    requires forall p :: KidList(before, p) == ChildrenOf(nodes[..i], deps, p)
    requires forall q :: KidList(after, q) == KidList(before, q) + (if q in Parents(deps, nodes[i]) then [nodes[i]] else [])
    ensures forall p :: KidList(after, p) == ChildrenOf(nodes[..i + 1], deps, p)
  {
    assert nodes[..i + 1] == nodes[..i] + [nodes[i]];
    forall p ensures KidList(after, p) == ChildrenOf(nodes[..i + 1], deps, p) {
      ChildrenSnoc(nodes[..i], nodes[i], deps, p);
    }
  }

  /** The parent sets once the soft parents of the mods in `done` are dropped. */
  function SoftDepsOver(g: Graph, st: St, unresolved: set<Id>, done: set<Id>): Deps {
    map v | v in st.deps.Keys + done ::
      if v in done then Parents(st.deps, v) - SoftOf(g, st, unresolved, v) else st.deps[v]
  }

  /** The in-degrees once those of the mods in `done` are lowered. */
  function SoftDegsOver(g: Graph, st: St, unresolved: set<Id>, done: set<Id>): map<Id, int> {
    map v | v in st.inDeg.Keys + done ::
      if v in done then Deg(st.inDeg, v) - |SoftOf(g, st, unresolved, v)| else st.inDeg[v]
  }

  /** Visiting one more mod of the soft pass changes its own parent set only. */
  lemma SoftDepsStep(g: Graph, st: St, unresolved: set<Id>, done: set<Id>, u: Id)
    requires u !in done
    ensures Parents(SoftDepsOver(g, st, unresolved, done), u) == Parents(st.deps, u)
    ensures SoftDepsOver(g, st, unresolved, done + {u})
            == SoftDepsOver(g, st, unresolved, done)[u := Parents(st.deps, u) - SoftOf(g, st, unresolved, u)]
  {
    var before := SoftDepsOver(g, st, unresolved, done);
    var after := SoftDepsOver(g, st, unresolved, done + {u});
    var upd := before[u := Parents(st.deps, u) - SoftOf(g, st, unresolved, u)];
    assert after.Keys == upd.Keys;
    forall v | v in after.Keys ensures after[v] == upd[v] {
    }
  }

  /** Visiting one more mod of the soft pass changes its own in-degree only. */
  lemma SoftDegsStep(g: Graph, st: St, unresolved: set<Id>, done: set<Id>, u: Id)
    requires u !in done
    ensures Deg(SoftDegsOver(g, st, unresolved, done), u) == Deg(st.inDeg, u)
    ensures SoftDegsOver(g, st, unresolved, done + {u})
            == SoftDegsOver(g, st, unresolved, done)[u := Deg(st.inDeg, u) - |SoftOf(g, st, unresolved, u)|]
  {
    var before := SoftDegsOver(g, st, unresolved, done);
    var after := SoftDegsOver(g, st, unresolved, done + {u});
    var upd := before[u := Deg(st.inDeg, u) - |SoftOf(g, st, unresolved, u)|];
    assert after.Keys == upd.Keys;
    forall v | v in after.Keys ensures after[v] == upd[v] {
    }
  }

  /** Once every unresolved mod is visited, the pass has built `SoftDeps` and `SoftDegs`. */
  lemma SoftOverAll(g: Graph, st: St, unresolved: set<Id>)
    ensures SoftDepsOver(g, st, unresolved, unresolved) == SoftDeps(g, st, unresolved)
    ensures SoftDegsOver(g, st, unresolved, unresolved) == SoftDegs(g, st, unresolved)
  {
  }

  lemma {:induction false} FilterNoDup(xs: seq<Id>, r: set<Id>)
    requires NoDup(xs)
    ensures NoDup(Filter(xs, r))
  {
    if xs != [] {
      FilterNoDup(xs[1..], r);
      var ys := Filter(xs, r);
      var tail := Filter(xs[1..], r);
      if xs[0] in r {
        assert ys == [xs[0]] + tail;
        assert xs[0] !in xs[1..];
        assert xs[0] !in tail;
        forall i, j | 0 <= i < j < |ys| ensures ys[i] != ys[j] {
          if i > 0 { assert ys[i] == tail[i - 1] && ys[j] == tail[j - 1]; }
          else { assert ys[j] in tail by { assert ys[j] == tail[j - 1]; } }
        }
      } else {
        assert ys == tail;
      }
    }
  }

  /** A filter over a listing of a superset of `r` is empty exactly when `r` is. */
  lemma FilterEmpty(xs: seq<Id>, r: set<Id>)
    requires forall x :: x in r ==> x in xs
    ensures Filter(xs, r) == [] <==> r == {}
  {
    var ys := Filter(xs, r);
    if r != {} {
      var x :| x in r;
      assert x in ys;
    }
    if ys != [] {
      assert ys[0] in ys;
    }
  }

  /** `Pick` takes the first minimiser in the iteration order. */
  lemma PickUnfold(g: Graph, st: St, order: set<Id> -> seq<Id>)
    requires IsOrder(order) && Active(g) - st.processed != {}
    ensures order(Active(g) - st.processed) != []
    ensures Pick(g, st, order) == FirstMin(order(Active(g) - st.processed), st, Active(g) - st.processed)
  {
  }

  /** One step of the forced loop. */
  lemma ForcedUnfold(g: Graph, fixed: bool, st: St, order: set<Id> -> seq<Id>)
    requires IsOrder(order) && |st.sorted| != |g.nodes| && Active(g) - st.processed != {}
    ensures var best := Pick(g, st, order);
      ForcedPhase(g, fixed, st, order)
      == ForcedPhase(g, fixed, ProcessQueue(g, fixed, st.(queue := st.queue + [best], inDeg := st.inDeg[best := 0],
                                                           forced := st.forced + {best})), order)
  {
  }

  /** `min(unresolved, key=...)` over the listing `xs`: the first mod with the fewest unresolved parents. */
  method MinHolder(xs: seq<Id>, deps: Deps, unresolved: set<Id>, ghost st: St) returns (best: Id)
    requires xs != [] && st.deps == deps
    ensures best == FirstMin(xs, st, unresolved)
  {
    best := xs[0];
    var bestKey := |Parents(deps, best) * unresolved|;
    var j := 1;
    while j < |xs|
      invariant 1 <= j <= |xs| && best in xs
      invariant MinScan(xs, j, best, st, unresolved) == FirstMin(xs, st, unresolved)
      invariant bestKey == Holding(st, unresolved, best)
    {
      var key := |Parents(deps, xs[j]) * unresolved|;
      if key < bestKey {
        best := xs[j];
        bestKey := key;
      }
      j := j + 1;
    }
  }

  lemma DropStep(parents: set<Id>, soft: set<Id>, holders: set<Id>, dropped: set<Id>, p: Id)
    requires dropped == soft - holders && p in holders
    ensures p in soft ==> dropped + {p} == soft - (holders - {p}) && |dropped + {p}| == |dropped| + 1
    ensures p in soft ==> (parents - dropped) - {p} == parents - (dropped + {p})
    ensures p !in soft ==> dropped == soft - (holders - {p})
  {
  }

  /**
   * One mod `u` of the soft pass: `holders` are its unresolved parents; each
   * soft one is dropped and lowers the in-degree `d`, and `u` joins the queue
   * when `d` reaches zero.  `hit` says whether it joined.  The holders are
   * visited in any order: the outcome does not depend on it.
   */
  method DropSoft(u: Id, unresolved: set<Id>, hard: set<(Id, Id)>, parents: set<Id>, d: int, queue: seq<Id>)
    returns (parents': set<Id>, d': int, queue': seq<Id>, hit: bool)
    ensures var soft := SoftAmong(u, unresolved, hard, parents);
      && parents' == parents - soft && d' == d - |soft|
      && hit == (1 <= d <= |soft|)
      && queue' == queue + (if hit then [u] else [])
  {
    ghost var soft := SoftAmong(u, unresolved, hard, parents);
    var holders := parents * unresolved;
    ghost var dropped: set<Id> := {};
    ghost var n := 0;
    parents', d', queue', hit := parents, d, queue, false;
    while holders != {}
      invariant holders <= parents * unresolved
      invariant dropped == soft - holders && n == |dropped|
      invariant parents' == parents - dropped
      invariant d' == d - n
      invariant hit == (1 <= d <= n)
      invariant queue' == queue + (if hit then [u] else [])
      decreases |holders|
    {
      var p :| p in holders;
      assert p in soft <==> (u, p) !in hard;
      DropStep(parents, soft, holders, dropped, p);
      if (u, p) !in hard {
        d' := d' - 1;
        parents' := parents' - {p};
        dropped := dropped + {p};
        n := n + 1;
        if d' == 0 {
          queue' := queue' + [u];
          hit := true;
        }
      }
      holders := holders - {p};
    }
  }

  /** The first `i` members of `xs`, as a set. */
  function Prefix(xs: seq<Id>, i: nat): set<Id>
    requires i <= |xs|
  {
    if i == 0 then {} else Prefix(xs, i - 1) + {xs[i - 1]}
  }

  /** The members of the first `i` of `xs` that lie in `r`, in order. */
  function FilterUpTo(xs: seq<Id>, i: nat, r: set<Id>): seq<Id>
    requires i <= |xs|
  {
    if i == 0 then [] else FilterUpTo(xs, i - 1, r) + (if xs[i - 1] in r then [xs[i - 1]] else [])
  }

  lemma PrefixStep(xs: seq<Id>, i: nat, r: set<Id>)
    requires i < |xs|
    ensures Prefix(xs, i + 1) == Prefix(xs, i) + {xs[i]}
    ensures FilterUpTo(xs, i + 1, r) == FilterUpTo(xs, i, r) + (if xs[i] in r then [xs[i]] else [])
  {
  }

  /** Without repetitions, a later member is not among the first `i`. */
  lemma {:induction false} PrefixMisses(xs: seq<Id>, i: nat)
    requires NoDup(xs) && i < |xs|
    ensures xs[i] !in Prefix(xs, i)
  {
    PrefixBelow(xs, i);
  }

  lemma {:induction false} PrefixBelow(xs: seq<Id>, i: nat)
    requires i <= |xs|
    ensures forall v :: v in Prefix(xs, i) ==> exists k :: 0 <= k < i && xs[k] == v
  {
    if i > 0 {
      PrefixBelow(xs, i - 1);
    }
  }

  /** A listing of `s` reaches all of `s`. */
  lemma {:induction false} PrefixAll(xs: seq<Id>, s: set<Id>)
    requires Enumerates(xs, s)
    ensures Prefix(xs, |xs|) == s
  {
    PrefixBelow(xs, |xs|);
    PrefixHas(xs, |xs|);
  }

  lemma {:induction false} PrefixHas(xs: seq<Id>, i: nat)
    requires i <= |xs|
    ensures forall k :: 0 <= k < i ==> xs[k] in Prefix(xs, i)
  {
    if i > 0 {
      PrefixHas(xs, i - 1);
    }
  }

  /** Filtering the whole of `xs` by positions is `Filter`. */
  lemma {:induction false} FilterUpToAll(xs: seq<Id>, r: set<Id>)
    ensures FilterUpTo(xs, |xs|, r) == Filter(xs, r)
  {
    FilterUpToSlice(xs, |xs|, r);
    assert xs[..|xs|] == xs;
  }

  lemma {:induction false} FilterUpToSlice(xs: seq<Id>, i: nat, r: set<Id>)
    requires i <= |xs|
    ensures FilterUpTo(xs, i, r) == Filter(xs[..i], r)
  {
    if i > 0 {
      FilterUpToSlice(xs, i - 1, r);
      assert xs[..i] == xs[..i - 1] + [xs[i - 1]];
      FilterSnoc(xs[..i - 1], xs[i - 1], r);
    }
  }

  lemma ConcatAssoc(a: seq<Id>, b: seq<Id>, c: seq<Id>)
    ensures (a + b) + c == a + (b + c)
  {
  }

  /** The state of the soft pass once the first `i` mods of `us` are visited. */
  ghost predicate Visited(g: Graph, st0: St, unresolved: set<Id>, us: seq<Id>, i: nat, q0: seq<Id>,
                          deps: Deps, inDeg: map<Id, int>, queue: seq<Id>, has: bool)
  {
    && i <= |us|
    && deps == SoftDepsOver(g, st0, unresolved, Prefix(us, i))
    && inDeg == SoftDegsOver(g, st0, unresolved, Prefix(us, i))
    && queue == q0 + FilterUpTo(us, i, Released(g, st0, unresolved))
    && has == (FilterUpTo(us, i, Released(g, st0, unresolved)) != [])
  }

  /** The visit of `us[i]`, the next unresolved mod, in the soft pass. */
  method SoftVisit(g: Graph, unresolved: set<Id>, us: seq<Id>, i: nat, deps: Deps, inDeg: map<Id, int>,
                   queue: seq<Id>, has: bool, ghost st0: St, ghost q0: seq<Id>)
    returns (deps': Deps, inDeg': map<Id, int>, queue': seq<Id>, has': bool)
    requires Enumerates(us, unresolved) && i < |us| && unresolved <= st0.inDeg.Keys
    requires Visited(g, st0, unresolved, us, i, q0, deps, inDeg, queue, has)
    ensures Visited(g, st0, unresolved, us, i + 1, q0, deps', inDeg', queue', has')
  {
    var u := us[i];
    var parents, d, hit;
    parents, d, queue', hit := DropSoft(u, unresolved, g.hard, Parents(deps, u), inDeg[u], queue);
    deps' := deps[u := parents];
    inDeg' := inDeg[u := d];
    has' := has || hit;
    VisitMaps(g, st0, unresolved, us, i, deps, inDeg, parents, d);
    VisitQueue(g, st0, unresolved, us, i, inDeg, q0, hit);
  }

  /** The parent sets and in-degrees after the visit of `us[i]`. */
  lemma VisitMaps(g: Graph, st0: St, unresolved: set<Id>, us: seq<Id>, i: nat,
                  deps: Deps, inDeg: map<Id, int>, parents: set<Id>, d: int)
    requires Enumerates(us, unresolved) && i < |us| && unresolved <= st0.inDeg.Keys
    requires deps == SoftDepsOver(g, st0, unresolved, Prefix(us, i))
    requires inDeg == SoftDegsOver(g, st0, unresolved, Prefix(us, i))
    requires var u := us[i];
      var soft := set p | p in Parents(deps, u) && p in unresolved && (u, p) !in g.hard;
      parents == Parents(deps, u) - soft && u in inDeg && d == inDeg[u] - |soft|
    ensures deps[us[i] := parents] == SoftDepsOver(g, st0, unresolved, Prefix(us, i + 1))
    ensures inDeg[us[i] := d] == SoftDegsOver(g, st0, unresolved, Prefix(us, i + 1))
    ensures var u := us[i];
      var soft := set p | p in Parents(deps, u) && p in unresolved && (u, p) !in g.hard;
      (1 <= inDeg[u] <= |soft|) == (u in Released(g, st0, unresolved))
  {
    var u := us[i];
    PrefixMisses(us, i);
    PrefixStep(us, i, {});
    SoftDepsStep(g, st0, unresolved, Prefix(us, i), u);
    SoftDegsStep(g, st0, unresolved, Prefix(us, i), u);
    assert (set p | p in Parents(deps, u) && p in unresolved && (u, p) !in g.hard) == SoftOf(g, st0, unresolved, u);
  }

  /** The queue after the visit of `us[i]`: it is appended exactly when it is released. */
  lemma VisitQueue(g: Graph, st0: St, unresolved: set<Id>, us: seq<Id>, i: nat, inDeg: map<Id, int>,
                   q0: seq<Id>, hit: bool)
    requires i < |us|
    requires hit == (us[i] in Released(g, st0, unresolved))
    ensures q0 + FilterUpTo(us, i, Released(g, st0, unresolved)) + (if hit then [us[i]] else [])
            == q0 + FilterUpTo(us, i + 1, Released(g, st0, unresolved))
    ensures (FilterUpTo(us, i + 1, Released(g, st0, unresolved)) != [])
            == (FilterUpTo(us, i, Released(g, st0, unresolved)) != [] || hit)
  {
    PrefixStep(us, i, Released(g, st0, unresolved));
    ConcatAssoc(q0, FilterUpTo(us, i, Released(g, st0, unresolved)), if hit then [us[i]] else []);
  }

  /**
   * One round of the soft loop over the parent sets, in-degrees and queue:
   * every unresolved mod is visited in iteration order.
   */
  method SoftPassOn(g: Graph, order: set<Id> -> seq<Id>, unresolved: set<Id>,
                    deps: Deps, inDeg: map<Id, int>, queue: seq<Id>, ghost st0: St)
    returns (deps': Deps, inDeg': map<Id, int>, queue': seq<Id>, has: bool)
    requires IsOrder(order) && unresolved <= inDeg.Keys && unresolved <= st0.inDeg.Keys
    requires st0.deps == deps && st0.inDeg == inDeg && st0.queue == queue
    ensures deps' == SoftDeps(g, st0, unresolved) && inDeg' == SoftDegs(g, st0, unresolved)
    ensures var released := Released(g, st0, unresolved);
      queue' == queue + Filter(order(unresolved), released) && has == (released != {})
  {
    var us := order(unresolved);
    deps', inDeg', queue', has := SoftVisitAll(g, unresolved, us, deps, inDeg, queue, st0);
    SoftPassDone(g, st0, unresolved, us);
    assert Visited(g, st0, unresolved, us, |us|, queue, deps', inDeg', queue', has);
  }

  /** The visits of every mod of `us`, in order. */
  method SoftVisitAll(g: Graph, unresolved: set<Id>, us: seq<Id>,
                      deps: Deps, inDeg: map<Id, int>, queue: seq<Id>, ghost st0: St)
    returns (deps': Deps, inDeg': map<Id, int>, queue': seq<Id>, has: bool)
    requires Enumerates(us, unresolved) && unresolved <= st0.inDeg.Keys
    requires st0.deps == deps && st0.inDeg == inDeg
    ensures Visited(g, st0, unresolved, us, |us|, queue, deps', inDeg', queue', has)
  {
    deps', inDeg', queue', has := deps, inDeg, queue, false;
    SoftOverNone(g, st0, unresolved);
    for i := 0 to |us|
      invariant Visited(g, st0, unresolved, us, i, queue, deps', inDeg', queue', has)
    {
      deps', inDeg', queue', has := SoftVisit(g, unresolved, us, i, deps', inDeg', queue', has, st0, queue);
    }
  }

  /** Nothing visited yet: the maps are the starting ones. */
  lemma SoftOverNone(g: Graph, st0: St, unresolved: set<Id>)
    ensures SoftDepsOver(g, st0, unresolved, {}) == st0.deps
    ensures SoftDegsOver(g, st0, unresolved, {}) == st0.inDeg
  {
  }

  /** Once all of `us` is visited, the round has built what `SoftRound` states. */
  lemma SoftPassDone(g: Graph, st0: St, unresolved: set<Id>, us: seq<Id>)
    requires Enumerates(us, unresolved)
    ensures SoftDepsOver(g, st0, unresolved, Prefix(us, |us|)) == SoftDeps(g, st0, unresolved)
    ensures SoftDegsOver(g, st0, unresolved, Prefix(us, |us|)) == SoftDegs(g, st0, unresolved)
    ensures FilterUpTo(us, |us|, Released(g, st0, unresolved)) == Filter(us, Released(g, st0, unresolved))
    ensures Filter(us, Released(g, st0, unresolved)) != [] <==> Released(g, st0, unresolved) != {}
  {
    PrefixAll(us, unresolved);
    FilterUpToAll(us, Released(g, st0, unresolved));
    SoftOverAll(g, st0, unresolved);
    FilterEmpty(us, Released(g, st0, unresolved));
  }

  /**
   * The state `sort` keeps while ordering: `in_degree`, `children_graph`,
   * `dependencies`, the queue, `sorted_mods` and `processed`, shared by the
   * nested `process_queue`.  `forced` records the forced-out mods for the
   * proof only.
   */
  class Resolver {
    const g: Graph
    const fixed: bool
    const active: set<Id>
    const children: map<Id, seq<Id>>
    var inDeg: map<Id, int>
    var deps: Deps
    var queue: seq<Id>
    var sorted: seq<Id>
    var processed: set<Id>
    ghost var forced: set<Id>

    ghost function State(): St
      reads this
    {
      St(inDeg, deps, queue, sorted, processed, forced)
    }

    /** The child lists are those of the starting parents. */
    ghost predicate ChildLinks()
    {
      forall p :: KidList(children, p) == ChildrenOf(g.nodes, g.deps, p)
    }

    /** Every active mod has an in-degree entry. */
    ghost predicate Valid()
      reads this
    {
      active == Active(g) && active <= inDeg.Keys
    }

    /** In-degrees, child lists and the seeded queue. */
    constructor (graph: Graph, fix: bool)
      ensures Valid() && ChildLinks() && g == graph && fixed == fix && State() == Init(graph)
    {
      var cs := ChildGraph(graph);
      var seeds := Seeds(graph);
      g := graph;
      fixed := fix;
      active := set v | v in graph.nodes;
      deps := graph.deps;
      sorted := [];
      processed := {};
      forced := {};
      inDeg := map v | v in (set v | v in graph.nodes) :: |Parents(graph.deps, v)|;
      children := cs;
      queue := seeds;
    }

    /** The starting queue: the mods with no parent, in mod order. */
    static method Seeds(graph: Graph) returns (queue: seq<Id>)
      ensures queue == Init(graph).queue
    {
      ghost var zeros := Parentless(graph);
      queue := [];
      for i := 0 to |graph.nodes|
        invariant queue == FilterUpTo(graph.nodes, i, zeros)
      {
        var m := graph.nodes[i];
        ParentlessAt(graph, m);
        if |Parents(graph.deps, m)| == 0 {
          queue := queue + [m];
        }
      }
      FilterUpToAll(graph.nodes, zeros);
      InitQueue(graph);
    }

    /**
     * Releasing the children of a freshly emitted mod: as written, from the
     * child lists built at the start; corrected, from the current parents.
     */
    method ReleaseChildren(u: Id)
      requires Valid() && ChildLinks()
      modifies this
      ensures Valid() && processed == old(processed)
      ensures State() == Release(old(State()), Kids(g, fixed, old(State()), u))
    {
      var cs := if fixed then ChildrenOf(g.nodes, deps, u) else KidList(children, u);
      ghost var start := State();
      var j := 0;
      while j < |cs|
        invariant 0 <= j <= |cs|
        invariant Valid() && processed == old(processed)
        invariant Release(start, cs) == Release(State(), cs[j..])
      {
        var v := cs[j];
        assert cs[j..][1..] == cs[j + 1..];
        ReleaseStep(State(), cs[j..]);
        inDeg := inDeg[v := Deg(inDeg, v) - 1];
        if inDeg[v] == 0 {
          queue := queue + [v];
        }
        j := j + 1;
      }
    }

    /** `process_queue`. */
    method Drain()
      requires Valid() && ChildLinks()
      modifies this
      ensures Valid()
      ensures State() == ProcessQueue(g, fixed, old(State()))
    {
      ghost var target := ProcessQueue(g, fixed, State());
      while queue != []
        invariant Valid()
        invariant ProcessQueue(g, fixed, State()) == target
        decreases |Active(g) - processed|, |queue|
      {
        var u := queue[0];
        ghost var st := State();
        queue := queue[1..];
        if u in processed || u !in active {
          PopSkip(g, st);
          continue;
        }
        PopEmit(g, fixed, st);
        CardRemove(Active(g), processed, u);
        EmitOne(u);
      }
    }

    /** Emitting `u`: appended to the order, marked processed, its children released. */
    method EmitOne(u: Id)
      requires Valid() && ChildLinks()
      modifies this
      ensures Valid() && processed == old(processed) + {u}
      ensures State() == Emit(g, fixed, old(State()), u)
    {
      sorted := sorted + [u];
      processed := processed + {u};
      ReleaseChildren(u);
    }

    /** One round of the soft loop, as `SoftRound` states it. */
    method SoftPass(order: set<Id> -> seq<Id>) returns (has: bool)
      requires Valid() && IsOrder(order)
      modifies this
      ensures Valid() && (State(), has) == SoftRound(g, old(State()), order)
    {
      var unresolved := active - processed;
      deps, inDeg, queue, has := SoftPassOn(g, order, unresolved, deps, inDeg, queue, State());
    }

    /** The soft loop: rounds, each followed by a drain, while a round queues something. */
    method SoftLoop(order: set<Id> -> seq<Id>)
      requires Valid() && ChildLinks() && IsOrder(order)
      modifies this
      ensures Valid() && State() == SoftPhase(g, fixed, old(State()), order)
    {
      ghost var target := SoftPhase(g, fixed, State(), order);
      var has := true;
      while has && |sorted| != |g.nodes|
        invariant Valid()
        invariant has ==> SoftPhase(g, fixed, State(), order) == target
        invariant !has ==> State() == target
        decreases Links(deps, g.nodes), if has then 1 else 0
      {
        ghost var st := State();
        SoftRoundShrinks(g, st, order);
        has := SoftPass(order);
        if has {
          ProcessQueueGrows(g, fixed, State());
          Drain();
        }
      }
    }

    /** The forced phase's pick, read from the current state. */
    method PickBest(order: set<Id> -> seq<Id>) returns (best: Id)
      requires IsOrder(order) && active == Active(g) && active - processed != {}
      ensures best == Pick(g, State(), order)
    {
      var unresolved := active - processed;
      PickUnfold(g, State(), order);
      best := MinHolder(order(unresolved), deps, unresolved, State());
    }

    /** One forced step: the pick is queued with its in-degree zeroed, and the queue drained. */
    method ForceOne(order: set<Id> -> seq<Id>)
      requires Valid() && ChildLinks() && IsOrder(order) && active - processed != {}
      modifies this
      ensures Valid()
      ensures var best := Pick(g, old(State()), order);
        State() == ProcessQueue(g, fixed, old(State()).(queue := old(queue) + [best], inDeg := old(inDeg)[best := 0],
                                                        forced := old(forced) + {best}))
    {
      var best := PickBest(order);
      Force(best);
    }

    /** Queues `best` with its in-degree zeroed, marks it forced, and drains the queue. */
    method Force(best: Id)
      requires Valid() && ChildLinks()
      modifies this
      ensures Valid()
      ensures State() == ProcessQueue(g, fixed, old(State()).(queue := old(queue) + [best], inDeg := old(inDeg)[best := 0],
                                                              forced := old(forced) + {best}))
    {
      queue := queue + [best];
      inDeg := inDeg[best := 0];
      forced := forced + {best};
      Drain();
    }

    /** The forced loop: forced steps until every active mod is emitted. */
    method ForcedLoop(order: set<Id> -> seq<Id>)
      requires Valid() && ChildLinks() && IsOrder(order)
      modifies this
      ensures Valid() && State() == ForcedPhase(g, fixed, old(State()), order)
    {
      ghost var target := ForcedPhase(g, fixed, State(), order);
      while |sorted| != |g.nodes|
        invariant Valid()
        invariant ForcedPhase(g, fixed, State(), order) == target
        decreases |Active(g) - processed|
      {
        var unresolved := active - processed;
        if unresolved == {} {
          break;
        }
        ghost var st := State();
        ForcedStepEmits(g, fixed, st, order);
        ForcedUnfold(g, fixed, st, order);
        ForceOne(order);
        assert Active(g) - processed < Active(g) - st.processed;
        SubsetCard(Active(g) - processed, Active(g) - st.processed);
      }
    }
  }

  /**
   * `sort`'s ordering step: the drain, then the soft and forced loops; with
   * `fixed` false as the source runs it, with `fixed` true corrected.
   */
  method ResolveOrder(g: Graph, fixed: bool, order: set<Id> -> seq<Id>) returns (sorted: seq<Id>)
    requires IsOrder(order)
    ensures sorted == if fixed then ResolveFixed(g, order) else Resolve(g, order)
    ensures NoDup(sorted) && forall v :: v in sorted <==> v in g.nodes
  {
    var r := new Resolver(g, fixed);
    r.Drain();
    if |r.sorted| != |g.nodes| {
      r.SoftLoop(order);
      r.ForcedLoop(order);
    }
    sorted := r.sorted;
    ResolvePermutation(g, fixed, order);
  }
}
