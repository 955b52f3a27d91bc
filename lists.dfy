/**
 * The list primitives of the mod-set manager (`ModManager`): the
 * registry of known mods (`_mod_map`, an insertion-ordered dictionary from
 * id to mod) and the moves between and within the active and inactive
 * lists.
 *
 * The lists hold mods that are also the registry's values, so a list is a
 * sequence of ids here and a mod's fields live in the registry map; the
 * key order of the dictionary is a separate sequence of keys.  A list
 * membership test (`mod in inactive_mods`, `list.remove(mod)`) compares
 * mods that are the registry's own objects, so it is a test on their ids.
 */
module ModLists {
  import opened Wrappers
  import Package
  import LoadOrder

  type Id = LoadOrder.Id
  type ModUnit = Package.ModUnit

  // ----- list helpers -----

  /** The first position of `x` in `xs` (`list.index`). */
  function IndexOf(xs: seq<Id>, x: Id): (i: nat)
    requires x in xs
    ensures i < |xs| && xs[i] == x
    ensures forall j :: 0 <= j < i ==> xs[j] != x
  {
    if xs[0] == x then 0 else 1 + IndexOf(xs[1..], x)
  }

  /** `list.remove(x)`: the list without its first `x`, the others in order. */
  function RemoveFirst(xs: seq<Id>, x: Id): (r: seq<Id>)
    ensures x !in xs ==> r == xs
    ensures x in xs ==> |r| == |xs| - 1 && multiset(r) == multiset(xs) - multiset{x}
    ensures x in xs ==> forall j :: 0 <= j < IndexOf(xs, x) ==> r[j] == xs[j]
    ensures x in xs ==> forall j :: IndexOf(xs, x) <= j < |r| ==> r[j] == xs[j + 1]
  {
    if x !in xs then xs
    else
      var i := IndexOf(xs, x);
      assert xs == xs[..i] + [xs[i]] + xs[i + 1..];
      xs[..i] + xs[i + 1..]
  }

  /** The list with the entries at `i` and `j` exchanged (a tuple assignment of the two items). */
  function Swap(xs: seq<Id>, i: nat, j: nat): (r: seq<Id>)
    requires i < |xs| && j < |xs|
    ensures |r| == |xs| && r[i] == xs[j] && r[j] == xs[i]
    ensures forall k :: 0 <= k < |xs| && k != i && k != j ==> r[k] == xs[k]
    ensures multiset(r) == multiset(xs)
  {
    var r := xs[i := xs[j]][j := xs[i]];
    assert multiset(r) == multiset(xs) by {
      if i != j {
        var mid := xs[i := xs[j]];
        assert multiset(mid) == multiset(xs) - multiset{xs[i]} + multiset{xs[j]};
      }
    }
    r
  }

  /** A list without repeats has at most one copy of each id. */
  lemma {:induction false} NoDupCounts(xs: seq<Id>)
    ensures LoadOrder.NoDup(xs) <==> forall x :: multiset(xs)[x] <= 1
  {
    if xs != [] {
      NoDupCounts(xs[1..]);
      assert xs == [xs[0]] + xs[1..];
      assert multiset(xs) == multiset{xs[0]} + multiset(xs[1..]);
      if LoadOrder.NoDup(xs) {
        assert LoadOrder.NoDup(xs[1..]) by {
          forall i, j | 0 <= i < j < |xs[1..]| ensures xs[1..][i] != xs[1..][j] {
            assert xs[1..][i] == xs[i + 1] && xs[1..][j] == xs[j + 1];
          }
        }
        assert xs[0] !in xs[1..] by {
          forall j | 0 <= j < |xs[1..]| ensures xs[1..][j] != xs[0] {
            assert xs[1..][j] == xs[j + 1];
          }
        }
      } else {
        var i, j :| 0 <= i < j < |xs| && xs[i] == xs[j];
        if i == 0 {
          assert xs[j] == xs[1..][j - 1];
          assert multiset(xs[1..])[xs[0]] >= 1;
          assert multiset(xs)[xs[0]] >= 2;
        } else {
          assert xs[1..][i - 1] == xs[1..][j - 1];
          assert !LoadOrder.NoDup(xs[1..]);
          var x :| multiset(xs[1..])[x] > 1;
          assert multiset(xs)[x] > 1;
        }
      }
    }
  }

  /** Rearranging a list without repeats keeps it without repeats. */
  lemma PermNoDup(xs: seq<Id>, ys: seq<Id>)
    requires multiset(xs) == multiset(ys) && LoadOrder.NoDup(xs)
    ensures LoadOrder.NoDup(ys)
  {
    NoDupCounts(xs);
    NoDupCounts(ys);
  }

  /** The two halves of a list without repeats are without repeats and share nothing. */
  lemma NoDupSplit(a: seq<Id>, b: seq<Id>)
    requires LoadOrder.NoDup(a + b)
    ensures LoadOrder.NoDup(a) && LoadOrder.NoDup(b)
    ensures forall x :: x in a ==> x !in b
  {
    forall i, j | 0 <= i < j < |a| ensures a[i] != a[j] {
      assert a[i] == (a + b)[i] && a[j] == (a + b)[j];
    }
    forall i, j | 0 <= i < j < |b| ensures b[i] != b[j] {
      assert b[i] == (a + b)[|a| + i] && b[j] == (a + b)[|a| + j];
    }
    forall i, j | 0 <= i < |a| && 0 <= j < |b| ensures a[i] != b[j] {
      assert a[i] == (a + b)[i] && b[j] == (a + b)[|a| + j];
    }
  }

  /** Two lists without repeats and with the same members hold the same multiset. */
  lemma SameMembers(xs: seq<Id>, ys: seq<Id>)
    requires LoadOrder.NoDup(xs) && LoadOrder.NoDup(ys)
    requires forall x :: x in xs <==> x in ys
    ensures multiset(xs) == multiset(ys)
  {
    NoDupCounts(xs);
    NoDupCounts(ys);
    forall x ensures multiset(xs)[x] == multiset(ys)[x] {
      assert x in xs <==> x in multiset(xs);
      assert x in ys <==> x in multiset(ys);
    }
  }

  /** Splitting a list by a set and by its complement among the list loses and adds nothing. */
  lemma {:induction false} FilterPartition(xs: seq<Id>, r: set<Id>, c: set<Id>)
    requires forall x :: x in xs ==> (x in r <==> x !in c)
    ensures multiset(LoadOrder.Filter(xs, r)) + multiset(LoadOrder.Filter(xs, c)) == multiset(xs)
  {
    if xs != [] {
      assert forall x :: x in xs[1..] ==> x in xs;
      FilterPartition(xs[1..], r, c);
      assert xs == [xs[0]] + xs[1..];
    }
  }

  // ----- the registry -----

  /** The registry's keys in dictionary order, each once, and every mod filed under its own id. */
  ghost predicate Registry(keys: seq<Id>, mods: map<Id, ModUnit>) {
    && LoadOrder.Enumerates(keys, mods.Keys)
    && forall k :: k in mods ==> mods[k].Id() == k
  }

  /**
   * `activate_mod`: a known mod on the inactive list moves to the end of the
   * active list.  Returns whether it moved, with both lists.
   */
  function Activate(mods: map<Id, ModUnit>, active: seq<Id>, inactive: seq<Id>, id: Id): (r: (bool, seq<Id>, seq<Id>))
    ensures r.0 <==> id in mods && id in inactive
    ensures r.0 ==> r.1 == active + [id] && r.2 == RemoveFirst(inactive, id)
    ensures !r.0 ==> r.1 == active && r.2 == inactive
    ensures multiset(r.1 + r.2) == multiset(active + inactive)
  {
    if id !in mods then (false, active, inactive)
    else if id in inactive then
      var rest := RemoveFirst(inactive, id);
      assert multiset(active + [id] + rest) == multiset(active) + multiset{id} + multiset(rest);
      (true, active + [id], rest)
    else (false, active, inactive)
  }

  /** `deactivate_mod`: a known mod on the active list moves to the end of the inactive list. */
  function Deactivate(mods: map<Id, ModUnit>, active: seq<Id>, inactive: seq<Id>, id: Id): (r: (bool, seq<Id>, seq<Id>))
    ensures r.0 <==> id in mods && id in active
    ensures r.0 ==> r.1 == RemoveFirst(active, id) && r.2 == inactive + [id]
    ensures !r.0 ==> r.1 == active && r.2 == inactive
    ensures multiset(r.1 + r.2) == multiset(active + inactive)
  {
    if id !in mods then (false, active, inactive)
    else if id in active then
      var rest := RemoveFirst(active, id);
      assert multiset(rest + (inactive + [id])) == multiset(rest) + multiset(inactive) + multiset{id};
      (true, rest, inactive + [id])
    else (false, active, inactive)
  }

  /** `move_*_to_end`: a known mod on the list goes to its end; the list keeps its members. */
  function MoveToEnd(mods: map<Id, ModUnit>, xs: seq<Id>, id: Id): (r: seq<Id>)
    ensures id in mods && id in xs ==> r == RemoveFirst(xs, id) + [id] && r[|r| - 1] == id
    ensures !(id in mods && id in xs) ==> r == xs
    ensures multiset(r) == multiset(xs)
  {
    if id in mods && id in xs then RemoveFirst(xs, id) + [id] else xs
  }

  /**
   * The positions the loop of `swap_active_mods` finds: the last position
   * of `id1` seen and, where it differs from `id1`, of `id2`, stopping as
   * soon as both are found; -1 for one not found.
   */
  method FindPair(xs: seq<Id>, id1: Id, id2: Id) returns (idx1: int, idx2: int)
    requires LoadOrder.NoDup(xs)
    ensures idx1 == if id1 in xs then IndexOf(xs, id1) else -1
    ensures idx2 == if id2 in xs && id2 != id1 then IndexOf(xs, id2) else -1
  {
    idx1, idx2 := -1, -1;
    var i := 0;
    while i < |xs|
      invariant 0 <= i <= |xs|
      invariant idx1 == if id1 in xs[..i] then IndexOf(xs, id1) else -1
      invariant idx2 == if id2 in xs[..i] && id2 != id1 then IndexOf(xs, id2) else -1
      invariant idx1 != -1 && idx2 != -1 ==> i == |xs| || (id1 in xs[..i] && id2 in xs[..i])
    {
      assert xs[..i + 1] == xs[..i] + [xs[i]];
      if xs[i] == id1 {
        idx1 := i;
      } else if xs[i] == id2 {
        idx2 := i;
      }
      i := i + 1;
      if idx1 != -1 && idx2 != -1 {
        break;
      }
    }
    assert xs[..|xs|] == xs;
  }

  /** Swapping distinct ids exchanges exactly them; swapping an id with itself changes nothing. */
  lemma SwapExchanges(xs: seq<Id>, id1: Id, id2: Id)
    requires LoadOrder.NoDup(xs) && id1 in xs && id2 in xs
    ensures var r := Swap(xs, IndexOf(xs, id1), IndexOf(xs, id2));
      && (id1 == id2 ==> r == xs)
      && (forall k :: 0 <= k < |xs| ==> r[k] == (if xs[k] == id1 then id2 else if xs[k] == id2 then id1 else xs[k]))
  {
    var i, j := IndexOf(xs, id1), IndexOf(xs, id2);
    var r := Swap(xs, i, j);
    forall k | 0 <= k < |xs| && xs[k] == id1 ensures k == i {
    }
    forall k | 0 <= k < |xs| && xs[k] == id2 ensures k == j {
    }
    if id1 == id2 {
      assert r == xs;
    }
  }

  /** Activation moves exactly the one mod: it ends up last on the active list and leaves the inactive one. */
  lemma ActivateMoves(mods: map<Id, ModUnit>, active: seq<Id>, inactive: seq<Id>, id: Id)
    requires LoadOrder.NoDup(active + inactive)
    ensures var (ok, a, i) := Activate(mods, active, inactive, id);
      && LoadOrder.NoDup(a + i)
      && (ok ==> a[|a| - 1] == id && id !in i)
      && (forall x :: x != id ==> (x in a <==> x in active) && (x in i <==> x in inactive))
  {
    var (ok, a, i) := Activate(mods, active, inactive, id);
    PermNoDup(active + inactive, a + i);
    NoDupSplit(active, inactive);
    NoDupCounts(inactive);
    if ok {
      assert multiset(i) == multiset(inactive) - multiset{id};
      forall x | x != id ensures x in i <==> x in inactive {
        assert x in i <==> x in multiset(i);
      }
    }
  }

  // ----- numbering the active list -----

  /** The registry with the mods of `active` numbered 1, 2, ... in list order, the others untouched. */
  ghost predicate Numbered(mods: map<Id, ModUnit>, active: seq<Id>, mods': map<Id, ModUnit>)
    requires forall x :: x in active ==> x in mods
  {
    && mods'.Keys == mods.Keys
    && (forall k :: 0 <= k < |active| ==> mods'[active[k]] == mods[active[k]].(loadOrder := Some(k + 1)))
    && (forall x :: x in mods && x !in active ==> mods'[x] == mods[x])
  }

  /** `for i, mod in enumerate(active, 1): mod.load_order = i`, on the registry's copies. */
  method NumberLoadOrder(mods: map<Id, ModUnit>, active: seq<Id>) returns (mods': map<Id, ModUnit>)
    requires LoadOrder.NoDup(active) && forall x :: x in active ==> x in mods
    ensures Numbered(mods, active, mods')
  {
    mods' := mods;
    for i := 0 to |active|
      invariant mods'.Keys == mods.Keys
      invariant forall k :: 0 <= k < i ==> mods'[active[k]] == mods[active[k]].(loadOrder := Some(k + 1))
      invariant forall x :: x in mods && x !in active[..i] ==> mods'[x] == mods[x]
    {
      var id := active[i];
      assert forall k :: 0 <= k < i ==> active[k] != id;
      assert active[..i + 1] == active[..i] + [id];
      mods' := mods'[id := mods'[id].(loadOrder := Some(i + 1))];
    }
    assert active[..|active|] == active;
  }

  /** Numbering keeps every mod's id, so the registry stays well formed. */
  lemma NumberedKeepsRegistry(keys: seq<Id>, mods: map<Id, ModUnit>, active: seq<Id>, mods': map<Id, ModUnit>)
    requires Registry(keys, mods) && (forall x :: x in active ==> x in mods) && Numbered(mods, active, mods')
    ensures Registry(keys, mods')
  {
    forall x | x in mods' ensures mods'[x].Id() == x {
      if x in active {
        var k :| 0 <= k < |active| && active[k] == x;
      }
    }
  }
}
