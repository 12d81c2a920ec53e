/** The value space of the collector: integers and pairs, stored in an arena
    and referred to by arena index instead of by pointer. This module holds
    the pure definitions the VM is specified against: which objects a root
    reaches, which list entries survive a sweep, and the laws about both. */
module Objects {

  /** The C `int` payload of an integer object. */
  newtype Int32 = x: int | -0x8000_0000 <= x < 0x8000_0000

  /** An object's tag and payload; `head` and `tail` are arena indices. */
  datatype Object = Int(value: Int32) | Pair(head: nat, tail: nat)

  /** Every pair refers to objects allocated before it: a pair is built from
      values that already exist, so its children have smaller indices. */
  ghost predicate WellFormed(arena: seq<Object>)
  {
    forall k :: 0 <= k < |arena| && arena[k].Pair? ==> arena[k].head < k && arena[k].tail < k
  }

  /** `s` names objects of the arena only, and holds the children of each
      pair it holds. */
  ghost predicate Closed(arena: seq<Object>, s: set<nat>)
  {
    forall i :: i in s ==> i < |arena| && (arena[i].Pair? ==> arena[i].head in s && arena[i].tail in s)
  }

  /** The objects reached from `o` through `head`/`tail`, `o` included. */
  ghost function Reach(arena: seq<Object>, o: nat): (r: set<nat>)
    requires WellFormed(arena) && o < |arena|
    ensures o in r
    ensures forall x :: x in r ==> x <= o
    decreases o
  {
    match arena[o]
    case Int(_) => {o}
    case Pair(h, t) => {o} + Reach(arena, h) + Reach(arena, t)
  }

  /** The objects reached from any of `roots`. */
  ghost function ReachAll(arena: seq<Object>, roots: seq<nat>): (r: set<nat>)
    requires WellFormed(arena)
    requires forall k :: 0 <= k < |roots| ==> roots[k] < |arena|
    ensures forall k :: 0 <= k < |roots| ==> roots[k] in r
    ensures forall x :: x in r ==> x < |arena|
  {
    if roots == [] then {}
    else ReachAll(arena, roots[..|roots| - 1]) + Reach(arena, roots[|roots| - 1])
  }

  /** The set of entries of a list. */
  ghost function Members(list: seq<nat>): set<nat>
  {
    set x | x in list
  }

  ghost predicate NoDuplicates(list: seq<nat>)
  {
    forall i, j :: 0 <= i < j < |list| ==> list[i] != list[j]
  }

  /** The entries of `list` that are in `keep`, in their original order:
      what a sweep leaves of the heap list when `keep` is the marked set. */
  ghost function Survivors(list: seq<nat>, keep: set<nat>): (r: seq<nat>)
    ensures |r| <= |list|
  {
    if list == [] then []
    else
      var last := list[|list| - 1];
      var init := list[..|list| - 1];
      Survivors(init, keep) + if last in keep then [last] else []
  }

  /** A sweep keeps exactly the listed objects that are in `keep`. */
  lemma {:induction false} SurvivorsMembers(list: seq<nat>, keep: set<nat>)
    ensures forall x :: x in Survivors(list, keep) <==> x in list && x in keep
  {
    if list != [] {
      var init := list[..|list| - 1];
      assert list == init + [list[|list| - 1]];
      SurvivorsMembers(init, keep);
    }
  }

  /** A sweep never lists an object twice when the heap list did not. */
  lemma {:induction false} SurvivorsNoDuplicates(list: seq<nat>, keep: set<nat>)
    requires NoDuplicates(list)
    ensures NoDuplicates(Survivors(list, keep))
  {
    if list != [] {
      var init := list[..|list| - 1];
      assert forall i :: 0 <= i < |init| ==> init[i] == list[i];
      SurvivorsNoDuplicates(init, keep);
      SurvivorsMembers(init, keep);
    }
  }

  /** Extending a list by one entry extends its survivors by that entry
      exactly when it is kept. */
  lemma SurvivorsSnoc(list: seq<nat>, x: nat, keep: set<nat>)
    ensures Survivors(list + [x], keep) == Survivors(list, keep) + if x in keep then [x] else []
  {
    assert (list + [x])[..|list|] == list;
  }

  /** Allocating a new object does not change what the existing ones reach. */
  lemma {:induction false} ReachExtend(arena: seq<Object>, x: Object, o: nat)
    requires WellFormed(arena + [x]) && o < |arena|
    ensures WellFormed(arena) && Reach(arena + [x], o) == Reach(arena, o)
    decreases o
  {
    assert forall k :: 0 <= k < |arena| ==> (arena + [x])[k] == arena[k];
    match arena[o]
    case Int(_) =>
    case Pair(h, t) =>
      ReachExtend(arena, x, h);
      ReachExtend(arena, x, t);
  }

  /** Allocating a new object does not change what existing roots reach. */
  lemma {:induction false} ReachAllExtend(arena: seq<Object>, x: Object, roots: seq<nat>)
    requires WellFormed(arena + [x])
    requires forall k :: 0 <= k < |roots| ==> roots[k] < |arena|
    ensures WellFormed(arena) && ReachAll(arena + [x], roots) == ReachAll(arena, roots)
  {
    assert forall k :: 0 <= k < |arena| ==> (arena + [x])[k] == arena[k];
    if roots != [] {
      var init := roots[..|roots| - 1];
      assert forall k :: 0 <= k < |init| ==> init[k] == roots[k];
      ReachAllExtend(arena, x, init);
      ReachExtend(arena, x, roots[|roots| - 1]);
    }
  }

  /** One step of a sweep over a duplicate-free list. After `done` entries
      the list reads `Survivors(list[..done], keep) + list[done..]` and the
      next entry, `list[done]`, sits at position `p`; it has not been visited
      before. Unlinking it when it is not kept, or stepping past it when it
      is, gives the same form for `done + 1`. */
  lemma SweepStep(list: seq<nat>, done: nat, keep: set<nat>)
    requires NoDuplicates(list) && done < |list|
    ensures var heap, p := Survivors(list[..done], keep) + list[done..], |Survivors(list[..done], keep)|;
      && p < |heap| && heap[p] == list[done]
      && list[done] !in Members(list[..done])
      && (list[done] !in keep ==>
            && Survivors(list[..done + 1], keep) + list[done + 1..] == heap[..p] + heap[p + 1..]
            && |Survivors(list[..done + 1], keep)| == p
            && keep - Members(list[..done + 1]) == keep - Members(list[..done]))
      && (list[done] in keep ==>
            && Survivors(list[..done + 1], keep) + list[done + 1..] == heap
            && |Survivors(list[..done + 1], keep)| == p + 1
            && keep - Members(list[..done + 1]) == (keep - Members(list[..done])) - {list[done]})
  {
    var kept, rest := Survivors(list[..done], keep), list[done..];
    assert list[..done + 1] == list[..done] + [list[done]];
    SurvivorsSnoc(list[..done], list[done], keep);
    assert Members(list[..done + 1]) == Members(list[..done]) + {list[done]};
    assert rest == [list[done]] + list[done + 1..];
    assert (kept + rest)[..|kept|] == kept;
    assert (kept + rest)[|kept| + 1..] == list[done + 1..];
  }

  /** Whatever a closed set holds, it holds everything that is reached from it. */
  lemma {:induction false} ReachWithin(arena: seq<Object>, s: set<nat>, o: nat)
    requires WellFormed(arena) && Closed(arena, s) && o in s
    ensures o < |arena| && Reach(arena, o) <= s
    decreases o
  {
    match arena[o]
    case Int(_) =>
    case Pair(h, t) =>
      ReachWithin(arena, s, h);
      ReachWithin(arena, s, t);
  }

  /** A closed set that holds every root holds everything reached from them. */
  lemma {:induction false} ReachAllWithin(arena: seq<Object>, s: set<nat>, roots: seq<nat>)
    requires WellFormed(arena) && Closed(arena, s)
    requires forall k :: 0 <= k < |roots| ==> roots[k] in s
    ensures forall k :: 0 <= k < |roots| ==> roots[k] < |arena|
    ensures ReachAll(arena, roots) <= s
  {
    if roots != [] {
      var init := roots[..|roots| - 1];
      assert forall k :: 0 <= k < |init| ==> init[k] == roots[k];
      ReachAllWithin(arena, s, init);
      ReachWithin(arena, s, roots[|roots| - 1]);
    }
  }

  /** The objects reached from `o` include the children of each pair among them. */
  lemma {:induction false} ReachClosed(arena: seq<Object>, o: nat)
    requires WellFormed(arena) && o < |arena|
    ensures Closed(arena, Reach(arena, o))
    decreases o
  {
    match arena[o]
    case Int(_) =>
    case Pair(h, t) =>
      ReachClosed(arena, h);
      ReachClosed(arena, t);
  }

  /** The objects reached from the roots include the children of each pair
      among them: with ReachAllWithin, ReachAll is the least closed set that
      holds every root, i.e. exactly the reachable objects. */
  lemma {:induction false} ReachAllClosed(arena: seq<Object>, roots: seq<nat>)
    requires WellFormed(arena)
    requires forall k :: 0 <= k < |roots| ==> roots[k] < |arena|
    ensures Closed(arena, ReachAll(arena, roots))
  {
    if roots != [] {
      var init := roots[..|roots| - 1];
      assert forall k :: 0 <= k < |init| ==> init[k] == roots[k];
      ReachAllClosed(arena, init);
      ReachClosed(arena, roots[|roots| - 1]);
    }
  }

  /** Allocating `init` at the next arena index and linking it at the head
      of the list keeps the list consistent, provided a pair's children are
      already live: the new index is not yet in the list, and its children
      precede it in allocation order. */
  lemma LinkFresh(arena: seq<Object>, heap: seq<nat>, init: Object)
    requires WellFormed(arena) && NoDuplicates(heap) && Closed(arena, Members(heap))
    requires forall i :: 0 <= i < |heap| ==> heap[i] < |arena|
    requires init.Pair? ==> init.head in heap && init.tail in heap
    ensures WellFormed(arena + [init])
    ensures NoDuplicates([|arena|] + heap)
    ensures forall i :: 0 <= i < |heap| + 1 ==> ([|arena|] + heap)[i] < |arena| + 1
    ensures Closed(arena + [init], Members([|arena|] + heap))
  {
    var arena', heap' := arena + [init], [|arena|] + heap;
    assert |arena| !in heap;
    assert Members(heap') == {|arena|} + Members(heap);
    forall i | i in Members(heap')
      ensures i < |arena'| && (arena'[i].Pair? ==> arena'[i].head in Members(heap') && arena'[i].tail in Members(heap'))
    {
      if i < |arena| {
        assert arena'[i] == arena[i];
      }
    }
  }

  /** Sweeping a consistent heap list (no entry twice, holding the children
      of its pairs and every root) against the objects its roots reach keeps
      exactly the reachable objects, and the result is consistent again:
      every reachable object survives and every unreachable one is removed. */
  lemma CollectionKeepsReachable(arena: seq<Object>, heap: seq<nat>, roots: seq<nat>)
    requires WellFormed(arena) && NoDuplicates(heap) && Closed(arena, Members(heap))
    requires forall k :: 0 <= k < |roots| ==> roots[k] in heap
    ensures forall k :: 0 <= k < |roots| ==> roots[k] < |arena|
    ensures ReachAll(arena, roots) <= Members(heap)
    ensures var live := Survivors(heap, ReachAll(arena, roots));
      && Members(live) == ReachAll(arena, roots)
      && NoDuplicates(live)
      && Closed(arena, Members(live))
      && (forall i :: 0 <= i < |live| ==> live[i] < |arena|)
      && (forall k :: 0 <= k < |roots| ==> roots[k] in live)
  {
    assert forall k :: 0 <= k < |roots| ==> roots[k] in Members(heap);
    ReachAllWithin(arena, Members(heap), roots);
    ReachAllClosed(arena, roots);
    var live := Survivors(heap, ReachAll(arena, roots));
    SurvivorsNoDuplicates(heap, ReachAll(arena, roots));
    SurvivorsMembers(heap, ReachAll(arena, roots));
    assert Members(live) == ReachAll(arena, roots);
    forall i | 0 <= i < |live| ensures live[i] < |arena| {
      assert live[i] in Members(live);
    }
  }

  /** A sweep removes nothing exactly when every entry is kept. */
  lemma {:induction false} SurvivorsKeepAll(list: seq<nat>, keep: set<nat>)
    ensures Survivors(list, keep) == list <==> Members(list) <= keep
  {
    if list != [] {
      var init := list[..|list| - 1];
      assert list == init + [list[|list| - 1]];
      SurvivorsKeepAll(init, keep);
      SurvivorsMembers(list, keep);
      if Members(list) <= keep {
        assert Members(init) <= keep;
      } else {
        assert Survivors(list, keep) != list by {
          var x :| x in list && x !in keep;
          assert x !in Survivors(list, keep);
        }
      }
    }
  }

  /** With no entry kept, a sweep empties the list. */
  lemma {:induction false} SurvivorsNone(list: seq<nat>, keep: set<nat>)
    requires forall i :: 0 <= i < |list| ==> list[i] !in keep
    ensures Survivors(list, keep) == []
  {
    if list != [] {
      var init := list[..|list| - 1];
      assert forall i :: 0 <= i < |init| ==> init[i] == list[i];
      SurvivorsNone(init, keep);
    }
  }

  /** Sweeping two lists joined end to end sweeps each of them in turn. */
  lemma {:induction false} SurvivorsAppend(front: seq<nat>, back: seq<nat>, keep: set<nat>)
    ensures Survivors(front + back, keep) == Survivors(front, keep) + Survivors(back, keep)
    decreases |back|
  {
    if back == [] {
      assert front + back == front;
    } else {
      var init, x := back[..|back| - 1], back[|back| - 1];
      assert front + back == (front + init) + [x];
      assert back == init + [x];
      SurvivorsSnoc(front + init, x, keep);
      SurvivorsSnoc(init, x, keep);
      SurvivorsAppend(front, init, keep);
    }
  }

  /** Sweeping a list a second time with the same marks removes nothing. */
  lemma SurvivorsIdempotent(list: seq<nat>, keep: set<nat>)
    ensures Survivors(Survivors(list, keep), keep) == Survivors(list, keep)
  {
    SurvivorsMembers(list, keep);
    SurvivorsKeepAll(Survivors(list, keep), keep);
  }
}
