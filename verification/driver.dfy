/** Clients of the VM: the stack and collection laws that relate several
    calls, and the scenarios of the demonstration driver in gc.c. */
module Driver {
  import opened Objects
  import opened Machine

  /** Popping right after a successful push returns the pushed reference
      and leaves the roots as they were. */
  method PushThenPop(vm: VM, value: nat) returns (r: Result<nat>)
    requires vm.Valid() && value in vm.heap && vm.stackSize < STACK_MAX_SIZE
    modifies vm`stackSize, vm.stack
    ensures vm.Valid()
    ensures r == Ok(value) && vm.Roots() == old(vm.Roots())
  {
    var pushed := vm.Push(value);
    r := vm.Pop();
  }

  /** A second collection with no root change in between collects nothing. */
  method CollectTwice(vm: VM) returns (collected: int, remaining: int)
    requires vm.Valid()
    modifies vm`heap, vm`numObjects, vm`marked, vm`maxObjects
    ensures vm.Valid()
    ensures collected == 0 && remaining == vm.numObjects == old(|vm.Collected()|)
  {
    SurvivorsIdempotent(vm.heap, ReachAll(vm.arena, vm.Roots()));
    var _, _ := vm.Gc();
    collected, remaining := vm.Gc();
  }

  /** Every live object is reachable from the roots: nothing is garbage. */
  ghost predicate AllRooted(vm: VM)
    reads vm, vm.stack
    requires vm.Consistent()
  {
    Members(vm.heap) <= ReachAll(vm.arena, vm.Roots())
  }

  /** A collection when nothing is garbage frees nothing, keeps the list as
      it is and sets the threshold to twice the count. */
  method GcAllRooted(vm: VM) returns (collected: int, remaining: int)
    requires vm.Valid() && AllRooted(vm)
    modifies vm`heap, vm`numObjects, vm`marked, vm`maxObjects
    ensures vm.Valid() && AllRooted(vm) && vm.heap == old(vm.heap)
    ensures vm.maxObjects == if vm.numObjects == 0 then GC_SIZE else 2 * vm.numObjects
    ensures collected == 0 && remaining == vm.numObjects == old(vm.numObjects)
  {
    SurvivorsKeepAll(vm.heap, ReachAll(vm.arena, vm.Roots()));
    collected, remaining := vm.Gc();
  }

  /** Pushing a fresh integer onto roots that reach the whole list: the
      longer roots reach the longer list. */
  lemma RootedAfterInt(arena: seq<Object>, heap: seq<nat>, roots: seq<nat>, v: Int32)
    requires WellFormed(arena) && forall k :: 0 <= k < |roots| ==> roots[k] < |arena|
    requires Members(heap) <= ReachAll(arena, roots)
    ensures Members([|arena|] + heap) <= ReachAll(arena + [Int(v)], roots + [|arena|])
  {
    var idx := |arena|;
    ReachAllExtend(arena, Int(v), roots);
    assert (roots + [idx])[..|roots|] == roots;
    assert ReachAll(arena + [Int(v)], roots + [idx]) == ReachAll(arena, roots) + Reach(arena + [Int(v)], idx);
    assert Members([idx] + heap) == {idx} + Members(heap);
  }

  /** Replacing the top two roots by a fresh pair of them: the new roots
      reach the old list and the pair. */
  lemma RootedAfterPair(arena: seq<Object>, heap: seq<nat>, roots: seq<nat>)
    requires WellFormed(arena) && |roots| >= 2 && forall k :: 0 <= k < |roots| ==> roots[k] < |arena|
    requires Members(heap) <= ReachAll(arena, roots)
    ensures WellFormed(arena + [Pair(roots[|roots| - 2], roots[|roots| - 1])])
    ensures Members([|arena|] + heap)
      <= ReachAll(arena + [Pair(roots[|roots| - 2], roots[|roots| - 1])], roots[..|roots| - 2] + [|arena|])
  {
    var n, idx := |roots|, |arena|;
    var pair := Pair(roots[n - 2], roots[n - 1]);
    var arena' := arena + [pair];
    assert WellFormed(arena') by {
      forall k | 0 <= k < |arena'| && arena'[k].Pair?
        ensures arena'[k].head < k && arena'[k].tail < k
      {
        if k < idx {
          assert arena'[k] == arena[k];
        }
      }
    }
    var below := roots[..n - 2];
    ReachAllExtend(arena, pair, below);
    assert roots[..n - 1][..n - 2] == below;
    assert ReachAll(arena, roots) == ReachAll(arena, below) + Reach(arena, roots[n - 2]) + Reach(arena, roots[n - 1]);
    ReachExtend(arena, pair, roots[n - 2]);
    ReachExtend(arena, pair, roots[n - 1]);
    assert (below + [idx])[..n - 2] == below;
    assert Reach(arena', idx) == {idx} + Reach(arena', roots[n - 2]) + Reach(arena', roots[n - 1]);
    assert ReachAll(arena', below + [idx]) == ReachAll(arena, below) + Reach(arena', idx);
    assert Members([idx] + heap) == {idx} + Members(heap);
  }

  /** pushInt when nothing is garbage: a collection it triggers frees
      nothing, the new integer joins the list, and nothing is garbage after. */
  method PushIntAllRooted(vm: VM, v: Int32)
    requires vm.Valid() && AllRooted(vm) && vm.stackSize < STACK_MAX_SIZE
    modifies vm`arena, vm`heap, vm`numObjects, vm`marked, vm`maxObjects, vm`stackSize, vm.stack
    ensures vm.Valid() && AllRooted(vm)
    ensures vm.arena == old(vm.arena) + [Int(v)]
    ensures vm.heap == [old(|vm.arena|)] + old(vm.heap)
    ensures vm.Roots() == old(vm.Roots()) + [old(|vm.arena|)]
    ensures vm.numObjects == old(vm.numObjects) + 1 && vm.stackSize == old(vm.stackSize) + 1
    ensures vm.maxObjects == if old(vm.numObjects < vm.maxObjects) then old(vm.maxObjects) else 2 * old(vm.numObjects)
  {
    ghost var arena, roots, heap := vm.arena, vm.Roots(), vm.heap;
    SurvivorsKeepAll(heap, ReachAll(arena, roots));
    RootedAfterInt(arena, heap, roots, v);
    var _ := vm.PushInt(v);
  }

  /** pushPair when nothing is garbage: the same, for the new pair. */
  method PushPairAllRooted(vm: VM) returns (r: Result<nat>)
    requires vm.Valid() && AllRooted(vm) && vm.stackSize >= 2
    modifies vm`arena, vm`heap, vm`numObjects, vm`marked, vm`maxObjects, vm`stackSize, vm.stack
    ensures vm.Valid() && AllRooted(vm)
    ensures r == Ok(old(|vm.arena|))
    ensures vm.arena == old(vm.arena) + [Pair(old(vm.Roots())[old(vm.stackSize) - 2], old(vm.Roots())[old(vm.stackSize) - 1])]
    ensures vm.heap == [old(|vm.arena|)] + old(vm.heap)
    ensures vm.Roots() == old(vm.Roots())[..old(vm.stackSize) - 2] + [old(|vm.arena|)]
    ensures vm.numObjects == old(vm.numObjects) + 1 && vm.stackSize == old(vm.stackSize) - 1
    ensures vm.maxObjects == if old(vm.numObjects < vm.maxObjects) then old(vm.maxObjects) else 2 * old(vm.numObjects)
  {
    ghost var arena, roots, heap := vm.arena, vm.Roots(), vm.heap;
    SurvivorsKeepAll(heap, ReachAll(arena, roots));
    RootedAfterPair(arena, heap, roots);
    r := vm.PushPair();
  }

  /** [n - 1, ..., 1, 0]: the references of n integers allocated in order,
      as the object list holds them (newest first). */
  ghost function Countdown(n: nat): seq<nat>
  {
    if n == 0 then [] else [n - 1] + Countdown(n - 1)
  }

  /** [0, 1, ..., n - 1]: the same references in stack order. */
  ghost function Upto(n: nat): seq<nat>
  {
    if n == 0 then [] else Upto(n - 1) + [n - 1]
  }

  /** [Int(0), ..., Int(n - 1)]: the arena after n pushes of 0, 1, ... */
  ghost function Ints(n: nat): seq<Object>
    requires n <= STACK_MAX_SIZE
  {
    if n == 0 then [] else Ints(n - 1) + [Int((n - 1) as Int32)]
  }

  /** The integers of test 1, pushed in order, give the arena, the object
      list and the stack named by these functions. */
  lemma FiveInts()
    ensures Countdown(5) == [4, 3, 2, 1, 0] && Upto(5) == [0, 1, 2, 3, 4]
    ensures Ints(5) == [Int(0), Int(1), Int(2), Int(3), Int(4)]
  {
    assert Countdown(2) == [1, 0];
    assert Countdown(4) == [3, 2, 1, 0];
    assert Upto(2) == [0, 1];
    assert Upto(4) == [0, 1, 2, 3];
    assert Ints(2) == [Int(0), Int(1)];
    assert Ints(4) == [Int(0), Int(1), Int(2), Int(3)];
  }

  /** Test 1 of the demonstration driver (gc.c:150-154): five integers,
      each pushed; a collection then frees nothing and leaves five. */
  method Test1() returns (vm: VM, collected: int, remaining: int)
    ensures fresh(vm) && fresh(vm.stack)
    ensures vm.Valid() && vm.maxObjects == GC_SIZE && |vm.arena| == 5 && vm.stackSize == 5
    ensures vm.arena == Ints(5) && vm.heap == Countdown(5) && vm.Roots() == Upto(5)
    ensures collected == 0 && remaining == 5
  {
    vm := new VM();
    for i := 0 to 5
      invariant fresh(vm) && fresh(vm.stack)
      invariant vm.Valid() && AllRooted(vm) && vm.maxObjects == GC_SIZE
      invariant vm.stackSize == i && vm.numObjects == i && |vm.arena| == i
      invariant vm.arena == Ints(i) && vm.heap == Countdown(i) && vm.Roots() == Upto(i)
    {
      PushIntAllRooted(vm, i as Int32);
      assert Ints(i + 1) == Ints(i) + [Int(i as Int32)];
      assert Countdown(i + 1) == [i] + Countdown(i);
      assert Upto(i + 1) == Upto(i) + [i];
    }
    collected, remaining := GcAllRooted(vm);
  }

  /** Roots that all refer to integers reach exactly themselves. */
  lemma {:induction false} ReachOfInts(arena: seq<Object>, roots: seq<nat>)
    requires WellFormed(arena)
    requires forall k :: 0 <= k < |roots| ==> roots[k] < |arena| && arena[roots[k]].Int?
    ensures ReachAll(arena, roots) == Members(roots)
  {
    if roots != [] {
      var init := roots[..|roots| - 1];
      assert forall k :: 0 <= k < |init| ==> init[k] == roots[k];
      ReachOfInts(arena, init);
      assert Members(roots) == Members(init) + {roots[|roots| - 1]} by {
        assert roots == init + [roots[|roots| - 1]];
      }
    }
  }

  /** A sweep that keeps exactly the objects of `back` and none of `front`
      leaves `back`. */
  lemma KeepBack(front: seq<nat>, back: seq<nat>)
    requires forall i :: 0 <= i < |front| ==> front[i] !in back
    ensures Survivors(front + back, Members(back)) == back
  {
    SurvivorsAppend(front, back, Members(back));
    SurvivorsNone(front, Members(back));
    SurvivorsKeepAll(back, Members(back));
  }

  /** The state after test 2: two pops leave the three oldest integers as
      roots, which reach only themselves, and the sweep keeps just those. */
  lemma AfterTwoPops()
    ensures Upto(5)[..4][..3] == Upto(3) && |Countdown(3)| == 3
    ensures Survivors(Countdown(5), ReachAll(Ints(5), Upto(3))) == Countdown(3)
  {
    FiveInts();
    assert Upto(3) == [0, 1, 2] && Countdown(3) == [2, 1, 0];
    assert WellFormed(Ints(5));
    ReachOfInts(Ints(5), [0, 1, 2]);
    assert [4, 3, 2, 1, 0] == [4, 3] + [2, 1, 0];
    assert Members([0, 1, 2]) == Members([2, 1, 0]);
    KeepBack([4, 3], [2, 1, 0]);
  }

  /** Test 2 of the demonstration driver (gc.c:157-160): after two pops the
      two newest integers are unreachable, and a collection frees them. */
  method Test2(vm: VM) returns (collected: int, remaining: int)
    requires vm.Valid() && vm.maxObjects == GC_SIZE && |vm.arena| == 5 && vm.stackSize == 5
    requires vm.arena == Ints(5) && vm.heap == Countdown(5) && vm.Roots() == Upto(5)
    modifies vm`heap, vm`numObjects, vm`marked, vm`maxObjects, vm`stackSize
    ensures vm.Valid() && AllRooted(vm) && vm.maxObjects == 6 && vm.stackSize == 3 && vm.numObjects == 3
    ensures vm.arena == Ints(5) && vm.heap == Countdown(3) && vm.Roots() == Upto(3)
    ensures collected == 2 && remaining == 3
  {
    AfterTwoPops();
    var _ := vm.Pop();
    var _ := vm.Pop();
    collected, remaining := vm.Gc();
  }

  /** Test 3 of the demonstration driver, first half (gc.c:163-166):
      pushes 1 and 2 and pairs them; no collection runs. */
  method Test3Pair(vm: VM)
    requires vm.Valid() && AllRooted(vm) && vm.maxObjects == 6 && vm.stackSize == 3 && vm.numObjects == 3
    requires vm.arena == Ints(5) && vm.heap == Countdown(3) && vm.Roots() == Upto(3) && |vm.arena| == 5
    modifies vm`arena, vm`heap, vm`numObjects, vm`marked, vm`maxObjects, vm`stackSize, vm.stack
    ensures vm.Valid() && AllRooted(vm) && vm.maxObjects == 6 && vm.stackSize == 4 && vm.numObjects == 6
    ensures vm.arena == Ints(5) + [Int(1)] + [Int(2)] + [Pair(5, 6)] && |vm.arena| == 8
    ensures vm.heap == [7] + ([6] + ([5] + Countdown(3))) && vm.Roots() == Upto(3) + [7]
  {
    PushIntAllRooted(vm, 1);
    PushIntAllRooted(vm, 2);
    var _ := PushPairAllRooted(vm);
    assert (Upto(3) + [5] + [6])[..3] == Upto(3);
  }

  /** Test 3 of the demonstration driver, second half (gc.c:167-169): the
      allocation of 3 finds six objects against a threshold of six and
      collects, freeing nothing and doubling the threshold to twelve; the
      pair ((1, 2), 3) follows, and the explicit collection frees nothing
      and leaves eight. */
  method Test3(vm: VM) returns (collected: int, remaining: int)
    requires vm.Valid() && AllRooted(vm) && vm.maxObjects == 6 && vm.stackSize == 4 && vm.numObjects == 6
    requires vm.arena == Ints(5) + [Int(1)] + [Int(2)] + [Pair(5, 6)] && |vm.arena| == 8
    requires vm.heap == [7] + ([6] + ([5] + Countdown(3))) && vm.Roots() == Upto(3) + [7]
    modifies vm`arena, vm`heap, vm`numObjects, vm`marked, vm`maxObjects, vm`stackSize, vm.stack
    ensures vm.Valid() && AllRooted(vm) && vm.maxObjects == 16
    ensures vm.arena == Ints(5) + [Int(1)] + [Int(2)] + [Pair(5, 6)] + [Int(3)] + [Pair(7, 8)]
    ensures vm.heap == [9] + ([8] + ([7] + ([6] + ([5] + Countdown(3))))) && vm.Roots() == Upto(3) + [9]
    ensures collected == 0 && remaining == 8
  {
    PushIntAllRooted(vm, 3);
    var _ := PushPairAllRooted(vm);
    assert (Upto(3) + [7] + [8])[..3] == Upto(3);
    collected, remaining := GcAllRooted(vm);
  }

  /** The arena of test 4: the three oldest integers reach only themselves. */
  lemma PairArena()
    ensures WellFormed(Ints(5) + [Int(1)] + [Int(2)] + [Pair(5, 6)] + [Int(3)] + [Pair(7, 8)])
    ensures ReachAll(Ints(5) + [Int(1)] + [Int(2)] + [Pair(5, 6)] + [Int(3)] + [Pair(7, 8)], Upto(3)) == {0, 1, 2}
  {
    FiveInts();
    var arena := Ints(5) + [Int(1)] + [Int(2)] + [Pair(5, 6)] + [Int(3)] + [Pair(7, 8)];
    assert arena == [Int(0), Int(1), Int(2), Int(3), Int(4), Int(1), Int(2), Pair(5, 6), Int(3), Pair(7, 8)];
    assert Upto(3) == [0, 1, 2];
    ReachOfInts(arena, [0, 1, 2]);
    assert Members([0, 1, 2]) == {0, 1, 2};
  }

  /** The heap list after test 3: the two pairs and the integers 1, 2, 3 in
      front of the three oldest integers. */
  lemma ListAfterTest3()
    ensures Countdown(3) == [2, 1, 0] && (Upto(3) + [9])[..3] == Upto(3)
    ensures [9] + ([8] + ([7] + ([6] + ([5] + Countdown(3))))) == [9, 8, 7, 6, 5] + [2, 1, 0]
  {
    assert Countdown(3) == [2, 1, 0];
  }

  /** The state after test 4: popping the outer pair leaves the three oldest
      integers as roots, and the sweep drops both pairs and the integers
      1, 2 and 3 they hold. */
  lemma AfterPairPop()
    ensures (Upto(3) + [9])[..3] == Upto(3) && |Countdown(3)| == 3
    ensures WellFormed(Ints(5) + [Int(1)] + [Int(2)] + [Pair(5, 6)] + [Int(3)] + [Pair(7, 8)])
    ensures Survivors([9] + ([8] + ([7] + ([6] + ([5] + Countdown(3))))),
      ReachAll(Ints(5) + [Int(1)] + [Int(2)] + [Pair(5, 6)] + [Int(3)] + [Pair(7, 8)], Upto(3))) == Countdown(3)
  {
    PairArena();
    ListAfterTest3();
    assert Members([2, 1, 0]) == {0, 1, 2};
    KeepBack([9, 8, 7, 6, 5], [2, 1, 0]);
  }

  /** Test 4 of the demonstration driver (gc.c:179-181): popping the outer
      pair leaves both pairs and the integers 1, 2 and 3 behind them
      unreachable; the collection frees those five and leaves three. */
  method Test4(vm: VM) returns (collected: int, remaining: int)
    requires vm.Valid() && vm.maxObjects == 16
    requires vm.arena == Ints(5) + [Int(1)] + [Int(2)] + [Pair(5, 6)] + [Int(3)] + [Pair(7, 8)]
    requires vm.heap == [9] + ([8] + ([7] + ([6] + ([5] + Countdown(3))))) && vm.Roots() == Upto(3) + [9]
    modifies vm`heap, vm`numObjects, vm`marked, vm`maxObjects, vm`stackSize
    ensures vm.Valid() && AllRooted(vm) && vm.arena == old(vm.arena)
    ensures vm.heap == Countdown(3) && vm.Roots() == Upto(3)
    ensures vm.numObjects == 3 && vm.stackSize == 3 && vm.maxObjects == 6
    ensures collected == 5 && remaining == 3
  {
    AfterPairPop();
    var _ := vm.Pop();
    collected, remaining := vm.Gc();
  }

  /** Test 5 of the demonstration driver (gc.c:184-187): thirty more
      integers, all kept on the stack. Allocation collects on its own when
      the count reaches six, twelve and twenty-four; each of those frees
      nothing and doubles the threshold, which ends at 48. */
  method Test5(vm: VM)
    requires vm.Valid() && AllRooted(vm)
    requires vm.numObjects == 3 && vm.stackSize == 3 && vm.maxObjects == 6
    modifies vm`arena, vm`heap, vm`numObjects, vm`marked, vm`maxObjects, vm`stackSize, vm.stack
    ensures vm.Valid() && AllRooted(vm)
    ensures vm.numObjects == 33 && vm.stackSize == 33 && vm.maxObjects == 48
  {
    for i := 0 to 30
      invariant vm.Valid() && AllRooted(vm)
      invariant vm.numObjects == 3 + i && vm.stackSize == 3 + i
      invariant vm.maxObjects == if i <= 3 then 6 else if i <= 9 then 12 else if i <= 21 then 24 else 48
    {
      PushIntAllRooted(vm, i as Int32);
    }
  }

  /** Thirty integers pushed onto a new VM without popping: every automatic
      collection (at ten and at twenty objects) frees nothing, and the
      threshold doubles from ten to twenty to forty. */
  method ThirtyFromEmpty() returns (vm: VM)
    ensures fresh(vm) && vm.Valid() && AllRooted(vm)
    ensures vm.numObjects == 30 && vm.stackSize == 30 && vm.maxObjects == 40
  {
    vm := new VM();
    for i := 0 to 30
      invariant fresh(vm) && fresh(vm.stack)
      invariant vm.Valid() && AllRooted(vm)
      invariant vm.numObjects == i && vm.stackSize == i
      invariant vm.maxObjects == if i <= 10 then 10 else if i <= 20 then 20 else 40
    {
      PushIntAllRooted(vm, i as Int32);
    }
  }

  /** The demonstration driver of gc.c (gc.c:147-192) end to end: the
      (collected, remaining) statistics of its four explicit collections and
      of the one freeVM runs, in order; the last leaves no object. */
  method RunDriver() returns (reports: seq<(int, int)>)
    ensures reports == [(0, 5), (2, 3), (0, 8), (5, 3), (33, 0)]
  {
    var vm, collected1, remaining1 := Test1();
    var collected2, remaining2 := Test2(vm);
    Test3Pair(vm);
    var collected3, remaining3 := Test3(vm);
    var collected4, remaining4 := Test4(vm);
    Test5(vm);
    var collected5, remaining5 := vm.FreeVM();
    reports := [(collected1, remaining1), (collected2, remaining2), (collected3, remaining3), (collected4, remaining4),
      (collected5, remaining5)];
  }
}
