/** The virtual machine of gc.c: a root stack, the heap list and the
    mark-and-sweep collector that allocation triggers. Objects are arena
    indices; `heap` lists the live ones in the order of the intrusive list
    that starts at `firstObject`, and `marked` holds those whose markbit is 1. */
module Machine {
  import opened Objects

  /** Capacity of the root stack (STACK_MAX_SIZE). */
  const STACK_MAX_SIZE: nat := 100

  /** Initial and post-empty-collection threshold (gcSize). */
  const GC_SIZE: nat := 10

  datatype Error = StackOverflow | StackUnderflow

  datatype Result<T> = Ok(value: T) | Err(error: Error)

  class VM {
    /** Every object ever allocated, by index; freed objects keep their slot
        (indices are never reused), they just leave `heap`. */
    var arena: seq<Object>
    /** The heap list, `firstObject` first. */
    var heap: seq<nat>
    /** The objects whose markbit is set. */
    var marked: set<nat>
    var numObjects: int
    var maxObjects: int
    /** The fixed root buffer and its fill level. */
    const stack: array<nat>
    var stackSize: nat

    /** The roots: `stack[0..stack_size)`. */
    ghost function Roots(): seq<nat>
      reads this, stack
      requires stackSize <= stack.Length
    {
      stack[..stackSize]
    }

    /** The VM's state between operations, except for the marks. */
    ghost predicate Consistent()
      reads this, stack
    {
      && stack.Length == STACK_MAX_SIZE
      && stackSize <= STACK_MAX_SIZE
      && WellFormed(arena)
      && NoDuplicates(heap)
      && (forall i :: 0 <= i < |heap| ==> heap[i] < |arena|)
      && Closed(arena, Members(heap))
      && numObjects == |heap|
      && numObjects <= maxObjects
      && 0 < maxObjects
      && (forall k :: 0 <= k < stackSize ==> stack[k] in heap && stack[k] < |arena|)
    }

    /** Between operations: consistent, and every markbit is clear. */
    ghost predicate Valid()
      reads this, stack
    {
      Consistent() && marked == {}
    }

    /** What a collection would leave of the heap list now. */
    ghost function Collected(): (r: seq<nat>)
      reads this, stack
      requires Consistent()
    {
      Survivors(heap, ReachAll(arena, Roots()))
    }

    /** The heap list as the next allocation finds it after its threshold check. */
    ghost function HeapBeforeLink(): seq<nat>
      reads this, stack
      requires Consistent()
    {
      if numObjects >= maxObjects then Collected() else heap
    }

    /** The threshold as the next allocation leaves it. */
    ghost function MaxAfterLink(): int
      reads this, stack
      requires Consistent()
    {
      if numObjects < maxObjects then maxObjects
      else if |Collected()| == 0 then GC_SIZE
      else 2 * |Collected()|
    }

    /** newVM: an empty heap, an empty root stack, the baseline threshold. */
    constructor ()
      ensures Valid() && fresh(stack)
      ensures arena == [] && heap == [] && Roots() == []
      ensures numObjects == 0 && maxObjects == GC_SIZE
    {
      arena := [];
      heap := [];
      marked := {};
      numObjects := 0;
      maxObjects := GC_SIZE;
      stack := new nat[STACK_MAX_SIZE];
      stackSize := 0;
    }

    /** push: fails on a full stack; otherwise `value` becomes the new top. */
    method Push(value: nat) returns (r: Result<()>)
      requires Valid() && value in heap
      modifies this`stackSize, stack
      ensures Valid()
      ensures old(stackSize) == STACK_MAX_SIZE ==> r == Err(StackOverflow) && Roots() == old(Roots())
      ensures old(stackSize) < STACK_MAX_SIZE ==> r == Ok(()) && Roots() == old(Roots()) + [value]
    {
      if stackSize == STACK_MAX_SIZE {
        return Err(StackOverflow);
      }
      stack[stackSize] := value;
      stackSize := stackSize + 1;
      r := Ok(());
    }

    /** pop: fails on an empty stack; otherwise removes and returns the top. */
    method Pop() returns (r: Result<nat>)
      requires Valid()
      modifies this`stackSize
      ensures Valid()
      ensures old(stackSize) == 0 ==> r == Err(StackUnderflow) && stackSize == 0
      ensures old(stackSize) > 0 ==>
        r == Ok(old(Roots())[old(stackSize) - 1]) && Roots() == old(Roots())[..old(stackSize) - 1]
    {
      if stackSize == 0 {
        return Err(StackUnderflow);
      }
      stackSize := stackSize - 1;
      r := Ok(stack[stackSize]);
    }

    /** mark: sets the markbit of `o` and, unless it was already set, of
        everything `o` reaches. `pending` are the objects whose own `mark`
        call is still running further up the recursion: the only marked
        objects whose reach may not be marked yet. */
    method Mark(o: nat, ghost pending: set<nat>)
      requires WellFormed(arena) && o < |arena|
      requires forall i :: i in marked ==> i < |arena|
      requires forall p :: p in pending ==> o < p
      requires forall i :: i in marked && i !in pending ==> Reach(arena, i) <= marked
      modifies this`marked
      decreases o
      ensures forall i :: i in marked ==> i < |arena|
      ensures Reach(arena, o) <= marked
      ensures old(marked) <= marked <= old(marked) + Reach(arena, o)
      ensures forall i :: i in marked && i !in pending ==> Reach(arena, i) <= marked
    {
      if o in marked {
        return;
      }
      marked := marked + {o};
      if arena[o].Pair? {
        Mark(arena[o].head, pending + {o});
        Mark(arena[o].tail, pending + {o});
      }
    }

    /** markAll: marks from every root, bottom of the stack first. */
    method MarkAll()
      requires Consistent() && marked == {}
      modifies this`marked
      ensures marked == ReachAll(arena, Roots())
    {
      for i := 0 to stackSize
        invariant forall j :: j in marked ==> j < |arena|
        invariant forall j :: j in marked ==> Reach(arena, j) <= marked
        invariant marked == ReachAll(arena, stack[..i])
      {
        Mark(stack[i], {});
        assert stack[..i + 1][..i] == stack[..i];
      }
      assert stack[..stackSize] == Roots();
    }

    /** sweep: walks the heap list, unlinking and counting down each unmarked
        object and clearing the markbit of each marked one. `p` is the
        position of the link the C pointer-to-pointer designates. */
    method Sweep()
      requires NoDuplicates(heap) && numObjects == |heap|
      modifies this`heap, this`numObjects, this`marked
      ensures heap == Survivors(old(heap), old(marked))
      ensures marked == old(marked) - Members(old(heap))
      ensures numObjects == |heap| == old(numObjects) - (|old(heap)| - |heap|)
    {
      ghost var list, marks := heap, marked;
      ghost var done := 0;
      var p := 0;
      while p < |heap|
        invariant 0 <= done <= |list|
        invariant heap == Survivors(list[..done], marks) + list[done..]
        invariant p == |Survivors(list[..done], marks)|
        invariant marked == marks - Members(list[..done])
        invariant numObjects == |heap|
        decreases |list| - done
      {
        SweepStep(list, done, marks);
        var obj := heap[p];
        if obj !in marked {
          assert |heap[..p] + heap[p + 1..]| == |heap| - 1;
          heap := heap[..p] + heap[p + 1..];
          numObjects := numObjects - 1;
        } else {
          marked := marked - {obj};
          p := p + 1;
        }
        done := done + 1;
      }
      assert list[..done] == list;
    }

    /** gc: mark from the roots, sweep, then reset the threshold to twice the
        survivors (the baseline when none survive). Returns the
        (collected, remaining) pair the C prints. */
    method Gc() returns (collected: int, remaining: int)
      requires Valid()
      modifies this`heap, this`numObjects, this`marked, this`maxObjects
      ensures Valid()
      ensures heap == old(Collected())
      ensures Members(heap) == ReachAll(arena, Roots())
      ensures maxObjects == if numObjects == 0 then GC_SIZE else 2 * numObjects
      ensures numObjects < maxObjects
      ensures collected == old(numObjects) - numObjects >= 0 && remaining == numObjects
    {
      var before := numObjects;
      ghost var roots := Roots();
      assert forall k :: 0 <= k < |roots| ==> roots[k] in heap;
      CollectionKeepsReachable(arena, heap, roots);
      MarkAll();
      Sweep();
      maxObjects := if numObjects == 0 then GC_SIZE else numObjects * 2;
      assert Roots() == roots;
      // Valid() again, one conjunct at a time: each is a small separate
      // obligation for the solver rather than one large one.
      assert stack.Length == STACK_MAX_SIZE && stackSize <= STACK_MAX_SIZE && WellFormed(arena);
      assert NoDuplicates(heap);
      assert forall i :: 0 <= i < |heap| ==> heap[i] < |arena|;
      assert Closed(arena, Members(heap));
      assert numObjects == |heap| && numObjects <= maxObjects && 0 < maxObjects;
      forall k | 0 <= k < stackSize ensures stack[k] in heap && stack[k] < |arena| {
        assert stack[k] == roots[k];
      }
      assert marked == {};
      collected, remaining := before - numObjects, numObjects;
    }

    /** newObject: collects first when the heap is at its threshold, then
        links one new object at the head of the list. The C writes the
        payload right after this call, before anything else can allocate,
        so the model takes it as an argument; a pair's operands must be
        roots so that the collection cannot free them. */
    method NewObject(init: Object) returns (idx: nat)
      requires Valid()
      requires init.Pair? ==> init.head in Roots() && init.tail in Roots()
      modifies this`arena, this`heap, this`numObjects, this`marked, this`maxObjects
      ensures Valid()
      ensures idx == old(|arena|) && arena == old(arena) + [init]
      ensures heap == [idx] + old(HeapBeforeLink())
      ensures numObjects == old(|HeapBeforeLink()|) + 1
      ensures maxObjects == old(MaxAfterLink())
    {
      if numObjects >= maxObjects {
        var _, _ := Gc();
      }
      if init.Pair? {
        assert init.head in heap && init.tail in heap by {
          var a :| 0 <= a < stackSize && stack[a] == init.head;
          var b :| 0 <= b < stackSize && stack[b] == init.tail;
        }
      }
      LinkFresh(arena, heap, init);
      idx := |arena|;
      arena := arena + [init];
      heap := [idx] + heap;
      numObjects := numObjects + 1;
    }

    /** pushInt: allocates an integer and pushes it. */
    method PushInt(intValue: Int32) returns (r: Result<()>)
      requires Valid()
      modifies this`arena, this`heap, this`numObjects, this`marked, this`maxObjects, this`stackSize, stack
      ensures Valid()
      ensures arena == old(arena) + [Int(intValue)]
      ensures heap == [old(|arena|)] + old(HeapBeforeLink())
      ensures maxObjects == old(MaxAfterLink())
      ensures old(stackSize) == STACK_MAX_SIZE ==> r == Err(StackOverflow) && Roots() == old(Roots())
      ensures old(stackSize) < STACK_MAX_SIZE ==> r == Ok(()) && Roots() == old(Roots()) + [old(|arena|)]
    {
      var obj := NewObject(Int(intValue));
      r := Push(obj);
    }

    /** pushPair: allocates a pair whose tail is the top root and whose head
        is the root below it, pops both and pushes the pair. The allocation
        runs before the pops, so both operands are roots during any
        collection it triggers. */
    method PushPair() returns (r: Result<nat>)
      requires Valid()
      modifies this`arena, this`heap, this`numObjects, this`marked, this`maxObjects, this`stackSize, stack
      ensures Valid()
      ensures old(stackSize) < 2 ==>
        && r == Err(StackUnderflow) && arena == old(arena) && heap == old(heap) && Roots() == old(Roots())
        && numObjects == old(numObjects) && maxObjects == old(maxObjects)
      ensures old(stackSize) >= 2 ==>
        && r == Ok(old(|arena|))
        && arena == old(arena) + [Pair(old(stack[stackSize - 2]), old(stack[stackSize - 1]))]
        && heap == [old(|arena|)] + old(HeapBeforeLink())
        && maxObjects == old(MaxAfterLink())
        && Roots() == old(Roots())[..old(stackSize) - 2] + [old(|arena|)]
    {
      if stackSize < 2 {
        return Err(StackUnderflow);
      }
      ghost var roots := Roots();
      ghost var n := |roots|;
      var head, tail := stack[stackSize - 2], stack[stackSize - 1];
      assert head == roots[n - 2] && tail == roots[n - 1];
      var obj := NewObject(Pair(head, tail));
      ghost var arena1, heap1, max1 := arena, heap, maxObjects;
      assert Roots() == roots;
      var popped := Pop();
      assert popped == Ok(tail) && Roots() == roots[..n - 1];
      popped := Pop();
      assert popped == Ok(head) && Roots() == roots[..n - 2] by {
        assert roots[..n - 1][n - 2] == head;
        assert roots[..n - 1][..n - 2] == roots[..n - 2];
      }
      var _ := Push(obj);
      assert arena == arena1 && heap == heap1 && maxObjects == max1;
      r := Ok(obj);
    }

    /** freeVM: empties the root stack and collects, which frees every object;
        returns the (collected, remaining) pair of that collection. Releasing
        the VM's own storage is not modelled. */
    method FreeVM() returns (collected: int, remaining: int)
      requires Valid()
      modifies this`stackSize, this`heap, this`numObjects, this`marked, this`maxObjects
      ensures Valid()
      ensures Roots() == [] && heap == [] && numObjects == 0 && maxObjects == GC_SIZE
      ensures arena == old(arena)
      ensures collected == old(numObjects) && remaining == 0
    {
      stackSize := 0;
      collected, remaining := Gc();
      assert ReachAll(arena, Roots()) == {};
      SurvivorsNone(old(heap), {});
    }
  }
}
