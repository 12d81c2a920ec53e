# A verified model of a mark-and-sweep collector

This project models the toy virtual machine of `gc.c` and its stop-the-world
mark-and-sweep garbage collector. Values are integers and pairs. The root
set is a fixed stack of 100 references. Every allocation first checks the
live count against a threshold and collects when it is reached. A
collection marks everything reachable from the stack, sweeps the intrusive
object list and resets the threshold to twice the survivors, or to 10 when
none survive.

The model has three modules:

- `Objects` (`objects.dfy`) holds the value space and the pure definitions
  the VM is specified against:
  - objects live in an arena (a `seq<Object>`) and refer to each other by
    index;
  - `Reach`/`ReachAll` give what a root reaches;
  - `Survivors` gives what a sweep leaves of a list;
  - lemmas connect these: the reachable set is the least closed set that
    holds the roots, and a sweep keeps exactly the marked entries, in order.
- `Machine` (`vm.dfy`) models the VM as a class that changes state step by
  step:
  - `heap` lists the live objects' indices in the order of the list that
    starts at `firstObject`;
  - `marked` holds the objects whose markbit is set;
  - `stack` is the fixed root array, with `stackSize` as its fill level;
  - `numObjects` and `maxObjects` are the counters.
  Each of `push`, `pop`, `mark`, `markAll`, `sweep`, `gc`, `newObject`,
  `pushInt`, `pushPair` and `freeVM` is a method whose postcondition ties
  the new state to the definitions in `Objects`. The loops of `markAll` and
  `sweep` carry their invariants, and `mark` recurses as the C does.
- `Driver` (`driver.dfy`) is a client of the VM:
  - laws that relate several calls (pop after push, a second collection);
  - allocation while every object is still rooted;
  - the demonstration in `main`, test by test, with the statistics each
    explicit collection reports.

Pointers become arena indices. A pair's children always have smaller
indices than the pair, because a pair is built from values that already
exist. This gives `mark` a termination measure, and it lets the model state
reachability as a function. Freed objects keep their arena slot; they only
leave `heap`.

## Model

| member | source | states |
|---|---|---|
| Objects.Reach | gc.c:55-65 | The objects `mark` visits from `o`: `o` itself, and for a pair everything its head and tail reach; all of them were allocated no later than `o` |
| Objects.ReachAll | gc.c:67-71 | The objects reached from any root; every root is among them and all are arena objects |
| Objects.Survivors | gc.c:73-88 | What a sweep leaves of a list: the kept entries in their original order, never more entries than the list |
| Objects.SurvivorsMembers | gc.c:76-86 | An object survives a sweep exactly when it was listed and marked |
| Objects.SurvivorsNoDuplicates | gc.c:76-81 | A sweep of a duplicate-free list is duplicate-free, so no object is counted or freed twice |
| Objects.SweepStep | gc.c:75-86 | One iteration of the sweep loop: the object at the cursor is the next unvisited list entry; unlinking an unmarked one or stepping past a marked one keeps the list in the form survivors-so-far plus unvisited rest, and clears exactly that mark |
| Objects.ReachExtend | gc.c:101-105 | Allocating a new object does not change what any existing object reaches |
| Objects.ReachAllExtend | gc.c:101-105 | Allocating a new object does not change what the existing roots reach |
| Objects.ReachWithin | gc.c:55-65 | A set closed under head and tail that holds `o` holds everything `o` reaches |
| Objects.ReachAllWithin | gc.c:67-71 | A closed set holding every root holds everything reachable: the marked set is the least such set |
| Objects.ReachClosed | gc.c:61-64 | What `o` reaches holds the children of every pair in it |
| Objects.ReachAllClosed | gc.c:67-71 | The reachable set holds the children of every pair in it |
| Objects.LinkFresh | gc.c:101-105 | Linking a fresh object at the head of a consistent list keeps it consistent: no duplicates, pairs refer backwards, and the live set holds the children of its pairs when the new pair's operands are live |
| Objects.CollectionKeepsReachable | gc.c:89-93 | Collection soundness and completeness: sweeping against the reachable set keeps exactly the reachable objects, every root survives, and the result is consistent again |
| Objects.SurvivorsKeepAll | gc.c:73-88 | A sweep removes nothing exactly when every listed object is marked |
| Objects.SurvivorsNone | gc.c:73-88 | With nothing marked a sweep empties the list |
| Objects.SurvivorsAppend | gc.c:73-88 | Sweeping a list sweeps its front and its back independently |
| Objects.SurvivorsIdempotent | gc.c:73-88 | Sweeping again against the same marks removes nothing more |
| Machine.VM.constructor | gc.c:39-46 | newVM: empty list, empty stack, no marks, count 0, threshold 10 |
| Machine.VM.Push | gc.c:47-50 | push: on a full stack, `StackOverflow` and the roots unchanged; otherwise the value becomes the new top and nothing else changes |
| Machine.VM.Pop | gc.c:51-54 | pop: on an empty stack, `StackUnderflow`; otherwise it returns the old top and the roots lose exactly that entry |
| Machine.VM.Mark | gc.c:55-65 | mark: afterwards everything `o` reaches is marked, nothing beyond it is newly marked, and every marked object outside the pending callers has its reach marked |
| Machine.VM.MarkAll | gc.c:67-71 | markAll: starting with no marks, the marked set is exactly the set reachable from the stack |
| Machine.VM.Sweep | gc.c:73-88 | sweep: the list becomes exactly its marked entries in order, the marks of the listed objects are cleared, and the count drops by the number unlinked |
| Machine.VM.Gc | gc.c:89-96 | gc: the live objects are exactly those reachable from the roots; the list keeps their order; the threshold is 10 when none remain, else twice the survivors; it returns collected = before − after ≥ 0 and remaining = after |
| Machine.VM.NewObject | gc.c:97-107 | newObject: it collects first exactly when count ≥ threshold; then the new object takes the next index, is linked at the head of the list and the count rises by one; the stack is untouched |
| Machine.VM.PushInt | gc.c:109-113 | pushInt: allocate as newObject does, then push; on a full stack the error comes after the allocation, as in the C |
| Machine.VM.PushPair | gc.c:115-122 | pushPair: the pair's tail is the old top and its head the entry below it; both stay rooted during any collection the allocation triggers; afterwards they are replaced on the stack by the pair; with fewer than two roots, `StackUnderflow` and every field (list, stack, count, threshold) as it was |
| Machine.VM.FreeVM | gc.c:140-144 | freeVM: emptying the stack and collecting frees every object, leaving count 0 and threshold 10; it returns that collection's statistics, (all objects before, 0) |
| Driver.PushThenPop | gc.c:47-54 | Pop right after a successful push returns the pushed reference and restores the roots |
| Driver.CollectTwice | gc.c:89-96 | A second collection with no root change in between collects 0 and leaves the count as the first left it |
| Driver.GcAllRooted | gc.c:89-96 | A collection when every live object is reachable frees nothing, keeps the list unchanged and sets the threshold to twice the count, or 10 for an empty heap |
| Driver.RootedAfterInt | gc.c:109-113 | If the roots reach every live object, they still do after pushing a fresh integer |
| Driver.RootedAfterPair | gc.c:115-122 | If the roots reach every live object, they still do after a pair replaces its two operands on the stack |
| Driver.PushIntAllRooted | gc.c:97-113 | pushInt when nothing is garbage: a collection it triggers frees nothing and doubles the threshold, and nothing is garbage afterwards |
| Driver.PushPairAllRooted | gc.c:115-122 | pushPair when nothing is garbage: the same for the new pair |
| Driver.ReachOfInts | gc.c:55-65 | Roots that refer to integers reach exactly themselves |
| Driver.Test1 | gc.c:150-154 | Test 1: five integers pushed, then a collection reports (0, 5) |
| Driver.Test2 | gc.c:157-160 | Test 2: two pops, then a collection frees the two newest integers and reports (2, 3); the threshold becomes 6 |
| Driver.Test3Pair | gc.c:163-166 | Test 3 up to the first pair: (1, 2) is built with no collection |
| Driver.Test3 | gc.c:167-169 | Test 3 to the end: allocating 3 hits the threshold of 6 and collects nothing; ((1, 2), 3) follows; the explicit collection reports (0, 8) |
| Driver.Test4 | gc.c:179-181 | Test 4: popping ((1, 2), 3) makes both pairs and the integers 1, 2, 3 garbage; the collection reports (5, 3) |
| Driver.Test5 | gc.c:184-187 | Test 5: thirty more integers; automatic collections at 6, 12 and 24 objects free nothing; the threshold ends at 48 with 33 objects |
| Driver.ThirtyFromEmpty | gc.c:97-100 | Thirty integers pushed onto a new VM: the threshold goes 10, 20, 40 and the count ends at 30 |
| Driver.RunDriver | gc.c:147-192 | The whole of `main`: its four explicit collections report (0, 5), (2, 3), (0, 8), (5, 3), and the collection in freeVM reports (33, 0), leaving no object |

## Left out

- `objPrint` (gc.c:124-138) and the loop in `main` that prints the stack with it (gc.c:172-177): they only produce output.
- The `printf` in `gc` (gc.c:94-95): the model returns the (collected, remaining) pair instead of printing it.
- The `assert` helper (gc.c:8-13) prints and exits the process. The model returns `Err(StackOverflow)` or `Err(StackUnderflow)` instead.
- `malloc` and `free`, and pointer identity: objects are arena indices, and a freed index is never reused. Releasing the VM itself (`free(vm)`, gc.c:143) is not modelled.
- Machine.VM.NewObject: it takes the new object's payload as an argument. The C writes the payload right after `newObject` returns, with no allocation in between. A pair's operands must be roots; this is what pushPair, its only caller, guarantees.
- Machine.VM.NewObject: a new object starts unmarked. In the C, `malloc` leaves `markbit` uninitialised (gc.c:101), so a new object can carry a stale 1. For an unreachable object the next sweep merely skips it once and clears the bit. For a reachable pair, `mark` returns at once (gc.c:56-57) and never visits its head and tail; children reachable only through that pair, which pushPair has just popped (gc.c:117-118), stay unmarked and are freed by the sweep (gc.c:76-81) while the pair still points at them. The literal C can therefore free reachable objects. The model rules this out by construction: every markbit is clear between operations (`Valid`), new objects included, and the soundness of Machine.VM.Gc rests on that.
- Machine.VM.PushPair: with fewer than two roots it returns `StackUnderflow` and changes nothing. The C first calls `newObject`, which may collect and allocate, and only then fails inside `pop` and exits. The process ends there, so that state is never observed.
- Machine.VM.Push: it requires the pushed reference to be a live object. Its only callers, pushInt and pushPair, push an object they have just allocated.
- Machine.VM.Gc and Machine.VM.NewObject: `numObjects` and `maxObjects` are unbounded integers. The 32-bit overflow of `numObjects * 2` (gc.c:93) is not modelled.
- Driver.RunDriver: it reports only the explicit collections (the four in the tests and the one in freeVM). The statistics printed by collections that allocation triggers are not returned.
- Thirty integers pushed onto a new VM is a separate scenario (Driver.ThirtyFromEmpty). Test 5 of `main` continues from test 4, with three live objects and a threshold of 6.
