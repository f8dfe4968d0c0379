/**
 * The split virtqueue between driver and device (VirtIO 1.2, section 2.7), on values: one record of the shared
 * rings and the driver's bookkeeping, and every interleaving of driver and device steps.
 */
module VirtQueue {
  import opened Numbers

  const WRAP := 65536  // ring indices are 16 bits wide and run freely

  /** One entry of the used ring: the descriptor the device is done with and the bytes it wrote. */
  datatype UsedElem = UsedElem(start: nat, length: nat)

  /** The memory both sides share, and the driver's own fields. */
  datatype Queue = Queue(size: nat, freelist: seq<nat>, availIndex: nat, availRing: seq<nat>,
                         usedIndex: nat, usedRing: seq<UsedElem>, lastSeen: nat)

  function Next(index: nat): nat { (index + 1) % WRAP }

  /** `alloc_descriptor`: the last free descriptor. */
  function AllocDescriptor(q: Queue): (Queue, Option<nat>) {
    if q.freelist == [] then (q, None)
    else (q.(freelist := q.freelist[..|q.freelist| - 1]), Some(q.freelist[|q.freelist| - 1]))
  }

  function FreeDescriptor(q: Queue, d: nat): Queue {
    q.(freelist := q.freelist + [d])
  }

  /** `AvailableQueue::push` */
  function Push(q: Queue, d: nat): Queue
    requires |q.availRing| > 0
  {
    q.(availRing := q.availRing[q.availIndex % |q.availRing| := d], availIndex := Next(q.availIndex))
  }

  /** `UsedQueue::pop` */
  function Pop(q: Queue): (Queue, Option<UsedElem>)
    requires |q.usedRing| > 0
  {
    if q.lastSeen == q.usedIndex then (q, None)
    else (q.(lastSeen := Next(q.lastSeen)), Some(q.usedRing[q.lastSeen % |q.usedRing|]))
  }

  /** The device's entry in the used ring. */
  function DevicePut(q: Queue, e: UsedElem): Queue
    requires |q.usedRing| > 0
  {
    q.(usedRing := q.usedRing[q.usedIndex % |q.usedRing| := e], usedIndex := Next(q.usedIndex))
  }

  /**
   * The queue together with its history: the descriptors pushed by the driver and those fetched by the device, the
   * elements used by the device and those got by the driver, and who holds the descriptors in between.
   */
  datatype System = System(q: Queue, pushed: seq<nat>, fetched: seq<nat>, used: seq<UsedElem>, got: seq<UsedElem>,
                           held: multiset<nat>, atDevice: multiset<nat>, returned: multiset<nat>)

  datatype Step =
    | DriverAlloc            // the driver allocates a descriptor
    | DriverPush(d: nat)     // and makes an allocated one available
    | DriverPop              // takes a used element
    | DriverFree(d: nat)     // and frees a descriptor it got back
    | DeviceTake             // the device takes the next available descriptor
    | DeviceUse(d: nat, length: nat)  // and returns one it took

  function Starts(es: seq<UsedElem>): multiset<nat> {
    if es == [] then multiset{} else multiset{es[0].start} + Starts(es[1..])
  }

  function Indices(n: nat): seq<nat> {
    seq(n, i requires 0 <= i => i)
  }

  /** The shape that every step needs: rings that exist, and no side ahead of the other. */
  ghost predicate Sized(s: System) {
    |s.q.availRing| > 0 && |s.q.usedRing| > 0 && |s.fetched| <= |s.pushed| && |s.got| <= |s.used|
  }

  /** All descriptors, wherever they are. */
  ghost function All(s: System): multiset<nat>
    requires Sized(s)
  {
    multiset(s.q.freelist) + s.held + multiset(s.pushed[|s.fetched|..])
    + s.atDevice + Starts(s.used[|s.got|..]) + s.returned
  }

  /** The driver pushes only what it allocated and frees only what it popped; the device returns only what it took. */
  ghost predicate Enabled(s: System, step: Step) {
    match step
    case DriverPush(d) => d in s.held
    case DriverFree(d) => d in s.returned
    case DeviceTake => |s.fetched| < |s.pushed|
    case DeviceUse(d, _) => d in s.atDevice
    case _ => true
  }

  /** The system after a step. What a side receives is what it reads in the rings. */
  ghost function After(s: System, step: Step): System
    requires Sized(s) && Enabled(s, step)
  {
    match step
    case DriverAlloc =>
      var (q, d) := AllocDescriptor(s.q);
      if d.Some? then s.(q := q, held := s.held + multiset{d.value}) else s
    case DriverPush(d) => s.(q := Push(s.q, d), held := s.held - multiset{d}, pushed := s.pushed + [d])
    case DriverPop =>
      var (q, e) := Pop(s.q);
      if e.Some? then s.(q := q, got := s.got + [e.value], returned := s.returned + multiset{e.value.start}) else s
    case DriverFree(d) => s.(q := FreeDescriptor(s.q, d), returned := s.returned - multiset{d})
    case DeviceTake =>
      var d := s.q.availRing[|s.fetched| % |s.q.availRing|];
      s.(fetched := s.fetched + [d], atDevice := s.atDevice + multiset{d})
    case DeviceUse(d, length) =>
      var e := UsedElem(d, length);
      s.(q := DevicePut(s.q, e), atDevice := s.atDevice - multiset{d}, used := s.used + [e])
  }

  /** Slot `k` modulo the ring size still holds the `k`-th item, for every item not yet taken. */
  ghost predicate Waiting<T>(ring: seq<T>, items: seq<T>, from: nat)
    requires |ring| > 0
  {
    forall k | from <= k < |items| :: ring[k % |ring|] == items[k]
  }

  /**
   * The descriptors are, at every moment, the numbers below the queue size, each in one place. What was fetched and
   * got is a prefix of what was pushed and used, the indices count modulo 65536, and no waiting slot is overwritten.
   */
  ghost predicate Inv(s: System) {
    && Sized(s) && PowerOfTwo(s.q.size) && s.q.size <= 32768
    && |s.q.availRing| == s.q.size && |s.q.usedRing| == s.q.size
    && s.fetched <= s.pushed && s.got <= s.used
    && s.q.availIndex == |s.pushed| % WRAP && s.q.usedIndex == |s.used| % WRAP && s.q.lastSeen == |s.got| % WRAP
    && All(s) == multiset(Indices(s.q.size))
    && Waiting(s.q.availRing, s.pushed, |s.fetched|)
    && Waiting(s.q.usedRing, s.used, |s.got|)
  }

  lemma {:induction false} StartsSize(es: seq<UsedElem>)
    ensures |Starts(es)| == |es|
  {
    if es != [] { StartsSize(es[1..]); }
  }

  lemma {:induction false} StartsAppend(es: seq<UsedElem>, e: UsedElem)
    ensures Starts(es + [e]) == Starts(es) + multiset{e.start}
  {
    if es != [] {
      assert (es + [e])[1..] == es[1..] + [e];
      StartsAppend(es[1..], e);
    }
  }

  /** At most `size` entries wait in either ring, fewer when a descriptor is with the driver or the device. */
  lemma Outstanding(s: System)
    requires Inv(s)
    ensures |s.pushed| - |s.fetched| + |s.held| <= s.q.size
    ensures |s.used| - |s.got| + |s.atDevice| <= s.q.size
  {
    StartsSize(s.used[|s.got|..]);
    assert |multiset(Indices(s.q.size))| == s.q.size;
  }

  /** The slot an index names is that of the unbounded count, because the queue size divides 65536. */
  lemma SlotOf(count: nat, size: nat)
    requires PowerOfTwo(size) && size <= 32768
    ensures count % WRAP % size == count % size && Next(count % WRAP) == (count + 1) % WRAP
  {
    WrapIsPower();
    PowerDivides(size, WRAP);
    hide PowerOfTwo;
    ModMod(count, size, WRAP);
    NextCount(count);
  }

  lemma NextCount(count: nat)
    ensures Next(count % WRAP) == (count + 1) % WRAP
  {
  }

  lemma WrapIsPower()
    ensures PowerOfTwo(WRAP)
  {
    assert PowerOfTwo(16) && PowerOfTwo(256) && PowerOfTwo(4096);
  }

  /** Writing the next item leaves every waiting one in place as long as fewer than `size` wait. */
  lemma WriteNext<T>(ring: seq<T>, items: seq<T>, from: nat, x: T)
    requires |ring| > 0 && from <= |items| < from + |ring| && Waiting(ring, items, from)
    ensures Waiting(ring[|items| % |ring| := x], items + [x], from)
  {
    var ring', items' := ring[|items| % |ring| := x], items + [x];
    forall k | from <= k < |items'|
      ensures ring'[k % |ring'|] == items'[k]
    {
      if k < |items| { CloseRemainders(k, |items|, |ring|); }
    }
  }

  lemma AllocKeeps(s: System)
    requires Inv(s)
    ensures Inv(After(s, DriverAlloc))
  {
    if s.q.freelist != [] {
      var last := |s.q.freelist| - 1;
      assert s.q.freelist == s.q.freelist[..last] + [s.q.freelist[last]];
    }
  }

  /** How many descriptors are allocated, waiting in a ring, at the device or back with the driver. */
  ghost function Busy(s: System): nat
    requires Sized(s)
  {
    |s.held| + (|s.pushed| - |s.fetched|) + |s.atDevice| + (|s.used| - |s.got|) + |s.returned|
  }

  /** A descriptor is free exactly as long as fewer than `size` are in use, and then one in use nowhere is allocated. */
  lemma AllocAdds(s: System)
    requires Inv(s)
    ensures var s' := After(s, DriverAlloc);
      && Busy(s) <= s.q.size
      && s' == s.(q := s'.q, held := s'.held)
      && (Busy(s) == s.q.size ==> s' == s)
      && (Busy(s) < s.q.size ==>
          exists d | 0 <= d < s.q.size :: s'.held == s.held + multiset{d} && Unused(s, d))
  {
    StartsSize(s.used[|s.got|..]);
    assert |multiset(Indices(s.q.size))| == s.q.size;
    assert |s.q.freelist| + Busy(s) == s.q.size;
    if s.q.freelist != [] {
      var d := s.q.freelist[|s.q.freelist| - 1];
      IndexOnce(s.q.size, d);
      assert multiset(s.q.freelist)[d] >= 1 && All(s)[d] == multiset(Indices(s.q.size))[d];
      assert Unused(s, d);
    }
  }

  /** No side has the descriptor. */
  ghost predicate Unused(s: System, d: nat)
    requires Sized(s)
  {
    d !in s.held && d !in s.pushed[|s.fetched|..] && d !in s.atDevice && d !in Starts(s.used[|s.got|..])
    && d !in s.returned
  }

  lemma {:induction false} IndexOnce(n: nat, d: nat)
    ensures multiset(Indices(n))[d] == if d < n then 1 else 0
  {
    if n == 0 {
      assert Indices(0) == [];
    } else {
      IndexOnce(n - 1, d);
      assert Indices(n) == Indices(n - 1) + [n - 1];
    }
  }

  lemma PushKeeps(s: System, d: nat)
    requires Inv(s) && d in s.held
    ensures Inv(After(s, DriverPush(d)))
  {
    hide PowerOfTwo, Starts, Indices, Waiting, All;
    Outstanding(s);
    SlotOf(|s.pushed|, s.q.size);
    WriteNext(s.q.availRing, s.pushed, |s.fetched|, d);
    PushBalance(s, d);
  }

  lemma PushBalance(s: System, d: nat)
    requires Sized(s) && d in s.held
    ensures Sized(After(s, DriverPush(d))) && All(After(s, DriverPush(d))) == All(s)
  {
    hide Starts;
    assert (s.pushed + [d])[|s.fetched|..] == s.pushed[|s.fetched|..] + [d];
  }

  /** `pop` gives the next used element the driver has not got, and `None` exactly when it has caught up. */
  lemma PopInOrder(s: System)
    requires Inv(s)
    ensures Pop(s.q).1 == if |s.got| < |s.used| then Some(s.used[|s.got|]) else None
  {
    Outstanding(s);
    SlotOf(|s.got|, s.q.size);
    if |s.got| < |s.used| { CloseRemainders(|s.got|, |s.used|, WRAP); }
  }

  /** Draining the used ring gives exactly the elements the driver has not got, in the order the device used them. */
  lemma DrainInOrder(s: System, k: nat)
    requires Inv(s) && k < |s.used| - |s.got|
    ensures (s.q.usedIndex + WRAP - s.q.lastSeen) % WRAP == |s.used| - |s.got|
    ensures s.q.usedRing[(s.q.lastSeen + k) % WRAP % s.q.size] == s.used[|s.got| + k]
  {
    hide PowerOfTwo, Starts, Indices, All;
    hide Next, Waiting;
    Outstanding(s);
    SlotOf(|s.got| + k, s.q.size);
    CountApart(|s.got|, |s.used|, k);
    WaitingAt(s.q.usedRing, s.used, |s.got|, |s.got| + k);
  }

  lemma WaitingAt<T>(ring: seq<T>, items: seq<T>, from: nat, k: nat)
    requires |ring| > 0 && Waiting(ring, items, from) && from <= k < |items|
    ensures ring[k % |ring|] == items[k]
  {
  }

  lemma CountApart(a: nat, b: nat, k: nat)
    requires a <= b < a + WRAP
    ensures (b % WRAP + WRAP - a % WRAP) % WRAP == b - a && (a % WRAP + k) % WRAP == (a + k) % WRAP
  {
  }

  lemma PopKeeps(s: System)
    requires Inv(s)
    ensures Inv(After(s, DriverPop))
  {
    hide PowerOfTwo, Starts, Indices, Waiting, All, Next;
    PopInOrder(s);
    if |s.got| < |s.used| {
      SlotOf(|s.got|, s.q.size);
      PrefixNext(s.got, s.used);
      WaitingNext(s.q.usedRing, s.used, |s.got|);
      PopBalance(s);
    }
  }

  lemma PrefixNext<T>(s: seq<T>, t: seq<T>)
    requires s <= t && |s| < |t|
    ensures s + [t[|s|]] <= t
  {
  }

  lemma WaitingNext<T>(ring: seq<T>, items: seq<T>, from: nat)
    requires |ring| > 0 && Waiting(ring, items, from)
    ensures Waiting(ring, items, from + 1)
  {
  }

  lemma PopBalance(s: System)
    requires Sized(s) && |s.got| < |s.used| && Pop(s.q).1 == Some(s.used[|s.got|])
    ensures Sized(After(s, DriverPop)) && All(After(s, DriverPop)) == All(s)
  {
    assert s.used[|s.got|..][1..] == s.used[|s.got| + 1..];
  }

  lemma FreeKeeps(s: System, d: nat)
    requires Inv(s) && d in s.returned
    ensures Inv(After(s, DriverFree(d)))
  {
  }

  lemma TakeKeeps(s: System)
    requires Inv(s) && |s.fetched| < |s.pushed|
    ensures Inv(After(s, DeviceTake)) && After(s, DeviceTake).fetched == s.fetched + [s.pushed[|s.fetched|]]
  {
    hide PowerOfTwo, Starts, Indices;
    var d := s.pushed[|s.fetched|];
    assert s.q.availRing[|s.fetched| % |s.q.availRing|] == d;
    var s' := After(s, DeviceTake);
    assert s.fetched + [d] <= s.pushed;
    assert s.pushed[|s.fetched|..] == [d] + s.pushed[|s.fetched| + 1..];
    assert All(s') == All(s);
  }

  lemma UseKeeps(s: System, d: nat, length: nat)
    requires Inv(s) && d in s.atDevice
    ensures Inv(After(s, DeviceUse(d, length)))
  {
    hide PowerOfTwo, Starts, Indices, Waiting, All;
    Outstanding(s);
    SlotOf(|s.used|, s.q.size);
    WriteNext(s.q.usedRing, s.used, |s.got|, UsedElem(d, length));
    UseBalance(s, d, length);
  }

  lemma UseBalance(s: System, d: nat, length: nat)
    requires Sized(s) && d in s.atDevice
    ensures Sized(After(s, DeviceUse(d, length))) && All(After(s, DeviceUse(d, length))) == All(s)
  {
    hide Starts;
    var e := UsedElem(d, length);
    assert (s.used + [e])[|s.got|..] == s.used[|s.got|..] + [e];
    StartsAppend(s.used[|s.got|..], e);
  }

  lemma StepKeeps(s: System, step: Step)
    requires Inv(s) && Enabled(s, step)
    ensures Sized(s) && Inv(After(s, step))
  {
    match step {
      case DriverAlloc => AllocKeeps(s);
      case DriverPush(d) => PushKeeps(s, d);
      case DriverPop => PopKeeps(s);
      case DriverFree(d) => FreeKeeps(s, d);
      case DeviceTake => TakeKeeps(s);
      case DeviceUse(d, length) => UseKeeps(s, d, length);
    }
  }

  /** The queue as `new` makes it: all descriptors free, both indices 0. */
  ghost predicate Initial(s: System, size: nat) {
    && PowerOfTwo(size) && size <= 32768
    && s.q.size == |s.q.availRing| == |s.q.usedRing| == size && s.q.freelist == Indices(size)
    && s.q.availIndex == s.q.usedIndex == s.q.lastSeen == 0
    && s.pushed == s.fetched == [] && s.used == s.got == [] && s.held == s.atDevice == s.returned == multiset{}
  }

  ghost predicate Moves(s: System, step: Step, s': System) {
    Sized(s) && Enabled(s, step) && s' == After(s, step)
  }

  /**
   * Every interleaving of driver and device steps keeps the invariant: the device fetches exactly what was pushed,
   * the driver gets exactly what was used, both in order and once, and descriptors are never lost or doubled.
   */
  lemma {:induction false} RunKeeps(run: seq<System>, steps: seq<Step>, size: nat)
    requires |run| == |steps| + 1 && Initial(run[0], size)
    requires forall k | 0 <= k < |steps| :: Moves(run[k], steps[k], run[k + 1])
    ensures forall k | 0 <= k < |run| :: Inv(run[k])
    decreases |run|
  {
    hide Inv, Initial, After, Enabled, Sized;
    var last := |steps|;
    if last == 0 {
      InitialInv(run[0], size);
    } else {
      RunKeeps(run[..last], steps[..last - 1], size);
      assert forall k | 0 <= k < last :: Inv(run[..last][k]);
      MoveKeeps(run[last - 1], steps[last - 1], run[last]);
    }
  }

  lemma InitialInv(s: System, size: nat)
    requires Initial(s, size)
    ensures Inv(s)
  {
    assert s.pushed[0..] == [] && s.used[0..] == [];
  }

  lemma MoveKeeps(s: System, step: Step, s': System)
    requires Inv(s) && Moves(s, step, s')
    ensures Inv(s')
  {
    hide Inv, After;
    StepKeeps(s, step);
  }
}
