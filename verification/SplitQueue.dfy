/** The driver's side of the split virtqueue, in place over the rings. */
module SplitQueue {
  import opened Numbers
  import opened VirtQueue

  datatype Error = NotPowerOfTwo | TooLarge

  datatype Descriptor = Descriptor(address: nat, length: nat, flags: nat, next: nat)

  class AvailableQueue {
    var index: nat
    const ring: array<nat>

    constructor (size: nat)
      ensures fresh(ring) && ring.Length == size && index == 0
    {
      ring := new nat[size](_ => 0);
      index := 0;
    }

    method Push(d: nat)
      requires ring.Length > 0
      modifies this, ring
      ensures ring[..] == old(ring[..])[old(index) % ring.Length := d] && index == (old(index) + 1) % 65536
    {
      var ringIndex := index % ring.Length;
      ring[ringIndex] := d;
      index := (index + 1) % WRAP;
    }
  }

  class UsedQueue {
    var index: nat  // written by the device
    const ring: array<UsedElem>
    var lastSeen: nat

    constructor (size: nat)
      ensures fresh(ring) && ring.Length == size && index == 0 && lastSeen == 0
    {
      ring := new UsedElem[size](_ => UsedElem(0, 0));
      index, lastSeen := 0, 0;
    }

    method Pop() returns (e: Option<UsedElem>)
      requires ring.Length > 0
      modifies this`lastSeen
      ensures lastSeen == if old(lastSeen) == index then index else (old(lastSeen) + 1) % 65536
      ensures e == if old(lastSeen) == index then None else Some(ring[old(lastSeen) % ring.Length])
    {
      if lastSeen == index {
        return None;
      }
      e := Some(ring[lastSeen % ring.Length]);
      lastSeen := (lastSeen + 1) % WRAP;
    }

    /** How many elements `pop` gives before it gives `None`. */
    ghost function Ready(): nat
      reads this
      requires index < WRAP && lastSeen < WRAP
    {
      (index + WRAP - lastSeen) % WRAP
    }

    /** `drain` run to its end: everything the device has used since, in ring order. */
    method Drain() returns (es: seq<UsedElem>)
      requires ring.Length > 0 && index < WRAP && lastSeen < WRAP
      modifies this`lastSeen
      ensures lastSeen == index && |es| == old(Ready())
      ensures forall k | 0 <= k < |es| :: es[k] == ring[(old(lastSeen) + k) % WRAP % ring.Length]
    {
      es := [];
      ghost var total := Ready();
      var more := true;
      while more
        invariant |es| <= total && lastSeen == (old(lastSeen) + |es|) % WRAP
        invariant !more ==> |es| == total
        invariant forall k | 0 <= k < |es| :: es[k] == ring[(old(lastSeen) + k) % WRAP % ring.Length]
        decreases total - |es|, more
      {
        DistanceLeft(old(lastSeen), index, |es|);
        var e := Pop();
        if e.Some? {
          es := es + [e.value];
        } else {
          more := false;
        }
      }
      DistanceLeft(old(lastSeen), index, total);
    }
  }

  /** Counting up from `from` modulo 65536 meets `to` exactly after the distance between them. */
  lemma DistanceLeft(from: nat, to: nat, k: nat)
    requires from < WRAP && to < WRAP && k <= (to + WRAP - from) % WRAP
    ensures (from + k) % WRAP == to <==> k == (to + WRAP - from) % WRAP
    ensures Next((from + k) % WRAP) == (from + k + 1) % WRAP
  {
  }

  class SplitVirtqueue {
    const queueSize: nat
    var freelist: seq<nat>
    const descriptors: array<Descriptor>
    const available: AvailableQueue
    const used: UsedQueue

    /** The rings exist, have the size of the queue, and are not shared between parts. */
    ghost predicate Valid()
      reads this
    {
      && 0 < queueSize == descriptors.Length == available.ring.Length == used.ring.Length
    }

    ghost function View(): Queue
      reads this, available, available.ring, used, used.ring
    {
      Queue(queueSize, freelist, available.index, available.ring[..], used.index, used.ring[..], used.lastSeen)
    }

    constructor (size: nat)
      requires size > 0
      ensures Valid() && queueSize == size && fresh(available) && fresh(used)
      ensures fresh(available.ring) && fresh(used.ring)
      ensures freelist == Indices(size) && available.index == used.index == used.lastSeen == 0
    {
      queueSize := size;
      freelist := Indices(size);
      descriptors := new Descriptor[size](_ => Descriptor(0, 0, 0, 0));
      available := new AvailableQueue(size);
      used := new UsedQueue(size);
    }

    /** `new`: sizes that are no power of two, and powers above 32768, are refused. */
    static method Create(size: nat) returns (q: SplitVirtqueue?, error: Option<Error>)
      ensures error == if !PowerOfTwo(size) then Some(NotPowerOfTwo) else if size > 32768 then Some(TooLarge) else None
      ensures q == null <==> error.Some?
      ensures q != null ==> q.Valid() && fresh(q) && q.queueSize == size && PowerOfTwo(size) && size <= 32768
      ensures q != null ==> Initial(System(q.View(), [], [], [], [], multiset{}, multiset{}, multiset{}), size)
    {
      if !PowerOfTwo(size) {
        return null, Some(NotPowerOfTwo);
      }
      if size > 32768 {
        return null, Some(TooLarge);
      }
      q := new SplitVirtqueue(size);
      error := None;
    }

    /** The last free descriptor, whenever there is one. */
    method AllocDescriptor() returns (d: Option<nat>)
      requires Valid()
      modifies this`freelist
      ensures d.None? <==> old(freelist) == []
      ensures if d.Some? then old(freelist) == freelist + [d.value] else freelist == []
      ensures Valid() && (View(), d) == VirtQueue.AllocDescriptor(old(View()))
    {
      if |freelist| == 0 {
        return None;
      }
      d := Some(freelist[|freelist| - 1]);
      freelist := freelist[..|freelist| - 1];
    }

    method FreeDescriptor(d: nat)
      requires Valid()
      modifies this`freelist
      ensures freelist == old(freelist) + [d]
      ensures Valid() && View() == VirtQueue.FreeDescriptor(old(View()), d)
    {
      freelist := freelist + [d];
    }

    method PushAvailable(d: nat)
      requires Valid()
      modifies available, available.ring
      ensures available.ring[..] == old(available.ring[..])[old(available.index) % queueSize := d]
      ensures available.index == (old(available.index) + 1) % 65536
      ensures Valid() && View() == VirtQueue.Push(old(View()), d)
    {
      available.Push(d);
    }

    method PopUsed() returns (e: Option<UsedElem>)
      requires Valid()
      modifies used`lastSeen
      ensures e.None? <==> old(used.lastSeen) == used.index
      ensures e.Some? ==> e.value == used.ring[old(used.lastSeen) % queueSize]
      ensures used.lastSeen == if e.Some? then (old(used.lastSeen) + 1) % 65536 else old(used.lastSeen)
      ensures Valid() && (View(), e) == VirtQueue.Pop(old(View()))
    {
      e := used.Pop();
    }

    /** A descriptor written is the one read, and no other changes. */
    method WriteDescriptor(index: nat, d: Descriptor)
      requires Valid() && index < queueSize
      modifies descriptors
      ensures descriptors[..] == old(descriptors[..])[index := d]
    {
      descriptors[index] := d;
    }

    method ReadDescriptor(index: nat) returns (d: Descriptor)
      requires Valid() && index < queueSize
      ensures d == descriptors[..][index]
    {
      d := descriptors[index];
    }
  }
}
