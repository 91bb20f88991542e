/** The exact-rerank collector: a max-heap of at most topK entries. */
module ResultCollector {
  import opened OrderStats
  import opened TopKHeap

  datatype AddressEntry = AddressEntry(offset: nat, size: nat)

  datatype CollectorEntry = CollectorEntry(distance: real, addr: AddressEntry)

  /** The largest finite single-precision value. */
  const FLOAT_MAX := 340282346638528859811704183484516925440.0

  const ByDistance: CollectorEntry -> real := (e: CollectorEntry) => e.distance

  function Distances(s: seq<CollectorEntry>): seq<real> {
    Keys(s, ByDistance)
  }

  class ResultCollector {
    const topK: nat
    const heap: TopKHeap<CollectorEntry>

    ghost predicate Valid()
      reads this, heap, heap.data
    {
      heap.k == topK && heap.key == ByDistance && heap.Valid()
    }

    /** Every entry offered since construction or the last Finalize. */
    ghost function Offered(): seq<CollectorEntry>
      reads this, heap
    {
      heap.offered
    }

    constructor (topK: nat)
      ensures Valid() && fresh(heap) && fresh(heap.data)
      ensures this.topK == topK && Offered() == []
    {
      this.topK := topK;
      heap := new TopKHeap<CollectorEntry>(topK, ByDistance);
    }

    /** An entry enters while there is room, and later exactly when it beats the
        current k-th smallest distance. */
    method TryInsert(distance: real, addr: AddressEntry) returns (entered: bool)
      requires Valid() && 1 <= topK
      modifies heap, heap.data
      ensures Valid() && heap.data == old(heap.data)
      ensures Offered() == old(Offered()) + [CollectorEntry(distance, addr)]
      ensures entered <==>
        |old(Offered())| < topK || distance < Sort(Distances(old(Offered())))[topK-1]
    {
      entered := heap.Offer(CollectorEntry(distance, addr));
    }

    method TopDistance() returns (d: real)
      requires Valid()
      ensures var n := Min(topK, |Offered()|);
        d == if n == 0 then FLOAT_MAX else Sort(Distances(Offered()))[n-1]
    {
      if heap.len == 0 {
        return FLOAT_MAX;
      }
      RootKey(heap.data[..heap.len], ByDistance);
      KeptKeys(heap.data[..heap.len], heap.dropped, Offered(), topK, ByDistance);
      d := heap.data[0].distance;
    }

    method Full() returns (full: bool)
      requires Valid()
      ensures full <==> |Offered()| >= topK
    {
      full := heap.len >= topK;
    }

    method Size() returns (n: nat)
      requires Valid()
      ensures n == Min(topK, |Offered()|)
    {
      n := heap.len;
    }

    /** Empties the collector into ascending order: exactly the distances that
        sorting everything offered and taking the first topK would give, each
        still paired with an address it was offered with. */
    method Finalize() returns (results: seq<CollectorEntry>)
      requires Valid()
      modifies heap, heap.data
      ensures Valid() && heap.data == old(heap.data) && Offered() == []
      ensures Distances(results) == Smallest(Distances(old(Offered())), topK)
      ensures multiset(results) <= multiset(old(Offered()))
    {
      results := heap.Drain();
    }
  }
}
