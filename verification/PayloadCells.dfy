/** Visiting the cells of one batch payload and counting the codes they store. */
module PayloadCells {
  import opened OrderStats
  import opened Bits
  import opened PayloadLayout
  import opened Bitplanes

  datatype Geometry = Geometry(layout: nat, exBits: nat, numDimBlocks: nat)
  {
    function BytesPerLane(): (r: nat)
      ensures r == 8 * exBits
    {
      (DIMS * exBits + 7) / 8
    }

    function PayloadSize(valid: nat): nat {
      valid * numDimBlocks * BytesPerLane()
    }

    /** The decoder accepts the cells of this geometry. */
    predicate Decodes() {
      Fixed(layout) && WidthFits(layout, exBits)
    }
  }

  // ----- the codes of a payload -----

  /** A slice that stops at the end, as the reader's slices do. */
  function Slice(s: seq<byte>, from: nat, to: nat): seq<byte> {
    if from <= to <= |s| then s[from..to]
    else if from <= |s| && from <= to then s[from..]
    else []
  }

  function SlotBytes(g: Geometry, payload: seq<byte>, slot: nat): seq<byte> {
    Slice(payload, slot * g.BytesPerLane(), slot * g.BytesPerLane() + g.BytesPerLane())
  }

  function SlotCodes(g: Geometry, payload: seq<byte>): nat -> multiset<nat> {
    (slot: nat) =>
      var compact := SlotBytes(g, payload, slot);
      if g.Decodes() && |compact| >= g.exBits * 8 then multiset(StoredCodes(g.layout, compact, g.exBits)) else multiset{}
  }

  function SumCodes(codes: nat -> multiset<nat>, slots: seq<nat>): multiset<nat> {
    if slots == [] then multiset{}
    else SumCodes(codes, slots[..|slots| - 1]) + codes(slots[|slots| - 1])
  }

  lemma {:induction false} SumMore(codes: nat -> multiset<nat>, slots: seq<nat>, slot: nat)
    ensures SumCodes(codes, slots + [slot]) == SumCodes(codes, slots) + codes(slot)
  {
    assert (slots + [slot])[..|slots|] == slots;
  }

  lemma {:induction false} DropThenLast(slots: seq<nat>, i: nat)
    requires i < |slots| - 1
    ensures var init := slots[..|slots| - 1];
      slots[..i] + slots[i + 1..] == (init[..i] + init[i + 1..]) + [slots[|slots| - 1]]
  {
  }

  lemma {:induction false} SumWithout(codes: nat -> multiset<nat>, slots: seq<nat>, i: nat)
    requires i < |slots|
    ensures SumCodes(codes, slots) ==
      SumCodes(codes, slots[..i] + slots[i + 1..]) + codes(slots[i])
    decreases |slots|
  {
    var n := |slots| - 1;
    if i == n {
      assert slots[..i] + slots[i + 1..] == slots[..n];
    } else {
      var init := slots[..n];
      SumWithout(codes, init, i);
      DropThenLast(slots, i);
      SumMore(codes, init[..i] + init[i + 1..], slots[n]);
    }
  }

  /** The sum does not depend on the order of the slots. */
  lemma {:induction false} SumPermutation(codes: nat -> multiset<nat>, s: seq<nat>, t: seq<nat>)
    requires multiset(s) == multiset(t)
    ensures SumCodes(codes, s) == SumCodes(codes, t)
    decreases |s|
  {
    BagSize(s, t);
    if s != [] {
      var n := |s| - 1;
      assert s[n] in multiset(t);
      var i :| 0 <= i < |t| && t[i] == s[n];
      var t' := t[..i] + t[i + 1..];
      DropSame(s, t, i);
      SumPermutation(codes, s[..n], t');
      SumWithout(codes, t, i);
    }
  }

  lemma {:induction false} DropSame(s: seq<nat>, t: seq<nat>, i: nat)
    requires multiset(s) == multiset(t) && s != [] && i < |t| && t[i] == s[|s| - 1]
    ensures multiset(s[..|s| - 1]) == multiset(t[..i] + t[i + 1..])
  {
    var n := |s| - 1;
    RemoveAt(t, i);
    RemoveAt(s, n);
    assert s[..n] + s[n + 1..] == s[..n];
    TailBags(multiset{s[n]}, multiset(s[..n]), multiset(t[..i] + t[i + 1..]));
  }

  // ----- the order in which cells are visited -----

  function CellSlot(layout: nat, valid: nat, n: nat, i: nat): (slot: nat)
    requires Fixed(layout) && i < valid * n
    ensures slot < valid * n
  {
    GridIndex(i, valid, n);
    OwnerOfSlot(layout, i / n, i % n, valid, n);
    Slot(layout, i / n, i % n, valid, n)
  }

  /** The slots of the first k cells, lane by lane and dimension block by dimension
      block. */
  function CellSlots(layout: nat, valid: nat, n: nat, k: nat): (slots: seq<nat>)
    requires Fixed(layout) && k <= valid * n
    ensures |slots| == k
  {
    seq(k, i requires 0 <= i < k => CellSlot(layout, valid, n, i))
  }

  /** The visit takes every slot of the payload exactly once. */
  lemma {:induction false} VisitIsPermutation(layout: nat, valid: nat, n: nat)
    requires Fixed(layout)
    ensures multiset(CellSlots(layout, valid, n, valid * n)) == multiset(Iota(valid * n))
  {
    var total := valid * n;
    var slots := CellSlots(layout, valid, n, total);
    var a: multiset<nat>, b: multiset<nat> := multiset(slots), multiset(Iota(total));
    VisitedOnce(layout, valid, n);
    forall slot: nat ensures a[slot] == b[slot] {
      DistinctCount(slots, slot);
      IotaCount(total, slot);
      if slot < total {
        Visited(layout, valid, n, slot);
      }
    }
  }

  lemma {:induction false} VisitedOnce(layout: nat, valid: nat, n: nat)
    requires Fixed(layout)
    ensures var slots := CellSlots(layout, valid, n, valid * n);
      && (forall i :: 0 <= i < |slots| ==> slots[i] < valid * n)
      && forall i, j :: 0 <= i < j < |slots| ==> slots[i] != slots[j]
  {
    var slots := CellSlots(layout, valid, n, valid * n);
    forall i | 0 <= i < |slots| ensures slots[i] < valid * n {
      CellOf(layout, valid, n, i);
    }
    forall i, j | 0 <= i < j < |slots| ensures slots[i] != slots[j] {
      CellOf(layout, valid, n, i);
      CellOf(layout, valid, n, j);
    }
  }

  /** The cell visited at step i is recovered from its slot. */
  lemma {:induction false} CellOf(layout: nat, valid: nat, n: nat, i: nat)
    requires Fixed(layout) && i < valid * n
    ensures var slot := CellSlots(layout, valid, n, valid * n)[i];
      && slot < valid * n
      && var (lane, db) := Owner(layout, slot, valid, n); lane * n + db == i
  {
    GridIndex(i, valid, n);
    OwnerOfSlot(layout, i / n, i % n, valid, n);
  }

  lemma {:induction false} Visited(layout: nat, valid: nat, n: nat, slot: nat)
    requires Fixed(layout) && slot < valid * n
    ensures slot in CellSlots(layout, valid, n, valid * n)
  {
    SlotOfOwner(layout, slot, valid, n);
    var (lane, db) := Owner(layout, slot, valid, n);
    GridCell(lane, db, valid, n);
    assert CellSlots(layout, valid, n, valid * n)[lane * n + db] == slot;
  }

  // ----- counting the codes of one batch block -----

  /** Slot number slot lies whole inside the payload. */
  predicate SlotInside(g: Geometry, payload: seq<byte>, slot: nat) {
    slot * g.BytesPerLane() + g.BytesPerLane() <= |payload|
  }

  /** Nothing to decode, or a decodable layout with all its bytes there. */
  predicate CanDecode(g: Geometry, payload: seq<byte>, valid: nat) {
    valid * g.numDimBlocks == 0 || (g.Decodes() && g.PayloadSize(valid) <= |payload|)
  }

  /** Decodes one cell and counts its codes.  A slice cut short cannot be decoded. */
  method CountCell(g: Geometry, payload: seq<byte>, valid: nat, lane: nat, db: nat, hist: multiset<nat>)
      returns (ok: bool, r: multiset<nat>)
    requires lane < valid && db < g.numDimBlocks
    ensures ok <==> g.Decodes() && SlotInside(g, payload, CellAt(g, valid, lane, db))
    ensures ok ==> r == hist + SlotCodes(g, payload)(CellAt(g, valid, lane, db))
  {
    hide StoredCodes, Planes;
    var base := CompactOffset(g.layout, lane, db, valid, g.numDimBlocks, g.BytesPerLane());
    if base.Unsupported? {
      return false, hist;
    }
    OffsetInPayload(g.layout, lane, db, valid, g.numDimBlocks, g.BytesPerLane());
    var compact := Slice(payload, base.value, base.value + g.BytesPerLane());
    if |compact| < g.BytesPerLane() {
      return false, hist;
    }
    var decoded, words := BitplaneWords(g.layout, compact, g.exBits);
    if !decoded {
      return false, hist;
    }
    ok := true;
    r := CountCodes(words, hist, StoredCodes(g.layout, compact, g.exBits));
  }

  function CellAt(g: Geometry, valid: nat, lane: nat, db: nat): nat
    requires lane < valid && db < g.numDimBlocks
  {
    if Fixed(g.layout) then OwnerOfSlot(g.layout, lane, db, valid, g.numDimBlocks); Slot(g.layout, lane, db, valid, g.numDimBlocks)
    else 0
  }

  // The visit, step by step: step k looks at cell (k / numDimBlocks, k % numDimBlocks).

  function StepSlot(g: Geometry, valid: nat, k: nat): nat {
    if Fixed(g.layout) && k < valid * g.numDimBlocks then CellSlot(g.layout, valid, g.numDimBlocks, k) else 0
  }

  lemma {:induction false} CellAtStep(g: Geometry, valid: nat, lane: nat, db: nat, k: nat)
    requires lane < valid && db < g.numDimBlocks && k == lane * g.numDimBlocks + db
    ensures k < valid * g.numDimBlocks && CellAt(g, valid, lane, db) == StepSlot(g, valid, k)
  {
    GridCell(lane, db, valid, g.numDimBlocks);
  }

  /** The first k steps all find their bytes. */
  predicate StepsInside(g: Geometry, payload: seq<byte>, valid: nat, k: nat) {
    k == 0 ||
    (g.Decodes() && SlotInside(g, payload, StepSlot(g, valid, k - 1)) && StepsInside(g, payload, valid, k - 1))
  }

  /** What the first k steps count. */
  function StepsHist(g: Geometry, payload: seq<byte>, valid: nat, k: nat): multiset<nat> {
    if k == 0 then multiset{}
    else StepsHist(g, payload, valid, k - 1) + SlotCodes(g, payload)(StepSlot(g, valid, k - 1))
  }

  lemma {:induction false} StepsAreVisit(g: Geometry, payload: seq<byte>, valid: nat, k: nat)
    requires Fixed(g.layout) && k <= valid * g.numDimBlocks
    ensures StepsHist(g, payload, valid, k) ==
      SumCodes(SlotCodes(g, payload), CellSlots(g.layout, valid, g.numDimBlocks, k))
  {
    if k > 0 {
      StepsAreVisit(g, payload, valid, k - 1);
      var slots := CellSlots(g.layout, valid, g.numDimBlocks, k);
      assert slots[..k - 1] == CellSlots(g.layout, valid, g.numDimBlocks, k - 1);
    }
  }

  lemma {:induction false} StepInside(g: Geometry, payload: seq<byte>, valid: nat, k: nat, i: nat)
    requires i < k
    ensures StepsInside(g, payload, valid, k) ==> SlotInside(g, payload, StepSlot(g, valid, i))
  {
    if i < k - 1 {
      StepInside(g, payload, valid, k - 1, i);
    }
  }

  /** Visited to the end, the payload is whole and every slot is counted once. */
  lemma {:induction false} VisitedAll(g: Geometry, payload: seq<byte>, valid: nat)
    requires StepsInside(g, payload, valid, valid * g.numDimBlocks)
    ensures CanDecode(g, payload, valid)
    ensures StepsHist(g, payload, valid, valid * g.numDimBlocks) ==
      SumCodes(SlotCodes(g, payload), Iota(valid * g.numDimBlocks))
  {
    var total := valid * g.numDimBlocks;
    if total > 0 {
      LastSlotVisited(g, payload, valid);
      StepsAreVisit(g, payload, valid, total);
      VisitIsPermutation(g.layout, valid, g.numDimBlocks);
      SumPermutation(SlotCodes(g, payload), CellSlots(g.layout, valid, g.numDimBlocks, total), Iota(total));
    }
  }

  lemma {:induction false} LastSlotVisited(g: Geometry, payload: seq<byte>, valid: nat)
    ensures g.Decodes() && StepsInside(g, payload, valid, valid * g.numDimBlocks) ==>
      valid * g.numDimBlocks == 0 || g.PayloadSize(valid) <= |payload|
  {
    var total := valid * g.numDimBlocks;
    if !g.Decodes() || total == 0 {
      return;
    }
    Visited(g.layout, valid, g.numDimBlocks, total - 1);
    var i :| 0 <= i < total && CellSlots(g.layout, valid, g.numDimBlocks, total)[i] == total - 1;
    StepInside(g, payload, valid, total, i);
    Distribute(total - 1, 1, g.BytesPerLane());
  }

  /** A decodable payload never fails on a cell. */
  lemma {:induction false} CellDecodes(g: Geometry, payload: seq<byte>, valid: nat, lane: nat, db: nat)
    requires lane < valid && db < g.numDimBlocks
    ensures CanDecode(g, payload, valid) ==> g.Decodes() && SlotInside(g, payload, CellAt(g, valid, lane, db))
  {
    GridCell(lane, db, valid, g.numDimBlocks);
    if g.Decodes() {
      OffsetInPayload(g.layout, lane, db, valid, g.numDimBlocks, g.BytesPerLane());
    }
  }

  method CountLanes(g: Geometry, payload: seq<byte>, valid: nat, hist: multiset<nat>) returns (ok: bool, r: multiset<nat>)
    ensures !ok ==> !CanDecode(g, payload, valid)
    ensures ok ==> StepsInside(g, payload, valid, valid * g.numDimBlocks)
    ensures ok ==> r == hist + StepsHist(g, payload, valid, valid * g.numDimBlocks)
  {
    hide SlotCodes, CellAt, StepSlot, CanDecode, SlotInside;
    ok, r := true, hist;
    ghost var k := 0;
    for lane := 0 to valid
      invariant ok && k == lane * g.numDimBlocks
      invariant StepsInside(g, payload, valid, k) && r == hist + StepsHist(g, payload, valid, k)
    {
      for db := 0 to g.numDimBlocks
        invariant ok && k == lane * g.numDimBlocks + db
        invariant StepsInside(g, payload, valid, k) && r == hist + StepsHist(g, payload, valid, k)
      {
        CellAtStep(g, valid, lane, db, k);
        CellDecodes(g, payload, valid, lane, db);
        ok, r := CountCell(g, payload, valid, lane, db, r);
        if !ok {
          return;
        }
        BagAssociative(hist, StepsHist(g, payload, valid, k), SlotCodes(g, payload)(StepSlot(g, valid, k)));
        k := k + 1;
      }
      Distribute(lane, 1, g.numDimBlocks);
    }
  }

  /** Counts the codes of every cell of a batch block: each slot of the payload once,
      whatever the layout. */
  method CountBlock(g: Geometry, payload: seq<byte>, valid: nat, hist: multiset<nat>) returns (ok: bool, r: multiset<nat>)
    ensures ok <==> CanDecode(g, payload, valid)
    ensures ok ==> r == hist + SumCodes(SlotCodes(g, payload), Iota(valid * g.numDimBlocks))
  {
    ok, r := CountLanes(g, payload, valid, hist);
    if ok {
      VisitedAll(g, payload, valid);
    }
  }

  /** The histogram counts 64 codes for every cell of every lane. */
  lemma {:induction false} SlotsCounted(g: Geometry, payload: seq<byte>, valid: nat, k: nat)
    requires CanDecode(g, payload, valid) && k <= valid * g.numDimBlocks
    ensures |SumCodes(SlotCodes(g, payload), Iota(k))| == DIMS * k
  {
    if k > 0 {
      SlotsCounted(g, payload, valid, k - 1);
      assert Iota(k)[..k - 1] == Iota(k - 1);
      SlotHoldsCodes(g, payload, valid, k - 1);
    }
  }

  lemma {:induction false} SlotHoldsCodes(g: Geometry, payload: seq<byte>, valid: nat, slot: nat)
    requires CanDecode(g, payload, valid) && slot < valid * g.numDimBlocks
    ensures |SlotCodes(g, payload)(slot)| == DIMS
  {
    Monotone(slot + 1, valid * g.numDimBlocks, g.BytesPerLane());
    Distribute(slot, 1, g.BytesPerLane());
    assert |SlotBytes(g, payload, slot)| == g.BytesPerLane();
    BagOfList(StoredCodes(g.layout, SlotBytes(g, payload, slot), g.exBits));
  }

  lemma {:induction false} BagOfList<T>(s: seq<T>)
    ensures |multiset(s)| == |s|
  {
  }
}
