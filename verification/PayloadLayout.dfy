/** Where the compact bytes of one lane and dimension block sit inside the payload
    of a batch, for every fixed payload layout. */
module PayloadLayout {
  import opened Bits

  const LAYOUT_SPLIT3_TRIMMED := 6
  const LAYOUT_SPLIT3_ZERO_ELIDE := 7
  const LAYOUT_VECTOR_BITPLANES := 8
  const LAYOUT_VECTOR_BITPLANES_PREFETCH := 9
  const LAYOUT_VECTOR_NIBBLE4 := 10
  const LAYOUT_VECTOR_2BIT := 11
  const LAYOUT_SMALL_LANE4 := 12
  const LAYOUT_SMALL_LANE2 := 13
  const LAYOUT_VECTOR_BITPLANES_MICROBATCH := 14

  datatype Offset = At(value: int) | Unsupported

  predicate LaneMajor(layout: nat) {
    || layout == LAYOUT_VECTOR_BITPLANES
    || layout == LAYOUT_VECTOR_BITPLANES_PREFETCH
    || layout == LAYOUT_VECTOR_BITPLANES_MICROBATCH
    || layout == LAYOUT_VECTOR_NIBBLE4
    || layout == LAYOUT_VECTOR_2BIT
  }

  predicate SmallLane(layout: nat) {
    layout == LAYOUT_SMALL_LANE4 || layout == LAYOUT_SMALL_LANE2
  }

  predicate Fixed(layout: nat) {
    LaneMajor(layout) || SmallLane(layout) || layout == LAYOUT_SPLIT3_TRIMMED
  }

  function GroupSize(layout: nat): nat {
    if layout == LAYOUT_SMALL_LANE2 then 2 else 4
  }

  /** Lanes in the group starting at groupStart; the last group may be short. */
  function GroupLanes(size: nat, groupStart: nat, valid: nat): int {
    if size < valid - groupStart then size else valid - groupStart
  }

  function CompactOffset(layout: nat, lane: nat, db: nat, valid: nat, numDimBlocks: nat, bytesPerLane: nat): Offset {
    if LaneMajor(layout) then
      At((lane * numDimBlocks + db) * bytesPerLane)
    else if SmallLane(layout) then
      var groupStart := lane / GroupSize(layout) * GroupSize(layout);
      var localLane := lane - groupStart;
      var preceding := groupStart * numDimBlocks * bytesPerLane;
      At(preceding + (db * GroupLanes(GroupSize(layout), groupStart, valid) + localLane) * bytesPerLane)
    else if layout == LAYOUT_SPLIT3_TRIMMED then
      At((db * valid + lane) * bytesPerLane)
    else
      Unsupported
  }

  // ----- grids -----

  lemma {:induction false} Distribute(a: int, b: int, c: int)
    ensures a * c + b * c == (a + b) * c
  {
  }

  lemma {:induction false} Monotone(a: int, b: int, c: int)
    requires a <= b && 0 <= c
    ensures a * c <= b * c
  {
  }

  /** Cell (r, c) of a grid with the given number of columns. */
  lemma {:induction false} GridCell(r: nat, c: nat, rows: nat, cols: nat)
    requires r < rows && c < cols
    ensures 0 <= r * cols + c < rows * cols
    ensures (r * cols + c) / cols == r && (r * cols + c) % cols == c
  {
    Monotone(r + 1, rows, cols);
    Distribute(r, 1, cols);
    DivModUnique(r * cols + c, cols, r, c);
  }

  lemma {:induction false} GridIndex(k: nat, rows: nat, cols: nat)
    requires k < rows * cols
    ensures 0 < cols && 0 <= k / cols < rows && 0 <= k % cols < cols
    ensures k / cols * cols + k % cols == k
  {
    assert cols != 0;
    if rows <= k / cols {
      Monotone(rows, k / cols, cols);
    }
  }

  // ----- cells and slots -----

  /** The payload is cut into slots of bytesPerLane bytes; cells own slots. */
  function Slot(layout: nat, lane: nat, db: nat, valid: nat, numDimBlocks: nat): int
    requires Fixed(layout)
  {
    if LaneMajor(layout) then lane * numDimBlocks + db
    else if SmallLane(layout) then
      var groupStart := lane / GroupSize(layout) * GroupSize(layout);
      groupStart * numDimBlocks + (db * GroupLanes(GroupSize(layout), groupStart, valid) + (lane - groupStart))
    else db * valid + lane
  }

  /** The cell owning a slot. */
  function Owner(layout: nat, slot: nat, valid: nat, numDimBlocks: nat): (int, int)
    requires Fixed(layout) && slot < valid * numDimBlocks
  {
    if LaneMajor(layout) then
      GridIndex(slot, valid, numDimBlocks);
      (slot / numDimBlocks, slot % numDimBlocks)
    else if SmallLane(layout) then
      GroupOwner(GroupSize(layout), slot, valid, numDimBlocks)
    else
      GridIndex(slot, numDimBlocks, valid);
      (slot % valid, slot / valid)
  }

  /** The first lane of the group a slot falls into. */
  function GroupStart(size: nat, slot: nat, valid: nat, n: nat): (start: nat)
    requires slot < valid * n && 0 < size
    ensures start < valid && start * n <= slot < start * n + n * GroupLanes(size, start, valid)
  {
    GroupOfSlot(slot, size, valid, n);
    slot / (size * n) * size
  }

  function GroupOwner(size: nat, slot: nat, valid: nat, n: nat): (int, int)
    requires slot < valid * n && 0 < size
  {
    var start := GroupStart(size, slot, valid, n);
    var lanes := GroupLanes(size, start, valid);
    (start + (slot - start * n) % lanes, (slot - start * n) / lanes)
  }

  /** The group a slot falls into, and its place inside that group. */
  lemma {:induction false} GroupOfSlot(slot: nat, size: nat, valid: nat, n: nat)
    requires slot < valid * n && 0 < size
    ensures 0 < size * n
    ensures var start := slot / (size * n) * size;
      0 <= start < valid && start * n <= slot < start * n + n * GroupLanes(size, start, valid)
  {
    assert 0 < n;
    Monotone(1, n, size);
    var g := slot / (size * n);
    assert slot == g * (size * n) + slot % (size * n);
    Regroup(g, size, n);
    InsideGroup(g * size, size, slot, valid, n);
  }

  lemma {:induction false} Regroup(g: int, size: int, n: int)
    ensures g * (size * n) == g * size * n
  {
  }

  lemma {:induction false} InsideGroup(start: nat, size: nat, slot: nat, valid: nat, n: nat)
    requires slot < valid * n && start * n <= slot < start * n + size * n
    ensures start < valid && slot < start * n + n * GroupLanes(size, start, valid)
  {
    if valid <= start {
      Monotone(valid, start, n);
    }
    Distribute(valid - start, start, n);
  }

  /** Every cell has its slot below valid * numDimBlocks, and owns it. */
  lemma {:induction false} OwnerOfSlot(layout: nat, lane: nat, db: nat, valid: nat, numDimBlocks: nat)
    requires Fixed(layout) && lane < valid && db < numDimBlocks
    ensures var k := Slot(layout, lane, db, valid, numDimBlocks);
      0 <= k < valid * numDimBlocks && Owner(layout, k, valid, numDimBlocks) == (lane, db)
  {
    if LaneMajor(layout) {
      GridCell(lane, db, valid, numDimBlocks);
    } else if SmallLane(layout) {
      OwnerInGroup(layout, lane, db, valid, numDimBlocks);
    } else {
      GridCell(db, lane, numDimBlocks, valid);
    }
  }

  lemma {:induction false} OwnerInGroup(layout: nat, lane: nat, db: nat, valid: nat, n: nat)
    requires SmallLane(layout) && lane < valid && db < n
    ensures var k := Slot(layout, lane, db, valid, n);
      0 <= k < valid * n && Owner(layout, k, valid, n) == (lane, db)
  {
    var size := GroupSize(layout);
    var g := lane / size;
    var start := g * size;
    var lanes := GroupLanes(GroupSize(layout), start, valid);
    GridCell(db, lane - start, n, lanes);
    var inner := db * lanes + (lane - start);
    SlotInGroup(g, size, lanes, inner, valid, n);
  }

  lemma {:induction false} SlotInGroup(g: nat, size: nat, lanes: nat, inner: nat, valid: nat, n: nat)
    requires g * size + lanes <= valid && lanes <= size && inner < n * lanes
    ensures g * size * n + inner < valid * n
    ensures 0 < size * n && (g * size * n + inner) / (size * n) == g
  {
    Monotone(lanes, size, n);
    Monotone(g * size + lanes, valid, n);
    Distribute(g * size, lanes, n);
    assert g * size * n == g * (size * n);
    DivModUnique(g * size * n + inner, size * n, g, inner);
  }

  /** Every slot below valid * numDimBlocks is owned by a cell whose slot it is. */
  lemma {:induction false} SlotOfOwner(layout: nat, slot: nat, valid: nat, numDimBlocks: nat)
    requires Fixed(layout) && slot < valid * numDimBlocks
    ensures var (lane, db) := Owner(layout, slot, valid, numDimBlocks);
      0 <= lane < valid && 0 <= db < numDimBlocks && Slot(layout, lane, db, valid, numDimBlocks) == slot
  {
    if LaneMajor(layout) {
      GridIndex(slot, valid, numDimBlocks);
    } else if SmallLane(layout) {
      SlotOfGroupOwner(layout, slot, valid, numDimBlocks);
    } else {
      GridIndex(slot, numDimBlocks, valid);
    }
  }

  lemma {:induction false} SlotOfGroupOwner(layout: nat, slot: nat, valid: nat, n: nat)
    requires SmallLane(layout) && slot < valid * n
    ensures var (lane, db) := Owner(layout, slot, valid, n);
      0 <= lane < valid && 0 <= db < n && Slot(layout, lane, db, valid, n) == slot
  {
    var size := GroupSize(layout);
    var start, inner := OwnerParts(size, slot, valid, n);
    var lanes := GroupLanes(size, start, valid);
    GridIndex(inner, n, lanes);
    OwnerGroup(size, slot, valid, n, start, inner % lanes);
  }

  lemma {:induction false} OwnerParts(size: nat, slot: nat, valid: nat, n: nat) returns (start: nat, inner: nat)
    requires slot < valid * n && 0 < size
    ensures start == GroupStart(size, slot, valid, n) && start < valid
    ensures slot == start * n + inner && inner < n * GroupLanes(size, start, valid)
    ensures var lanes := GroupLanes(size, start, valid);
      0 < lanes && GroupOwner(size, slot, valid, n) == (start + inner % lanes, inner / lanes)
  {
    start := GroupStart(size, slot, valid, n);
    inner := slot - start * n;
  }

  lemma {:induction false} OwnerGroup(size: nat, slot: nat, valid: nat, n: nat, start: nat, local: nat)
    requires slot < valid * n && local < size && start == GroupStart(size, slot, valid, n)
    ensures (start + local) / size * size == start
  {
    GroupOfSlot(slot, size, valid, n);
    StartOfLane(slot / (size * n), local, size);
  }

  lemma {:induction false} StartOfLane(g: nat, local: nat, size: nat)
    requires local < size
    ensures (g * size + local) / size * size == g * size
  {
    DivModUnique(g * size + local, size, g, local);
  }

  // ----- which bijection -----

  /** The order the cells of a layout are stored in: lane by lane, block by block within
      it; block by block, lane by lane within it; or by groups of four or two lanes, block
      by block within each. */
  predicate Before(layout: nat, lane: nat, db: nat, lane': nat, db': nat) {
    if layout == 6 then db < db' || (db == db' && lane < lane')
    else if layout == 12 then InGroups(4, lane, db, lane', db')
    else if layout == 13 then InGroups(2, lane, db, lane', db')
    else lane < lane' || (lane == lane' && db < db')
  }

  predicate InGroups(size: nat, lane: nat, db: nat, lane': nat, db': nat)
    requires 0 < size
  {
    lane / size < lane' / size || (lane / size == lane' / size && (db < db' || (db == db' && lane < lane')))
  }

  lemma {:induction false} GridOrder(r: int, c: int, r': int, c': int, cols: nat)
    requires 0 <= c < cols && 0 <= c' < cols
    ensures r * cols + c < r' * cols + c' <==> r < r' || (r == r' && c < c')
  {
    if r < r' {
      Monotone(r + 1, r', cols);
      Distribute(r, 1, cols);
    } else if r' < r {
      Monotone(r' + 1, r, cols);
      Distribute(r', 1, cols);
    }
  }

  /** A bijection onto the slots that keeps this order is the only one: the k-th cell has
      slot k. */
  lemma {:induction false} SlotOrder(layout: nat, lane: nat, db: nat, lane': nat, db': nat, valid: nat, n: nat)
    requires Fixed(layout) && lane < valid && db < n && lane' < valid && db' < n
    ensures layout in {6, 8, 9, 10, 11, 12, 13, 14}
    ensures Slot(layout, lane, db, valid, n) < Slot(layout, lane', db', valid, n) <==> Before(layout, lane, db, lane', db')
  {
    if LaneMajor(layout) {
      GridOrder(lane, db, lane', db', n);
    } else if SmallLane(layout) {
      GroupOrder(layout, lane, db, lane', db', valid, n);
    } else {
      GridOrder(db, lane, db', lane', valid);
    }
  }

  lemma {:induction false} GroupOrder(layout: nat, lane: nat, db: nat, lane': nat, db': nat, valid: nat, n: nat)
    requires SmallLane(layout) && lane < valid && db < n && lane' < valid && db' < n
    ensures Slot(layout, lane, db, valid, n) < Slot(layout, lane', db', valid, n)
      <==> InGroups(GroupSize(layout), lane, db, lane', db')
  {
    hide Slot;
    var size := GroupSize(layout);
    var start, start' := lane / size * size, lane' / size * size;
    SlotParts(layout, lane, db, valid, n);
    SlotParts(layout, lane', db', valid, n);
    if lane / size == lane' / size {
      GridOrder(db, lane - start, db', lane' - start, GroupLanes(size, start, valid));
    } else if start < start' {
      Monotone(start + GroupLanes(size, start, valid), start', n);
    } else {
      Monotone(start' + GroupLanes(size, start', valid), start, n);
    }
  }

  /** A cell's slot is past the groups before it and inside its own. */
  lemma {:induction false} SlotParts(layout: nat, lane: nat, db: nat, valid: nat, n: nat)
    requires SmallLane(layout) && lane < valid && db < n
    ensures var size := GroupSize(layout); var start := lane / size * size; var lanes := GroupLanes(size, start, valid);
      && 0 <= lane - start < lanes && lanes <= size
      && Slot(layout, lane, db, valid, n) == start * n + (db * lanes + (lane - start))
      && start * n <= Slot(layout, lane, db, valid, n) < (start + lanes) * n
  {
    var start := lane / GroupSize(layout) * GroupSize(layout);
    var lanes := GroupLanes(GroupSize(layout), start, valid);
    GridCell(db, lane - start, n, lanes);
    Distribute(start, lanes, n);
  }

  // ----- the bijection, in bytes -----

  lemma {:induction false} OffsetIsSlot(layout: nat, lane: nat, db: nat, valid: nat, n: nat, bytesPerLane: nat)
    requires Fixed(layout)
    ensures CompactOffset(layout, lane, db, valid, n, bytesPerLane) == At(Slot(layout, lane, db, valid, n) * bytesPerLane)
  {
    if SmallLane(layout) {
      var start := lane / GroupSize(layout) * GroupSize(layout);
      Distribute(start * n, db * GroupLanes(GroupSize(layout), start, valid) + (lane - start), bytesPerLane);
    }
  }

  /** Each cell's bytes lie inside the payload, on a slot boundary. */
  lemma {:induction false} OffsetInPayload(layout: nat, lane: nat, db: nat, valid: nat, n: nat, bytesPerLane: nat)
    requires Fixed(layout) && lane < valid && db < n
    ensures var o := CompactOffset(layout, lane, db, valid, n, bytesPerLane);
      && o.At? && 0 <= o.value && o.value + bytesPerLane <= valid * n * bytesPerLane
      && o.value == Slot(layout, lane, db, valid, n) * bytesPerLane
  {
    OffsetIsSlot(layout, lane, db, valid, n, bytesPerLane);
    OwnerOfSlot(layout, lane, db, valid, n);
    var k := Slot(layout, lane, db, valid, n);
    Monotone(k + 1, valid * n, bytesPerLane);
    Distribute(k, 1, bytesPerLane);
  }

  /** Different cells never share a byte. */
  lemma {:induction false} OffsetsDisjoint(layout: nat, lane: nat, db: nat, lane': nat, db': nat, valid: nat, n: nat,
                                           bytesPerLane: nat)
    requires Fixed(layout) && lane < valid && db < n && lane' < valid && db' < n
    requires (lane, db) != (lane', db')
    ensures var o := CompactOffset(layout, lane, db, valid, n, bytesPerLane);
      var o' := CompactOffset(layout, lane', db', valid, n, bytesPerLane);
      && o.At? && o'.At?
      && (o.value + bytesPerLane <= o'.value || o'.value + bytesPerLane <= o.value)
  {
    OffsetIsSlot(layout, lane, db, valid, n, bytesPerLane);
    OffsetIsSlot(layout, lane', db', valid, n, bytesPerLane);
    OwnerOfSlot(layout, lane, db, valid, n);
    OwnerOfSlot(layout, lane', db', valid, n);
    SlotsApart(Slot(layout, lane, db, valid, n), Slot(layout, lane', db', valid, n), bytesPerLane);
  }

  lemma {:induction false} SlotsApart(k: int, k': int, width: nat)
    requires k != k'
    ensures k * width + width <= k' * width || k' * width + width <= k * width
  {
    if k < k' {
      Monotone(k + 1, k', width);
      Distribute(k, 1, width);
    } else {
      Monotone(k' + 1, k, width);
      Distribute(k', 1, width);
    }
  }

  /** Every slot boundary of the payload is some cell's offset. */
  lemma {:induction false} OffsetsOnto(layout: nat, slot: nat, valid: nat, n: nat, bytesPerLane: nat)
    requires Fixed(layout) && slot < valid * n
    ensures exists lane, db ::
              && 0 <= lane < valid && 0 <= db < n
              && CompactOffset(layout, lane, db, valid, n, bytesPerLane) == At(slot * bytesPerLane)
  {
    SlotOfOwner(layout, slot, valid, n);
    var (lane, db) := Owner(layout, slot, valid, n);
    OffsetIsSlot(layout, lane, db, valid, n, bytesPerLane);
    assert CompactOffset(layout, lane, db, valid, n, bytesPerLane) == At(slot * bytesPerLane);
  }
}
