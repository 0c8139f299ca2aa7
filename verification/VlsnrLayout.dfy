/** The data-field layout: which positions carry payload and which carry pilots. */
module VlsnrLayout {
  import opened Arithmetic
  import opened Masking

  const SLOT := 90
  const BOUNDARY := 36

  function Extra(set1: bool): nat { if set1 then 18 * 34 + 3 * 36 else 9 * 32 + 36 }

  /** Length of the pilot block of a group, and the data count at which it comes; none beyond the last
      group that has one. */
  function BlockLength(set1: bool, group: nat): nat {
    if set1 then (if group <= 18 then 34 else 36) else if group <= 9 then 32 else 36
  }

  function Threshold(set1: bool, group: nat): nat {
    if set1 then (if group <= 18 then 703 else if group <= 21 then 702 else 0)
    else if group <= 9 then 704 else if group == 10 then 702 else 0
  }

  /** n entries of one kind. */
  function Repeat(pilot: bool, n: nat): (r: seq<bool>)
    ensures |r| == n && forall i :: 0 <= i < n ==> r[i] == pilot
  {
    seq(n, _ => pilot)
  }

  method AppendRun(mask: seq<bool>, pilot: bool, n: nat) returns (layout: seq<bool>)
    ensures layout == mask + Repeat(pilot, n)
  {
    layout := mask;
    for p := 0 to n
      invariant layout == mask + Repeat(pilot, p)
    {
      layout := layout + [pilot];
    }
  }

  /** Two slots with a pilot block of length n after `at` payload positions. */
  function WithBlock(at: nat, n: nat): seq<bool>
    requires at + n <= 2 * SLOT
  {
    Repeat(false, at) + Repeat(true, n) + Repeat(false, 2 * SLOT - at - n)
  }

  /** Whether the group's pilot block comes inside the slot that starts at this data count. */
  predicate Hits(set1: bool, group: nat, symbols: nat) {
    var t := Threshold(set1, group);
    t != 0 && symbols < t <= symbols + SLOT
  }

  ghost predicate SlotPut(mask: seq<bool>, set1: bool, group: nat, symbols0: nat, layout: seq<bool>, symbols: nat,
                          fired: bool)
  {
    var n := if fired then 2 * SLOT - BlockLength(set1, group) else SLOT;
    && fired == Hits(set1, group, symbols0) && symbols == symbols0 + n
    && layout == mask +
         if fired then WithBlock(Threshold(set1, group) - symbols0, BlockLength(set1, group)) else Repeat(false, SLOT)
  }

  /** The loop over one slot.  If the block comes, the slot is cut there, the pilots follow, and the
      data of this slot and the next, less the pilots' room, is completed. */
  method PutSlot(mask: seq<bool>, set1: bool, group: nat, symbols0: nat)
    returns (layout: seq<bool>, symbols: nat, fired: bool)
    ensures SlotPut(mask, set1, group, symbols0, layout, symbols, fired)
  {
    layout, symbols, fired := mask, symbols0, false;
    for k := 0 to SLOT
      invariant !fired && symbols == symbols0 + k && layout == mask + Repeat(false, k)
      invariant Threshold(set1, group) != 0 ==> !(symbols0 < Threshold(set1, group) <= symbols)
    {
      layout := layout + [false];
      symbols := symbols + 1;
      if symbols == Threshold(set1, group) {
        fired := true;
        var plen := BlockLength(set1, group);
        layout := AppendRun(layout, true, plen);
        var rest := 2 * SLOT - (k + 1) - plen;
        layout := AppendRun(layout, false, rest);
        symbols := symbols + rest;
        return;
      }
    }
  }

  // ---- the map ----

  /** The first j slots of the map: payload, with a block of pilots over the eighth and ninth slot of
      each group that has one, and a run of pilots after each group but the last. */
  function MapTo(set1: bool, slots: nat, j: nat): seq<bool>
    decreases j
  {
    if j == 0 then []
    else if j >= 2 && AtBlock(set1, j - 2) then
      var g := Group(j - 2);
      MapTo(set1, slots, j - 2) + WithBlock(Threshold(set1, g) - 7 * SLOT, BlockLength(set1, g))
    else
      MapTo(set1, slots, j - 1) + Repeat(false, SLOT)
      + Repeat(true, if (j + 10) % 16 == 0 && j < slots then BOUNDARY else 0)
  }

  /** Slot j is where its group's block begins. */
  predicate AtBlock(set1: bool, j: nat) {
    HasBlock(set1, Group(j)) && Local(j) == 7
  }

  /** Where the slot loop ends: one further if its last slot is where a block begins. */
  function Reach(set1: bool, slots: nat): nat {
    if slots > 0 && AtBlock(set1, slots - 1) then slots + 1 else slots
  }

  function Layout(set1: bool, slots: nat): seq<bool> { MapTo(set1, slots, Reach(set1, slots)) }

  // ---- where the loop stands at slot j ----

  function Group(j: nat): nat { (j + 10) / 16 }

  /** Slots of the current group already done. */
  function Local(j: nat): nat { if Group(j) == 0 then j else (j + 10) % 16 }

  predicate HasBlock(set1: bool, g: nat) {
    1 <= g && Threshold(set1, g) != 0
  }

  /** Pilots of the blocks of groups before g. */
  function BlocksBefore(set1: bool, g: nat): nat {
    if g == 0 then 0 else BlocksBefore(set1, g - 1) + if HasBlock(set1, g - 1) then BlockLength(set1, g - 1) else 0
  }

  function BlockSoFar(set1: bool, j: nat): nat {
    if HasBlock(set1, Group(j)) && Local(j) >= 9 then BlockLength(set1, Group(j)) else 0
  }

  ghost predicate Standing(set1: bool, j: nat, slots: nat, layout: seq<bool>, slotCount: nat, group: nat,
        symbols: nat) {
    && slotCount == (j + 10) % 16
    && Visited(set1, j)
    && (j < slots ==> group == Group(j) && symbols == SLOT * Local(j) - BlockSoFar(set1, j))
    && layout == MapTo(set1, slots, j)
  }

  /** A slot without a block. */
  lemma PlainSlot(set1: bool, j: nat)
    requires HasBlock(set1, Group(j)) ==> Local(j) != 7 && Local(j) != 8
    ensures (j + 11) % 16 == ((j + 10) % 16 + 1) % 16
    ensures Group(j + 1) == Group(j) + if (j + 11) % 16 == 0 then 1 else 0
    ensures Local(j + 1) == if (j + 11) % 16 == 0 then 0 else Local(j) + 1
    ensures BlocksBefore(set1, Group(j + 1)) + BlockSoFar(set1, j + 1)
      == BlocksBefore(set1, Group(j)) + BlockSoFar(set1, j)
    ensures (j + 11) % 16 != 0 ==> BlockSoFar(set1, j + 1) == BlockSoFar(set1, j)
    ensures Visited(set1, j + 1)
  {
    if (j + 11) % 16 == 0 {
      assert Group(j + 1) == Group(j) + 1;
    } else {
      assert Group(j + 1) == Group(j);
    }
  }

  /** The slot with the block: two slots' worth at once. */
  lemma BlockSlot(set1: bool, j: nat)
    requires HasBlock(set1, Group(j)) && Local(j) == 7
    ensures (j + 12) % 16 == 9 && Group(j + 2) == Group(j) && Local(j + 2) == 9
    ensures BlockSoFar(set1, j) == 0 && BlockSoFar(set1, j + 2) == BlockLength(set1, Group(j))
  {
    assert (j + 12) / 16 == (j + 10) / 16;
  }

  /** The block comes exactly in the eighth slot of a group that has one. */
  lemma HitsExactly(set1: bool, j: nat, symbols: nat)
    requires symbols == SLOT * Local(j) - BlockSoFar(set1, j) && Visited(set1, j)
    ensures Hits(set1, Group(j), symbols) <==> HasBlock(set1, Group(j)) && Local(j) == 7
  {
  }

  ghost predicate SlotEnded(slotCount0: nat, layout0: seq<bool>, group0: nat, symbols0: nat, more: bool,
                            slotCount: nat, layout: seq<bool>, group: nat, symbols: nat)
  {
    var edge := slotCount == 0 && more;
    && slotCount == (slotCount0 + 1) % 16
    && layout == layout0 + Repeat(true, if edge then BOUNDARY else 0)
    && group == (if edge then group0 + 1 else group0) && symbols == (if edge then 0 else symbols0)
  }

  /** The end of a slot: at the end of a group that is not the last, pilots and a fresh count. */
  method EndSlot(slotCount0: nat, layout0: seq<bool>, group0: nat, symbols0: nat, more: bool)
    returns (slotCount: nat, layout: seq<bool>, group: nat, symbols: nat)
    ensures SlotEnded(slotCount0, layout0, group0, symbols0, more, slotCount, layout, group, symbols)
  {
    slotCount, layout, group, symbols := (slotCount0 + 1) % 16, layout0, group0, symbols0;
    if slotCount == 0 && more {
      group := group + 1;
      symbols := 0;
      layout := AppendRun(layout, true, BOUNDARY);
    } else {
      assert layout == layout0 + Repeat(true, 0);
    }
  }

  /** One pass of the slot loop. */
  method OneSlot(set1: bool, j0: nat, slots: nat, layout0: seq<bool>, slotCount0: nat, group0: nat, symbols0: nat)
    returns (j: nat, layout: seq<bool>, slotCount: nat, group: nat, symbols: nat)
    requires j0 < slots && Standing(set1, j0, slots, layout0, slotCount0, group0, symbols0)
    ensures j == if AtBlock(set1, j0) then j0 + 2 else j0 + 1
    ensures Standing(set1, j, slots, layout, slotCount, group, symbols)
  {
    j, slotCount, group := j0, slotCount0, group0;
    var fired;
    layout, symbols, fired := PutSlot(layout0, set1, group, symbols0);
    ghost var mid, n := layout, symbols;
    if fired {
      slotCount := (slotCount + 1) % 16;
      j := j + 1;
    }
    slotCount, layout, group, symbols := EndSlot(slotCount, layout, group, symbols, j < slots - 1);
    if fired {
      FiredDone(set1, j0, slots, layout0, slotCount0, group0, symbols0, mid, n, slotCount, layout, group, symbols);
    } else {
      PlainDone(set1, j0, slots, layout0, slotCount0, group0, symbols0, mid, n, slotCount, layout, group, symbols);
    }
    j := j + 1;
  }

  lemma PlainDone(set1: bool, j: nat, slots: nat, layout0: seq<bool>, slotCount0: nat, group0: nat, symbols0: nat,
                  mid: seq<bool>, n: nat, slotCount: nat, layout: seq<bool>, group: nat, symbols: nat)
    requires j < slots && Standing(set1, j, slots, layout0, slotCount0, group0, symbols0)
    requires SlotPut(layout0, set1, group0, symbols0, mid, n, false)
    requires SlotEnded(slotCount0, mid, group0, n, j < slots - 1, slotCount, layout, group, symbols)
    ensures !AtBlock(set1, j) && Standing(set1, j + 1, slots, layout, slotCount, group, symbols)
  {
    StandingHits(set1, j, slots, layout0, slotCount0, group0, symbols0);
    PlainStanding(set1, j, slots, layout0, slotCount0, group0, symbols0, mid, layout);
  }

  lemma FiredDone(set1: bool, j: nat, slots: nat, layout0: seq<bool>, slotCount0: nat, group0: nat, symbols0: nat,
                  mid: seq<bool>, n: nat, slotCount: nat, layout: seq<bool>, group: nat, symbols: nat)
    requires j < slots && Standing(set1, j, slots, layout0, slotCount0, group0, symbols0)
    requires SlotPut(layout0, set1, group0, symbols0, mid, n, true)
    requires SlotEnded((slotCount0 + 1) % 16, mid, group0, n, j + 1 < slots - 1, slotCount, layout, group, symbols)
    ensures AtBlock(set1, j) && Standing(set1, j + 2, slots, layout, slotCount, group, symbols)
  {
    StandingHits(set1, j, slots, layout0, slotCount0, group0, symbols0);
    FiredStanding(set1, j, slots, layout0, slotCount0, group0, symbols0, mid, n);
    assert layout == mid;
  }

  lemma StandingHits(set1: bool, j: nat, slots: nat, layout: seq<bool>, slotCount: nat, group: nat, symbols: nat)
    requires j < slots && Standing(set1, j, slots, layout, slotCount, group, symbols)
    ensures group == Group(j) && slotCount < 16 && (Hits(set1, group, symbols) <==> AtBlock(set1, j))
    ensures AtBlock(set1, j) ==> symbols == 7 * SLOT
  {
    HitsExactly(set1, j, symbols);
  }

  lemma ReachNext(set1: bool, slots: nat, j: nat)
    requires j < slots
    ensures var n := if AtBlock(set1, j) then j + 2 else j + 1; n < slots || n == Reach(set1, slots)
  {
    if AtBlock(set1, j) && j + 2 == slots {
      assert Local(j + 1) == 8;
    }
  }

  lemma PlainStanding(set1: bool, j: nat, slots: nat, layout0: seq<bool>, slotCount: nat, group: nat, symbols0: nat,
        mid: seq<bool>, layout: seq<bool>)
    requires j < slots && Standing(set1, j, slots, layout0, slotCount, group, symbols0)
    requires !AtBlock(set1, j)
    requires mid == layout0 + Repeat(false, SLOT)
    requires var edge := (slotCount + 1) % 16 == 0 && j < slots - 1;
      layout == mid + Repeat(true, if edge then BOUNDARY else 0)
    ensures var edge := (slotCount + 1) % 16 == 0 && j < slots - 1;
      Standing(set1, j + 1, slots, layout, (slotCount + 1) % 16, if edge then group + 1 else group,
               if edge then 0 else symbols0 + SLOT)
  {
    PlainSlot(set1, j);
    PlainMap(set1, slots, j);
  }

  lemma AfterBlock(set1: bool, i: nat, j: nat)
    requires j == i + 1
    ensures AtBlock(set1, i) ==> HasBlock(set1, Group(j)) && Local(j) == 8
  {
  }

  lemma PlainMap(set1: bool, slots: nat, j: nat)
    requires !AtBlock(set1, j) && Visited(set1, j)
    ensures MapTo(set1, slots, j + 1)
      == MapTo(set1, slots, j) + Repeat(false, SLOT)
        + Repeat(true, if (j + 11) % 16 == 0 && j + 1 < slots then BOUNDARY else 0)
  {
    if j >= 1 {
      AfterBlock(set1, j - 1, j);
    }
  }

  lemma BlockMap(set1: bool, slots: nat, j: nat)
    requires AtBlock(set1, j)
    ensures MapTo(set1, slots, j + 2)
      == MapTo(set1, slots, j) + WithBlock(Threshold(set1, Group(j)) - 7 * SLOT, BlockLength(set1, Group(j)))
  {
    var n := j + 2;
    assert n - 2 == j;
  }

  lemma FiredStanding(set1: bool, j: nat, slots: nat, layout0: seq<bool>, slotCount: nat, group: nat, symbols0: nat,
        layout: seq<bool>, symbols: nat)
    requires j < slots && Standing(set1, j, slots, layout0, slotCount, group, symbols0) && AtBlock(set1, j)
    requires symbols == symbols0 + 2 * SLOT - BlockLength(set1, group)
    requires layout == layout0 + WithBlock(Threshold(set1, group) - 7 * SLOT, BlockLength(set1, group))
    ensures ((slotCount + 1) % 16 + 1) % 16 == 9 && Standing(set1, j + 2, slots, layout, 9, group, symbols)
  {
    BlockSlot(set1, j);
    BlockMap(set1, slots, j);
  }

  /** Enough slots for every group that has a block. */
  predicate Covers(set1: bool, slots: nat) {
    slots >= if set1 then 342 else 166
  }

  lemma BlockInside(set1: bool, j: nat)
    requires AtBlock(set1, j)
    ensures j + 2 < if set1 then 342 else 166
  {
  }

  lemma {:induction false} BlocksAll(set1: bool, g: nat)
    requires g >= if set1 then 22 else 11
    ensures BlocksBefore(set1, g) == Extra(set1) && !HasBlock(set1, g)
    decreases g
  {
    if g == (if set1 then 22 else 11) {
      BlocksFirst(set1, if set1 then 19 else 10);
      if set1 {
        assert BlocksBefore(true, 20) == 18 * 34 + 36;
        assert BlocksBefore(true, 21) == 18 * 34 + 72;
      }
    } else {
      BlocksAll(set1, g - 1);
    }
  }

  lemma {:induction false} BlocksFirst(set1: bool, g: nat)
    requires 1 <= g <= if set1 then 19 else 10
    ensures BlocksBefore(set1, g) == (g - 1) * if set1 then 34 else 32
    decreases g
  {
    if g > 1 {
      BlocksFirst(set1, g - 1);
    }
  }

  // ---- counting ----

  lemma {:induction false} RankConcat(a: seq<bool>, b: seq<bool>, n: nat)
    requires n <= |b|
    ensures Rank(a + b, |a| + n) == Rank(a, |a|) + Rank(b, n)
    decreases n
  {
    if n == 0 {
      RankSame(a, b, |a|);
    } else {
      RankConcat(a, b, n - 1);
    }
  }

  lemma {:induction false} RankSame(a: seq<bool>, b: seq<bool>, n: nat)
    requires n <= |a|
    ensures Rank(a + b, n) == Rank(a, n)
    decreases n
  {
    if n > 0 {
      RankSame(a, b, n - 1);
    }
  }

  lemma UnmarkedConcat(a: seq<bool>, b: seq<bool>)
    ensures Unmarked(a + b) == Unmarked(a) + Unmarked(b)
  {
    RankConcat(a, b, |b|);
  }

  lemma {:induction false} RepeatCount(pilot: bool, n: nat)
    ensures Unmarked(Repeat(pilot, n)) == if pilot then 0 else n
  {
    if n > 0 {
      RepeatCount(pilot, n - 1);
      assert Repeat(pilot, n) == Repeat(pilot, n - 1) + [pilot];
      UnmarkedConcat(Repeat(pilot, n - 1), [pilot]);
      assert Rank([pilot], 1) == Rank([pilot], 0) + if pilot then 0 else 1;
    }
  }

  lemma BlockCount(at: nat, n: nat)
    requires at + n <= 2 * SLOT
    ensures Unmarked(WithBlock(at, n)) == 2 * SLOT - n && |WithBlock(at, n)| == 2 * SLOT
  {
    RepeatCount(false, at);
    RepeatCount(true, n);
    RepeatCount(false, 2 * SLOT - at - n);
    UnmarkedConcat(Repeat(false, at), Repeat(true, n));
    UnmarkedConcat(Repeat(false, at) + Repeat(true, n), Repeat(false, 2 * SLOT - at - n));
  }

  lemma PlainCount(a: seq<bool>, edge: nat)
    ensures Unmarked(a + Repeat(false, SLOT) + Repeat(true, edge)) == Unmarked(a) + SLOT
  {
    RepeatCount(false, SLOT);
    RepeatCount(true, edge);
    UnmarkedConcat(a, Repeat(false, SLOT));
    UnmarkedConcat(a + Repeat(false, SLOT), Repeat(true, edge));
  }

  /** What the first j slots hold, for every j the slot loop comes to. */
  ghost predicate Counts(set1: bool, j: nat, layout: seq<bool>) {
    && Unmarked(layout) == SLOT * j - BlocksBefore(set1, Group(j)) - BlockSoFar(set1, j)
    && |layout| <= SLOT * j + BOUNDARY * Group(j)
  }

  lemma PlainCounts(set1: bool, slots: nat, i: nat, j: nat)
    requires j == i + 1 && !AtBlock(set1, i) && Visited(set1, i)
    requires Counts(set1, i, MapTo(set1, slots, i))
    ensures Counts(set1, j, MapTo(set1, slots, j))
  {
    var edge := if (i + 11) % 16 == 0 && j < slots then BOUNDARY else 0;
    PlainMap(set1, slots, i);
    PlainSlot(set1, i);
    PlainCount(MapTo(set1, slots, i), edge);
  }

  lemma BlockCounts(set1: bool, slots: nat, i: nat, j: nat)
    requires j == i + 2 && AtBlock(set1, i) && Counts(set1, i, MapTo(set1, slots, i))
    ensures Counts(set1, j, MapTo(set1, slots, j))
  {
    var block := WithBlock(Threshold(set1, Group(i)) - 7 * SLOT, BlockLength(set1, Group(i)));
    BlockMap(set1, slots, i);
    BlockSlot(set1, i);
    BlockCount(Threshold(set1, Group(i)) - 7 * SLOT, BlockLength(set1, Group(i)));
    UnmarkedConcat(MapTo(set1, slots, i), block);
  }

  /** Whether the slot loop comes to j. */
  predicate Visited(set1: bool, j: nat) {
    HasBlock(set1, Group(j)) ==> Local(j) != 8
  }

  lemma {:induction false} MapCounts(set1: bool, slots: nat, j: nat)
    requires Visited(set1, j)
    ensures Counts(set1, j, MapTo(set1, slots, j))
    decreases j
  {
    if j == 0 {
      assert MapTo(set1, slots, 0) == [] && BlocksBefore(set1, 0) == 0;
    } else {
      var i, block := StepBack(set1, j);
      MapCounts(set1, slots, i);
      if block {
        BlockCounts(set1, slots, i, j);
      } else {
        PlainCounts(set1, slots, i, j);
      }
    }
  }

  lemma StepBack(set1: bool, j: nat) returns (i: nat, block: bool)
    requires j > 0 && Visited(set1, j)
    ensures Visited(set1, i) && AtBlock(set1, i) == block && j == if block then i + 2 else i + 1
  {
    i, block := j - 1, false;
    AfterBlock(set1, i, j);
    if !Visited(set1, i) {
      i, block := j - 2, true;
    }
  }

  /** For every frame size of whole slots that reaches past the last block, the map has exactly ndata
      payload positions, and it fits the buffer allocated for it. */
  lemma LayoutCounts(ndata: nat, set1: bool)
    requires (ndata + Extra(set1)) % SLOT == 0 && Covers(set1, (ndata + Extra(set1)) / SLOT)
    ensures var layout := Layout(set1, (ndata + Extra(set1)) / SLOT);
      Unmarked(layout) == ndata && |layout| <= ndata + (ndata / SLOT + 4) * 36 + 64
  {
    var slots := (ndata + Extra(set1)) / SLOT;
    if AtBlock(set1, slots - 1) {
      BlockInside(set1, slots - 1);
    }
    BlocksAll(set1, Group(slots));
    MapCounts(set1, slots, slots);
  }

  /** build_set: the map and how many of its entries are pilots. */
  method BuildSet(ndata: nat, set1: bool) returns (layout: seq<bool>, pilots: nat)
    ensures layout == Layout(set1, (ndata + Extra(set1)) / SLOT) && pilots == |layout| - Unmarked(layout)
  {
    var slots := (ndata + Extra(set1)) / SLOT;
    var j, slotCount, group, symbols := 0, 10, 0, 0;
    layout := [];
    while j < slots
      invariant Standing(set1, j, slots, layout, slotCount, group, symbols)
      invariant j < slots || j == Reach(set1, slots)
    {
      ReachNext(set1, slots, j);
      j, layout, slotCount, group, symbols := OneSlot(set1, j, slots, layout, slotCount, group, symbols);
    }
    pilots := |layout| - Unmarked(layout);
  }

  /** Clause 5.5.2 of EN 302 307-2: the blocks start in the eighth slot of groups 1 to 21 (1 to 10) and are
      34, at the end 36 (32, at the end 36) pilots in the middle of their two slots. */
  lemma PilotsCentred(set1: bool, j: nat, k: nat)
    requires k < 180
    ensures AtBlock(set1, j) <==> (j + 10) % 16 == 7 && 1 <= (j + 10) / 16 <= if set1 then 21 else 10
    ensures AtBlock(set1, j) ==>
      var g := (j + 10) / 16;
      var half := if set1 then (if g <= 18 then 17 else 18) else if g <= 9 then 16 else 18;
      var block := WithBlock(Threshold(set1, Group(j)) - 630, BlockLength(set1, Group(j)));
      block[k] == block[179 - k] && (block[k] <==> 90 - half <= k < 90 + half)
  {
  }

  /** Half the pilots of group g's block. */
  function Half(set1: bool, g: nat): nat {
    if set1 then (if 1 <= g <= 18 then 17 else if 19 <= g <= 21 then 18 else 0)
    else if 1 <= g <= 9 then 16 else if g == 10 then 18 else 0
  }

  /** Where the pilots are: none in the first 540 symbols; then every 1476 symbols 36 of them in front of
      sixteen slots, and a block about the middle of the eighth and ninth of these. */
  predicate PilotAt(set1: bool, p: nat) {
    p >= 540 &&
    var g, o := (p - 540) / 1476 + 1, (p - 540) % 1476;
    o < 36 || 756 - Half(set1, g) <= o < 756 + Half(set1, g)
  }

  function Start(j: nat): nat { 90 * j + 36 * Group(j) }

  lemma Place(j: nat, g: nat, l: nat, p: nat, k: nat)
    requires j + 10 == 16 * g + l && g >= 1 && l < 16 && p == 90 * j + 36 * g + k && 36 + 90 * l + k < 1476
    ensures p >= 540 && (p - 540) / 1476 + 1 == g && (p - 540) % 1476 == 36 + 90 * l + k
  {
    var q, o := g - 1, 36 + 90 * l + k;
    assert p - 540 == q * 1476 + o;
    DivModUnique(q, o, (p - 540) / 1476, (p - 540) % 1476, 1476);
  }

  lemma PlainPositions(set1: bool, j: nat, k: nat)
    requires !AtBlock(set1, j) && Visited(set1, j) && k < 90
    ensures !PilotAt(set1, Start(j) + k)
  {
    if j >= 6 {
      Place(j, (j + 10) / 16, (j + 10) % 16, Start(j) + k, k);
    }
  }

  lemma EdgePositions(set1: bool, j: nat, k: nat)
    requires (j + 11) % 16 == 0 && k < 36
    ensures PilotAt(set1, Start(j) + 90 + k)
  {
    var g := (j + 11) / 16;
    assert j + 11 == 16 * g && Group(j) == g - 1;
    assert Start(j) + 90 + k - 540 == (g - 1) * 1476 + k;
    var p := Start(j) + 90 + k;
    DivModUnique(g - 1, k, (p - 540) / 1476, (p - 540) % 1476, 1476);
  }

  lemma BlockPositions(set1: bool, j: nat, k: nat)
    requires AtBlock(set1, j) && k < 180
    ensures PilotAt(set1, Start(j) + k)
      == WithBlock(Threshold(set1, Group(j)) - 7 * SLOT, BlockLength(set1, Group(j)))[k]
  {
    PilotsCentred(set1, j, k);
    Place(j, (j + 10) / 16, 7, Start(j) + k, k);
  }

  predicate Spot(k: nat) { true }

  /** The layout has pilots exactly where `pilot` says. */
  ghost predicate Placed(pilot: nat -> bool, layout: seq<bool>) {
    forall p: nat {:trigger Spot(p)} :: Spot(p) && p < |layout| ==> layout[p] == pilot(p)
  }

  /** From position `at` on `pilot` agrees with the run. */
  ghost predicate Continues(pilot: nat -> bool, at: nat, run: seq<bool>) {
    forall k: nat {:trigger Spot(k)} :: Spot(k) && k < |run| ==> run[k] == pilot(at + k)
  }

  lemma Appended(pilot: nat -> bool, a: seq<bool>, run: seq<bool>)
    requires Placed(pilot, a) && Continues(pilot, |a|, run)
    ensures Placed(pilot, a + run)
  {
    forall p: nat {:trigger Spot(p)} | p < |a + run| ensures (a + run)[p] == pilot(p) {
      assert Spot(p);
      if p >= |a| {
        assert Spot(p - |a|);
        assert (a + run)[p] == run[p - |a|] == pilot(|a| + (p - |a|));
      }
    }
  }

  function Pilots(set1: bool): nat -> bool { (p: nat) => PilotAt(set1, p) }

  lemma SlotContinues(set1: bool, i: nat)
    requires !AtBlock(set1, i) && Visited(set1, i)
    ensures Continues(Pilots(set1), Start(i), Repeat(false, SLOT))
  {
    forall k: nat {:trigger Spot(k)} | k < SLOT ensures Repeat(false, SLOT)[k] == PilotAt(set1, Start(i) + k) {
      PlainPositions(set1, i, k);
    }
  }

  lemma EdgeContinues(set1: bool, i: nat)
    requires (i + 11) % 16 == 0
    ensures Continues(Pilots(set1), Start(i) + 90, Repeat(true, BOUNDARY))
  {
    forall k: nat {:trigger Spot(k)} | k < BOUNDARY
      ensures Repeat(true, BOUNDARY)[k] == PilotAt(set1, Start(i) + 90 + k)
    {
      EdgePositions(set1, i, k);
    }
  }

  function Block(set1: bool, i: nat): (block: seq<bool>)
    requires AtBlock(set1, i)
  {
    WithBlock(Threshold(set1, Group(i)) - 7 * SLOT, BlockLength(set1, Group(i)))
  }

  lemma BlockContinues(set1: bool, i: nat)
    requires AtBlock(set1, i)
    ensures Continues(Pilots(set1), Start(i), Block(set1, i))
  {
    var block := Block(set1, i);
    forall k: nat {:trigger Spot(k)} | k < |block| ensures block[k] == PilotAt(set1, Start(i) + k) {
      BlockPositions(set1, i, k);
    }
  }

  lemma StartNext(i: nat, j: nat)
    requires j == i + 1
    ensures Start(j) == Start(i) + 90 + if (i + 11) % 16 == 0 then 36 else 0
  {
  }

  lemma RunsContinue(pilot: nat -> bool, at: nat, slot: seq<bool>, edge: seq<bool>)
    requires Continues(pilot, at, slot) && Continues(pilot, at + |slot|, edge)
    ensures Continues(pilot, at, slot + edge)
  {
    forall k: nat {:trigger Spot(k)} | k < |slot + edge| ensures (slot + edge)[k] == pilot(at + k) {
      assert Spot(k);
      if k >= |slot| {
        assert Spot(k - |slot|);
        assert at + |slot| + (k - |slot|) == at + k;
      }
    }
  }

  /** What a plain slot adds. */
  lemma PlainRun(set1: bool, slots: nat, i: nat, j: nat) returns (run: seq<bool>)
    requires j == i + 1 && !AtBlock(set1, i) && Visited(set1, i)
    ensures MapTo(set1, slots, j) == MapTo(set1, slots, i) + run && Continues(Pilots(set1), Start(i), run)
    ensures j < slots ==> Start(j) == Start(i) + |run|
  {
    var edge := (i + 11) % 16 == 0 && j < slots;
    var a, slot, pilots := MapTo(set1, slots, i), Repeat(false, SLOT), Repeat(true, if edge then BOUNDARY else 0);
    run := slot + pilots;
    PlainMap(set1, slots, i);
    assert a + slot + pilots == a + run;
    StartNext(i, j);
    PlainContinues(set1, i, edge);
  }

  lemma PlainContinues(set1: bool, i: nat, edge: bool)
    requires !AtBlock(set1, i) && Visited(set1, i) && (edge ==> (i + 11) % 16 == 0)
    ensures Continues(Pilots(set1), Start(i), Repeat(false, SLOT) + Repeat(true, if edge then BOUNDARY else 0))
  {
    SlotContinues(set1, i);
    if edge {
      EdgeContinues(set1, i);
    }
    RunsContinue(Pilots(set1), Start(i), Repeat(false, SLOT), Repeat(true, if edge then BOUNDARY else 0));
  }

  /** What a block adds. */
  lemma BlockRun(set1: bool, slots: nat, i: nat, j: nat) returns (run: seq<bool>)
    requires j == i + 2 && AtBlock(set1, i)
    ensures MapTo(set1, slots, j) == MapTo(set1, slots, i) + run && Continues(Pilots(set1), Start(i), run)
    ensures Start(j) == Start(i) + |run|
  {
    BlockMap(set1, slots, i);
    BlockSlot(set1, i);
    BlockContinues(set1, i);
    run := Block(set1, i);
  }

  /** The last step to j. */
  lemma LastRun(set1: bool, slots: nat, j: nat) returns (i: nat, run: seq<bool>)
    requires j > 0 && Visited(set1, j)
    ensures i < j && Visited(set1, i) && (j == i + 1 || AtBlock(set1, i))
    ensures MapTo(set1, slots, j) == MapTo(set1, slots, i) + run && Continues(Pilots(set1), Start(i), run)
    ensures j < slots ==> Start(j) == Start(i) + |run|
  {
    var block;
    i, block := StepBack(set1, j);
    if block {
      run := BlockRun(set1, slots, i, j);
    } else {
      run := PlainRun(set1, slots, i, j);
    }
  }

  ghost predicate PlacedTo(set1: bool, slots: nat, j: nat) {
    |MapTo(set1, slots, j)| == Start(j) && Placed(Pilots(set1), MapTo(set1, slots, j))
  }

  /** As long as more slots follow. */
  lemma {:induction false} MapPlaced(set1: bool, slots: nat, j: nat)
    requires Visited(set1, j) && j < slots
    ensures PlacedTo(set1, slots, j)
    decreases j
  {
    if j == 0 {
      NonePlaced(set1, slots);
    } else {
      var i := LastExtended(set1, slots, j);
      MapPlaced(set1, slots, i);
    }
  }

  lemma NonePlaced(set1: bool, slots: nat)
    ensures PlacedTo(set1, slots, 0)
  {
  }

  lemma LastExtended(set1: bool, slots: nat, j: nat) returns (i: nat)
    requires 0 < j < slots && Visited(set1, j)
    ensures i < j && Visited(set1, i) && (PlacedTo(set1, slots, i) ==> PlacedTo(set1, slots, j))
  {
    var run;
    i, run := LastRun(set1, slots, j);
    if PlacedTo(set1, slots, i) {
      Extended(set1, slots, i, j, run);
    }
  }

  lemma Extended(set1: bool, slots: nat, i: nat, j: nat, run: seq<bool>)
    requires PlacedTo(set1, slots, i)
    requires MapTo(set1, slots, j) == MapTo(set1, slots, i) + run && Continues(Pilots(set1), Start(i), run)
    ensures Placed(Pilots(set1), MapTo(set1, slots, j))
    ensures Start(j) == Start(i) + |run| ==> PlacedTo(set1, slots, j)
  {
    Appended(Pilots(set1), MapTo(set1, slots, i), run);
  }

  lemma ReachBack(set1: bool, slots: nat, i: nat, j: nat)
    requires j == Reach(set1, slots) && i < j && (j == i + 1 || AtBlock(set1, i)) && Visited(set1, i)
    ensures i < slots
  {
    if i >= slots {
      AfterBlock(set1, slots - 1, i);
    }
  }

  lemma ReachVisited(set1: bool, slots: nat)
    ensures Visited(set1, Reach(set1, slots))
  {
    var j := Reach(set1, slots);
    if j > 0 {
      AfterBlock(set1, j - 1, j);
    }
  }

  lemma WholePlaced(set1: bool, slots: nat)
    ensures Placed(Pilots(set1), Layout(set1, slots))
  {
    var j := Reach(set1, slots);
    ReachVisited(set1, slots);
    if j > 0 {
      var i, run := LastRun(set1, slots, j);
      ReachBack(set1, slots, i, j);
      MapPlaced(set1, slots, i);
      Extended(set1, slots, i, j, run);
    }
  }

  /** The layout of clause 5.5.2 of EN 302 307-2, position by position. */
  lemma LayoutPositions(set1: bool, slots: nat, p: nat)
    requires p < |Layout(set1, slots)|
    ensures Layout(set1, slots)[p] == PilotAt(set1, p)
  {
    WholePlaced(set1, slots);
    assert Spot(p);
  }
}
