/** Where blocks are not conserved: exactly when, and with which input. */
module HeapLimits {
  import opened Bits
  import opened Wire
  import opened Descriptors
  import opened InStreams
  import opened HeapModel
  import opened HeapRelease
  import opened HeapShapes
  import opened HeapStops
  import opened HeapDecoder

  /** The blocks that the first entry of the array reaches. */
  function FirstEntryIds(fields: seq<Field>, path: seq<nat>, cells: seq<Cell>): multiset<nat>
    requires PathTo(fields, path) && Shaped(fields, cells)
  {
    var c := At(fields, path, cells);
    if c.entries == [] then multiset{} else CellIds(c.entries[0])
  }

  /** The defaults stop at any static submessage array when its first record is cut short: the count
      becomes 1, and the struct then reaches the blocks of entry 0 as it was. */
  lemma CutShortFromDefaults(fields: seq<Field>, path: seq<nat>, cells: seq<Cell>)
    requires HeapTable(fields) && PathTo(fields, path) && Shaped(fields, cells)
    requires |CutShortRecord(fields, path)| < TWO_32
    ensures var s, d := CutShortRecord(fields, path), DefaultCells(fields, cells);
            && OkCells(fields, d) && Shaped(fields, d) && Stops(fields, s, d)
            && At(fields, path, Raised(fields, s, d)) == NestedMany(1, At(fields, path, cells).entries)
            && FreedAfter(fields, s, d) == FirstEntryIds(fields, path, cells)
  {
    hide HeapTable, Shaped, OkCells, Ids, CellIds, Stops, Raised, Stale, Dropped, Spilled, DefaultCells,
         CutShortRecord, PathTo, At;
    var s, d := CutShortRecord(fields, path), DefaultCells(fields, cells);
    DefaultsShape(fields, cells);
    OkShaped(fields, d);
    AtDefaults(fields, path, cells);
    CutShortStops(fields, path, d);
    RaisedIds(fields, s, d);
    NoSum(FreedAfter(fields, s, d), FirstEntryIds(fields, path, cells));
  }

  lemma NoSum(a: multiset<nat>, b: multiset<nat>)
    requires a + multiset{} == multiset{} + b
    ensures a == b
  {
    assert a + multiset{} == a && multiset{} + b == b;
  }

  /** pb_decode on that input fails and frees the blocks of entry 0, of which it allocated none: the
      release keeps to the struct's own blocks if and only if entry 0 reached nothing. */
  method CutShort(h: Heap, fields: seq<Field>, path: seq<nat>, cells: seq<Cell>, ghost frame: multiset<nat>)
    returns (ok: bool, cells': seq<Cell>)
    requires HeapTable(fields) && PathTo(fields, path) && Shaped(fields, cells)
    requires |CutShortRecord(fields, path)| < TWO_32
    requires h.Has(frame, multiset{})
    modifies h
    ensures !ok && h.made == old(h.made)
    ensures h.freed == old(h.freed) + FirstEntryIds(fields, path, cells)
    ensures h.freed == old(h.freed) <==> FirstEntryIds(fields, path, cells) == multiset{}
  {
    hide HeapTable, Shaped, OkCells, Ids, Stops, Raised, DefaultCells, CutShortRecord, PathTo, FirstEntryIds,
         FreedAfter, Heap.Valid;
    var input := CutShortRecord(fields, path);
    CutShortFromDefaults(fields, path, cells);
    var s := new InStream(input, 0, |input|);
    assert s.Rest() == input;
    ok, cells' := DecodeMessage(h, s, fields, cells, frame);
    SameSum(old(h.freed), FirstEntryIds(fields, path, cells));
  }

  lemma SameSum(a: multiset<nat>, b: multiset<nat>)
    ensures a + b == a <==> b == multiset{}
  {
    if a + b == a {
      assert b + a == multiset{} + a;
      Cancel(b, multiset{}, a);
    }
  }

  /** The raised count of an array that is full takes in no entry, and drops all of them if it wraps. */
  lemma FullStops(fields: seq<Field>, path: seq<nat>, cells: seq<Cell>)
    requires HeapTable(fields) && PathTo(fields, path) && OkCells(fields, cells) && Shaped(fields, cells)
    requires |CutShortRecord(fields, path)| < TWO_32
    requires At(fields, path, cells).size >= |At(fields, path, cells).entries|
    ensures var s, c := CutShortRecord(fields, path), At(fields, path, cells);
            && Stops(fields, s, cells) && Spilled(fields, s, cells) == multiset{}
            && (Ids(Raised(fields, s, cells)) == Ids(cells) <==> c.size != PB_SIZE_MAX || Ids(c.entries) == multiset{})
            && (c.size == PB_SIZE_MAX ==> Ids(Raised(fields, s, cells)) + Ids(c.entries) == Ids(cells))
  {
    hide HeapTable, Shaped, OkCells, Ids, CellIds, Stops, Raised, Stale, Dropped, Spilled, CutShortRecord, PathTo,
         At;
    var s := CutShortRecord(fields, path);
    CutShortStops(fields, path, cells);
    RaisedIds(fields, s, cells);
    RaisedExactly(fields, s, cells);
    assert Ids(Raised(fields, s, cells)) + multiset{} == Ids(Raised(fields, s, cells));
    assert Ids(cells) + multiset{} == Ids(cells);
  }

  /** One record too many for a full array, and the release of the struct: all its blocks are freed if
      and only if the count did not wrap around, or the entries reached nothing. */
  method OneTooMany(h: Heap, fields: seq<Field>, path: seq<nat>, cells: seq<Cell>, ghost frame: multiset<nat>)
    returns (ok: bool, cells': seq<Cell>)
    requires HeapTable(fields) && PathTo(fields, path) && OkCells(fields, cells) && Shaped(fields, cells)
    requires |CutShortRecord(fields, path)| < TWO_32
    requires At(fields, path, cells).size >= |At(fields, path, cells).entries|
    requires h.Has(frame, Ids(cells))
    modifies h
    ensures !ok && h.made == old(h.made)
    ensures var c := At(fields, path, cells);
            && (h.freed == old(h.freed) + Ids(cells) <==> c.size != PB_SIZE_MAX || Ids(c.entries) == multiset{})
            && (c.size == PB_SIZE_MAX ==> h.freed + Ids(c.entries) == old(h.freed) + Ids(cells))
  {
    hide HeapTable, Shaped, OkCells, Ids, Stops, Raised, Spilled, CutShortRecord, PathTo, At, Heap.Valid;
    var input := CutShortRecord(fields, path);
    FullStops(fields, path, cells);
    var s := new InStream(input, 0, |input|);
    assert s.Rest() == input;
    ghost var before := h.freed;
    ok, cells' := DecodeNoinit(h, s, fields, cells, frame);
    ghost var raised, entries := Ids(cells'), Ids(At(fields, path, cells).entries);
    assert before + multiset{} == before;
    cells' := ReleaseMessage(h, fields, cells', frame);
    SumsDiffer(before, raised, Ids(cells));
    if At(fields, path, cells).size == PB_SIZE_MAX { SumMoves(before, raised, entries); }
  }

  lemma SumsDiffer(a: multiset<nat>, b: multiset<nat>, c: multiset<nat>)
    ensures a + b == a + c <==> b == c
  {
    if a + b == a + c {
      assert b + a == a + b && c + a == a + c;
      Cancel(b, c, a);
    }
  }

  lemma SumMoves(a: multiset<nat>, b: multiset<nat>, c: multiset<nat>)
    ensures (a + b) + c == a + (b + c)
  {
  }

  // ---------------------------------------------------------------- examples

  /** A submessage that holds one allocated string, in an array of n. */
  const HOLDER: seq<Field> := [Field(1, String, HType.Optional, Pointer, 0, 0, 1, 0, Int(0), [])]

  function Holders(n: nat): Field { Field(1, Submessage, HType.Repeated, Static, 0, -4, 1, n, Int(0), HOLDER) }

  function Holding(id: nat): Cell { Nested([Ptr(Live(id, [Plain]))]) }

  lemma HoldingOk(id: nat, n: nat)
    requires n <= PB_SIZE_MAX
    ensures HeapTable(HOLDER) && HeapTable([Holders(n)])
    ensures OkItem(Holders(n), Holding(id)) && CellIds(Holding(id)) == multiset{id}
  {
    var pointer := Ptr(Live(id, [Plain]));
    IdsOne(Plain);
    IdsOne(pointer);
    assert HeapField(HOLDER[0]);
    assert OkCell(HOLDER, 0, pointer);
    assert HeapField(Holders(n));
  }

  /** A stale pointer in an array of one, and the bytes 10 and 5: its block is freed. */
  method StalePointer(h: Heap, id: nat, ghost frame: multiset<nat>) returns (ok: bool, cells': seq<Cell>)
    requires h.Has(frame, multiset{})
    modifies h
    ensures CutShortRecord([Holders(1)], [0]) == [10, 5]
    ensures !ok && h.made == old(h.made) && h.freed == old(h.freed) + multiset{id}
  {
    hide HeapTable, OkItem, Holding, CellIds, OkItems, Heap.Valid;
    HoldingOk(id, 1);
    var cells := [NestedMany(0, [Holding(id)])];
    OneItem(Holders(1), Holding(id));
    assert ShapedCell(Holders(1), cells[0]);
    TenFive();
    ok, cells' := CutShort(h, [Holders(1)], [0], cells, frame);
  }

  lemma TenFive()
    ensures PathTo([Holders(1)], [0]) && CutShortRecord([Holders(1)], [0]) == [10, 5]
  {
    assert EncVarint(10) == [10];
  }

  /** A full array of PB_SIZE_MAX entries that each hold a string, and one record more: nothing is freed. */
  method WrappedCount(h: Heap, id: nat, ghost frame: multiset<nat>, cells: seq<Cell>)
    returns (ok: bool, cells': seq<Cell>)
    requires cells == [NestedMany(PB_SIZE_MAX, seq(PB_SIZE_MAX, (k: nat) => Holding(id + k)))]
    requires h.Has(frame, Ids(cells))
    modifies h
    ensures !ok && h.freed == old(h.freed) && id in Ids(cells)
  {
    hide HeapTable, OkItem, Holding, CellIds, OkCell, Ids, Heap.Valid;
    var n: nat := PB_SIZE_MAX;
    var f, entries := Holders(n), seq(PB_SIZE_MAX, (k: nat) => Holding(id + k));
    WrappedShape(f, n, id, entries, cells);
    ok, cells' := OneTooMany(h, [f], [0], cells, frame);
    ghost var all := Ids(cells);
    NothingFreed(h.freed, old(h.freed), all);
  }

  lemma NothingFreed(a: multiset<nat>, b: multiset<nat>, all: multiset<nat>)
    requires a + all == b + all
    ensures a == b
  {
    Cancel(a, b, all);
  }

  lemma WrappedShape(f: Field, n: nat, id: nat, entries: seq<Cell>, cells: seq<Cell>)
    requires n == PB_SIZE_MAX && f == Holders(n) && |entries| == n
    requires forall k | 0 <= k < n :: entries[k] == Holding(id + k)
    requires cells == [NestedMany(n, entries)]
    ensures HeapTable([f]) && PathTo([f], [0]) && OkCells([f], cells) && Shaped([f], cells)
    ensures |CutShortRecord([f], [0])| < TWO_32 && At([f], [0], cells) == cells[0]
    ensures Ids(cells) == Ids(entries) && id in Ids(cells)
  {
    hide HeapTable, OkItem, Holding, CellIds, Ids;
    HoldingOk(id, n);
    forall k | 0 <= k < n ensures OkItem(f, entries[k]) { HoldingOk(id + k, n); }
    assert OkItems(f, entries);
    assert OkCell([f], 0, cells[0]);
    OkShaped([f], cells);
    assert |EncVarint(10)| == 1;
    IdsOne(cells[0]);
    VisibleIds(n, entries);
    assert entries[..n] == entries;
    IdsHead(entries, 0);
    IdsEnds(entries);
  }
}
