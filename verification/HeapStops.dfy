/** Inputs that stop the decoder at the count of a static submessage array: the count is raised, the
    entry is not decoded. */
module HeapStops {
  import opened Bits
  import opened Wire
  import opened Descriptors
  import opened HeapModel
  import opened HeapRelease
  import opened HeapShapes

  /** The count after one more record, in a pb_size_t. */
  function RaisedCount(size: nat): (r: nat)
    ensures r <= PB_SIZE_MAX
    ensures size < PB_SIZE_MAX ==> r == size + 1
    ensures size == PB_SIZE_MAX ==> r == 0
  {
    (size + 1) % (PB_SIZE_MAX + 1)
  }

  /** A message without records is accepted: nothing is required, and no fixed-count array can be begun. */
  predicate NeverRejects(fields: seq<Field>) {
    forall i | 0 <= i < |fields| :: !fields[i].htype.Required? && !fields[i].FixedCount()
  }

  /** The next entry of an array, set to its defaults. */
  function NextEntry(f: Field, c: Cell): (r: seq<Cell>)
    requires HeapField(f) && Inline(f) && f.htype.Repeated? && ShapedCell(f, c) && c.size < f.arraySize
    ensures HeapTable(f.sub) && OkCells(f.sub, r) && NoIds(r) && Shaped(f.sub, r)
  {
    var e := c.entries[c.size];
    assert OkItem(f, e);
    OkShaped(f.sub, e.cells);
    DefaultsShape(f.sub, e.cells);
    OkShaped(f.sub, DefaultCells(f.sub, e.cells));
    DefaultCells(f.sub, e.cells)
  }

  /** The array with its next entry decoded. */
  function OneMore(f: Field, c: Cell, entry: seq<Cell>): (r: Cell)
    requires HeapField(f) && Inline(f) && f.htype.Repeated? && ShapedCell(f, c) && c.size < f.arraySize
    requires OkCells(f.sub, entry)
    ensures ShapedCell(f, r) && r.NestedMany? && r.size <= PB_SIZE_MAX
  {
    assert OkItem(f, Nested(entry));
    var entries := c.entries[c.size := Nested(entry)];
    assert OkItems(f, entries);
    NestedMany(RaisedCount(c.size), entries)
  }

  /** An empty record of an array is decoded: its entry is set to defaults. */
  predicate PassesCell(f: Field, s: seq<byte>, c: Cell)
    requires HeapField(f) && Inline(f) && ShapedCell(f, c)
  {
    && f.htype.Repeated? && c.size < f.arraySize && NeverRejects(f.sub)
    && ReadDelimited(s).Done? && ReadDelimited(s).val == []
  }

  function PassedCells(fields: seq<Field>, i: nat, s: seq<byte>, cells: seq<Cell>): (r: seq<Cell>)
    requires HeapTable(fields) && Shaped(fields, cells) && i < |fields| && HeapField(fields[i]) && Inline(fields[i])
    requires ShapedCell(fields[i], cells[i]) && PassesCell(fields[i], s, cells[i])
    ensures Shaped(fields, r)
  {
    cells[i := OneMore(fields[i], cells[i], NextEntry(fields[i], cells[i]))]
  }

  /** One record of a static submessage stops: the array is full, the record is cut short, or the nested
      message stops. */
  predicate StopsCell(f: Field, s: seq<byte>, c: Cell)
    requires HeapField(f) && Inline(f) && ShapedCell(f, c)
    decreases |s|, 0
  {
    if f.htype.Repeated? then
      c.size >= f.arraySize || ReadDelimited(s).Fail? || Stops(f.sub, ReadDelimited(s).val, NextEntry(f, c))
    else ReadDelimited(s).Done? && Stops(f.sub, ReadDelimited(s).val, c.cells)
  }

  /** The message stops at one of its records, behind empty records of arrays only. */
  predicate Stops(fields: seq<Field>, s: seq<byte>, cells: seq<Cell>)
    requires HeapTable(fields) && Shaped(fields, cells)
    decreases |s|, 1
  {
    && Varint32(s).Done? && Varint32(s).val != 0
    && var i, rest := Lookup(fields, Varint32(s).val / 8), Varint32(s).rest;
    && i < |fields| && Inline(fields[i])
    && (StopsCell(fields[i], rest, cells[i])
        || (PassesCell(fields[i], rest, cells[i])
            && Stops(fields, ReadDelimited(rest).rest, PassedCells(fields, i, rest, cells))))
  }

  /** What the cell of that record looks like then. An entry whose own decoding stopped has been released. */
  function RaisedCell(f: Field, s: seq<byte>, c: Cell): (r: Cell)
    requires HeapField(f) && Inline(f) && ShapedCell(f, c) && StopsCell(f, s, c)
    requires !f.htype.Repeated? ==> OkCells(f.sub, c.cells)
    ensures ShapedCell(f, r)
    ensures !f.htype.Repeated? ==> r.Nested? && OkCells(f.sub, r.cells)
    decreases |s|, 0
  {
    if !f.htype.Repeated? then Nested(Raised(f.sub, ReadDelimited(s).val, c.cells))
    else if c.size >= f.arraySize || ReadDelimited(s).Fail? then NestedMany(RaisedCount(c.size), c.entries)
    else
      var r := Raised(f.sub, ReadDelimited(s).val, NextEntry(f, c));
      ReleasedClean(f.sub, r);
      OneMore(f, c, ReleasedCells(f.sub, r))
  }

  /** What the struct looks like then. */
  function Raised(fields: seq<Field>, s: seq<byte>, cells: seq<Cell>): (r: seq<Cell>)
    requires HeapTable(fields) && OkCells(fields, cells) && Shaped(fields, cells) && Stops(fields, s, cells)
    ensures OkCells(fields, r) && Shaped(fields, r)
    decreases |s|, 1
  {
    var i, rest := Lookup(fields, Varint32(s).val / 8), Varint32(s).rest;
    InlineCell(fields, i, cells);
    if StopsCell(fields[i], rest, cells[i]) then
      var c := RaisedCell(fields[i], rest, cells[i]);
      CellPut(fields, i, cells, c);
      cells[i := c]
    else
      CellPut(fields, i, cells, OneMore(fields[i], cells[i], NextEntry(fields[i], cells[i])));
      Raised(fields, ReadDelimited(rest).rest, PassedCells(fields, i, rest, cells))
  }

  lemma InlineCell(fields: seq<Field>, i: nat, cells: seq<Cell>)
    requires HeapTable(fields) && OkCells(fields, cells) && Shaped(fields, cells) && i < |fields| && Inline(fields[i])
    ensures |cells| == |fields| && HeapField(fields[i])
    ensures ShapedCell(fields[i], cells[i]) && OkCell(fields, i, cells[i])
    ensures !fields[i].htype.Repeated? ==> cells[i].Nested? && OkCells(fields[i].sub, cells[i].cells)
    ensures fields[i].htype.Repeated? ==>
              && cells[i].NestedMany? && cells[i].size <= PB_SIZE_MAX
              && |cells[i].entries| == fields[i].arraySize <= PB_SIZE_MAX
  {
    assert OkCell(fields, i, cells[i]);
    if !fields[i].htype.Repeated? { assert OkItem(fields[i], cells[i]); }
  }

  /** A well-formed cell of an inline row may be put back. */
  lemma CellPut(fields: seq<Field>, i: nat, cells: seq<Cell>, c: Cell)
    requires HeapTable(fields) && OkCells(fields, cells) && i < |fields| && HeapField(fields[i]) && Inline(fields[i])
    requires ShapedCell(fields[i], c)
    requires if fields[i].htype.Repeated? then c.size <= PB_SIZE_MAX else c.Nested? && OkCells(fields[i].sub, c.cells)
    ensures OkCells(fields, cells[i := c]) && Shaped(fields, cells[i := c])
  {
    hide OkItems;
    assert OkItem(fields[i], c) || fields[i].htype.Repeated?;
    assert OkCell(fields, i, c);
    var r := cells[i := c];
    forall k | 0 <= k < |fields| ensures OkCell(fields, k, r[k]) {
      assert OkCell(fields, k, cells[k]);
    }
    OkShaped(fields, r);
  }

  // ------------------------------------------------------ what becomes reachable

  /** The blocks of the entry that the raised count takes in without its being decoded. */
  function StaleCell(f: Field, s: seq<byte>, c: Cell): multiset<nat>
    requires HeapField(f) && Inline(f) && ShapedCell(f, c) && StopsCell(f, s, c)
    decreases |s|, 0
  {
    if !f.htype.Repeated? then Stale(f.sub, ReadDelimited(s).val, c.cells)
    else if c.size >= f.arraySize then multiset{}
    else if ReadDelimited(s).Fail? then CellIds(c.entries[c.size])
    else Stale(f.sub, ReadDelimited(s).val, NextEntry(f, c))
  }

  function Stale(fields: seq<Field>, s: seq<byte>, cells: seq<Cell>): multiset<nat>
    requires HeapTable(fields) && Shaped(fields, cells) && Stops(fields, s, cells)
    decreases |s|, 1
  {
    var i, rest := Lookup(fields, Varint32(s).val / 8), Varint32(s).rest;
    if StopsCell(fields[i], rest, cells[i]) then StaleCell(fields[i], rest, cells[i])
    else Stale(fields, ReadDelimited(rest).rest, PassedCells(fields, i, rest, cells))
  }

  /** The blocks of all entries, if the count wraps around to zero. */
  function DroppedCell(f: Field, s: seq<byte>, c: Cell): multiset<nat>
    requires HeapField(f) && Inline(f) && ShapedCell(f, c) && StopsCell(f, s, c)
    decreases |s|, 0
  {
    if !f.htype.Repeated? then Dropped(f.sub, ReadDelimited(s).val, c.cells)
    else if c.size >= f.arraySize then (if c.size == PB_SIZE_MAX then Ids(c.entries) else multiset{})
    else if ReadDelimited(s).Fail? then multiset{}
    else Dropped(f.sub, ReadDelimited(s).val, NextEntry(f, c))
  }

  function Dropped(fields: seq<Field>, s: seq<byte>, cells: seq<Cell>): multiset<nat>
    requires HeapTable(fields) && Shaped(fields, cells) && Stops(fields, s, cells)
    decreases |s|, 1
  {
    var i, rest := Lookup(fields, Varint32(s).val / 8), Varint32(s).rest;
    if StopsCell(fields[i], rest, cells[i]) then DroppedCell(fields[i], rest, cells[i])
    else Dropped(fields, ReadDelimited(rest).rest, PassedCells(fields, i, rest, cells))
  }

  /** The blocks that are freed on the way, when an entry whose own decoding stopped is released. */
  function SpilledCell(f: Field, s: seq<byte>, c: Cell): multiset<nat>
    requires HeapField(f) && Inline(f) && ShapedCell(f, c) && StopsCell(f, s, c)
    requires !f.htype.Repeated? ==> OkCells(f.sub, c.cells)
    decreases |s|, 0
  {
    if !f.htype.Repeated? then Spilled(f.sub, ReadDelimited(s).val, c.cells)
    else if c.size >= f.arraySize || ReadDelimited(s).Fail? then multiset{}
    else
      var e, body := NextEntry(f, c), ReadDelimited(s).val;
      Spilled(f.sub, body, e) + Ids(Raised(f.sub, body, e))
  }

  function Spilled(fields: seq<Field>, s: seq<byte>, cells: seq<Cell>): multiset<nat>
    requires HeapTable(fields) && OkCells(fields, cells) && Shaped(fields, cells) && Stops(fields, s, cells)
    decreases |s|, 1
  {
    var i, rest := Lookup(fields, Varint32(s).val / 8), Varint32(s).rest;
    InlineCell(fields, i, cells);
    if StopsCell(fields[i], rest, cells[i]) then SpilledCell(fields[i], rest, cells[i])
    else
      CellPut(fields, i, cells, OneMore(fields[i], cells[i], NextEntry(fields[i], cells[i])));
      Spilled(fields, ReadDelimited(rest).rest, PassedCells(fields, i, rest, cells))
  }

  lemma OneMoreEntry(entries: seq<Cell>, size: nat)
    requires size < |entries|
    ensures Ids(entries[..size + 1]) == Ids(entries[..size]) + CellIds(entries[size])
  {
    assert entries[..size + 1] == entries[..size] + [entries[size]];
    IdsConcat(entries[..size], [entries[size]]);
    IdsOne(entries[size]);
  }

  lemma RaisedArrayIds(size: nat, entries: seq<Cell>)
    requires size <= PB_SIZE_MAX && |entries| <= PB_SIZE_MAX
    ensures CellIds(NestedMany(RaisedCount(size), entries))
            + (if size == PB_SIZE_MAX then Ids(entries) else multiset{})
            == CellIds(NestedMany(size, entries))
            + (if size < |entries| then CellIds(entries[size]) else multiset{})
  {
    hide Ids, CellIds, RaisedCount;
    VisibleIds(size, entries);
    VisibleIds(RaisedCount(size), entries);
    assert entries[..|entries|] == entries;
    if size < |entries| {
      OneMoreEntry(entries, size);
    } else if size == PB_SIZE_MAX {
      assert entries[..0] == [];
      IdsEnds(entries);
      assert Ids([]) == multiset{} by { IdsEnds([]); }
    }
  }

  /** Another entry that reaches nothing leaves the reach of the array as it was. */
  lemma OneMoreIds(f: Field, c: Cell, entry: seq<Cell>)
    requires HeapField(f) && Inline(f) && f.htype.Repeated? && ShapedCell(f, c) && c.size < f.arraySize
    requires OkCells(f.sub, entry) && NoIds(entry) && c.size <= PB_SIZE_MAX && |c.entries| <= PB_SIZE_MAX
    ensures CellIds(OneMore(f, c, entry)) == CellIds(c)
  {
    hide OkItems, RaisedCount;
    var r := c.entries[c.size := Nested(entry)];
    VisibleIds(c.size, c.entries);
    VisibleIds(RaisedCount(c.size), r);
    assert r[..c.size] == c.entries[..c.size];
    OneMoreEntry(r, c.size);
  }

  lemma {:induction false} RaisedCellIds(fields: seq<Field>, i: nat, s: seq<byte>, c: Cell)
    requires HeapTable(fields) && i < |fields| && HeapField(fields[i]) && Inline(fields[i]) && OkCell(fields, i, c)
    requires ShapedCell(fields[i], c) && StopsCell(fields[i], s, c)
    requires !fields[i].htype.Repeated? ==> OkCells(fields[i].sub, c.cells)
    ensures var f := fields[i];
            CellIds(RaisedCell(f, s, c)) + SpilledCell(f, s, c) + DroppedCell(f, s, c)
            == CellIds(c) + StaleCell(f, s, c)
    decreases |s|, 0
  {
    hide OkCells, Shaped, Stops, Raised, Stale, Dropped, Spilled, Ids, ReadDelimited, HeapTable, ReleasedCells,
         NextEntry, OkItems, OneMore;
    var f := fields[i];
    if !f.htype.Repeated? {
      RaisedIds(f.sub, ReadDelimited(s).val, c.cells);
    } else if c.size >= f.arraySize || ReadDelimited(s).Fail? {
      RaisedArrayIds(c.size, c.entries);
    } else {
      var e, body := NextEntry(f, c), ReadDelimited(s).val;
      var r := Raised(f.sub, body, e);
      RaisedIds(f.sub, body, e);
      ReleasedClean(f.sub, r);
      OneMoreIds(f, c, ReleasedCells(f.sub, r));
      Turned(CellIds(c), Ids(r), Spilled(f.sub, body, e), Dropped(f.sub, body, e), Stale(f.sub, body, e));
    }
  }

  lemma Turned(a: multiset<nat>, r: multiset<nat>, p: multiset<nat>, d: multiset<nat>, s: multiset<nat>)
    requires r + p + d == multiset{} + s
    ensures a + (p + r) + d == a + s
  {
    forall x: nat ensures (a + (p + r) + d)[x] == (a + s)[x] {
      assert (r + p + d)[x] == (multiset{} + s)[x];
    }
  }

  /** What the raised struct reaches and what was freed on the way is what the struct reached before, with
      the stale blocks and without the dropped ones. */
  lemma {:induction false} RaisedIds(fields: seq<Field>, s: seq<byte>, cells: seq<Cell>)
    requires HeapTable(fields) && OkCells(fields, cells) && Shaped(fields, cells) && Stops(fields, s, cells)
    ensures Ids(Raised(fields, s, cells)) + Spilled(fields, s, cells) + Dropped(fields, s, cells)
            == Ids(cells) + Stale(fields, s, cells)
    decreases |s|, 1
  {
    hide OkCell, OkCells, CellIds, ShapedCell, StopsCell, RaisedCell, StaleCell, DroppedCell, SpilledCell, HeapField,
         Varint32, Ids, Inline, ReadDelimited, OneMore, NextEntry, PassesCell, HeapTable;
    var i, rest := Lookup(fields, Varint32(s).val / 8), Varint32(s).rest;
    InlineCell(fields, i, cells);
    var f := fields[i];
    if StopsCell(f, rest, cells[i]) {
      var c := RaisedCell(f, rest, cells[i]);
      RaisedCellIds(fields, i, rest, cells[i]);
      OthersSplit(cells, i, c);
      Exchanged(Others(cells, i), CellIds(c), SpilledCell(f, rest, cells[i]), DroppedCell(f, rest, cells[i]),
                CellIds(cells[i]), StaleCell(f, rest, cells[i]));
    } else {
      PassesHere(f, rest, cells[i]);
      var c := OneMore(f, cells[i], NextEntry(f, cells[i]));
      CellPut(fields, i, cells, c);
      OneMoreIds(f, cells[i], NextEntry(f, cells[i]));
      OthersSplit(cells, i, c);
      RaisedIds(fields, ReadDelimited(rest).rest, PassedCells(fields, i, rest, cells));
    }
  }

  lemma PassesHere(f: Field, s: seq<byte>, c: Cell)
    requires HeapField(f) && Inline(f) && ShapedCell(f, c) && PassesCell(f, s, c)
    ensures f.htype.Repeated? && c.size < f.arraySize && c.NestedMany? && |c.entries| == f.arraySize
    ensures ReadDelimited(s).Done?
  {
  }

  lemma Exchanged(others: multiset<nat>, a: multiset<nat>, p: multiset<nat>, b: multiset<nat>, c: multiset<nat>,
                  d: multiset<nat>)
    requires a + p + b == c + d
    ensures (others + a) + p + b == (others + c) + d
  {
    forall x: nat ensures ((others + a) + p + b)[x] == ((others + c) + d)[x] {
      assert (a + p + b)[x] == (c + d)[x];
    }
  }

  /** Either nothing stale is taken in, or nothing is dropped. */
  lemma {:induction false} OneOrTheOther(fields: seq<Field>, s: seq<byte>, cells: seq<Cell>)
    requires HeapTable(fields) && Shaped(fields, cells) && Stops(fields, s, cells)
    ensures Stale(fields, s, cells) == multiset{} || Dropped(fields, s, cells) == multiset{}
    decreases |s|
  {
    hide CellIds, Ids, Varint32, ReadDelimited, NextEntry, OneMore, PassedCells, HeapTable, Shaped;
    var i, rest := Lookup(fields, Varint32(s).val / 8), Varint32(s).rest;
    var f := fields[i];
    RowOk(fields, i, cells);
    if StopsCell(f, rest, cells[i]) {
      if !f.htype.Repeated? {
        OneOrTheOther(f.sub, ReadDelimited(rest).val, cells[i].cells);
      } else if cells[i].size < f.arraySize && ReadDelimited(rest).Done? {
        OneOrTheOther(f.sub, ReadDelimited(rest).val, NextEntry(f, cells[i]));
      }
    } else {
      OneOrTheOther(fields, ReadDelimited(rest).rest, PassedCells(fields, i, rest, cells));
    }
  }

  lemma RowOk(fields: seq<Field>, i: nat, cells: seq<Cell>)
    requires HeapTable(fields) && Shaped(fields, cells) && i < |fields|
    ensures |cells| == |fields| && HeapField(fields[i]) && ShapedCell(fields[i], cells[i])
    ensures fields[i].ltype.Submessage? ==> HeapTable(fields[i].sub)
  {
  }

  /** What will have been freed when the raised struct is released too. */
  function FreedAfter(fields: seq<Field>, s: seq<byte>, cells: seq<Cell>): multiset<nat>
    requires HeapTable(fields) && OkCells(fields, cells) && Shaped(fields, cells) && Stops(fields, s, cells)
  {
    Ids(Raised(fields, s, cells)) + Spilled(fields, s, cells)
  }

  /** That is exactly what the struct reached before if and only if the entry taken in reaches nothing, and
      no count wraps around over entries that do. */
  lemma RaisedExactly(fields: seq<Field>, s: seq<byte>, cells: seq<Cell>)
    requires HeapTable(fields) && OkCells(fields, cells) && Shaped(fields, cells) && Stops(fields, s, cells)
    ensures FreedAfter(fields, s, cells) == Ids(cells)
            <==> Stale(fields, s, cells) == multiset{} == Dropped(fields, s, cells)
  {
    hide Ids, OkCells, Shaped, Stops, Raised, Stale, Dropped, Spilled, HeapTable;
    RaisedIds(fields, s, cells);
    OneOrTheOther(fields, s, cells);
    Balance(FreedAfter(fields, s, cells), Dropped(fields, s, cells), Ids(cells), Stale(fields, s, cells));
  }

  lemma Balance(a: multiset<nat>, b: multiset<nat>, c: multiset<nat>, d: multiset<nat>)
    requires a + b == c + d && (b == multiset{} || d == multiset{})
    ensures a == c <==> b == multiset{} == d
  {
    forall x: nat ensures a[x] + b[x] == c[x] + d[x] {
      assert (a + b)[x] == (c + d)[x];
    }
    if a == c {
      forall x: nat ensures b[x] == d[x] {
      }
      assert b == d;
    }
  }

  // --------------------------------------------------------- where and how

  /** Rows from the top to a static submessage array, through static submessages. */
  predicate PathTo(fields: seq<Field>, path: seq<nat>)
    decreases |path|
  {
    && path != [] && path[0] < |fields|
    && var f := fields[path[0]];
    && Inline(f)
    && (if |path| == 1 then f.htype.Repeated? else !f.htype.Repeated? && PathTo(f.sub, path[1..]))
  }

  /** The array at the end of the path. */
  function At(fields: seq<Field>, path: seq<nat>, cells: seq<Cell>): (c: Cell)
    requires PathTo(fields, path) && Shaped(fields, cells)
    ensures c.NestedMany?
    decreases |path|
  {
    var f, c := fields[path[0]], cells[path[0]];
    assert ShapedCell(f, c);
    if |path| == 1 then c else At(f.sub, path[1..], c.cells)
  }

  /** A record of that array, with a length of 5 and nothing behind it. */
  function CutShortRecord(fields: seq<Field>, path: seq<nat>): (s: seq<byte>)
    requires PathTo(fields, path)
    decreases |path|
  {
    var f := fields[path[0]];
    EncVarint(f.tag * 8 + WT_STRING) + if |path| == 1 then [5] else Delimited(CutShortRecord(f.sub, path[1..]))
  }

  /** A key of row i. */
  function KeyOf(fields: seq<Field>, i: nat): seq<byte>
    requires i < |fields|
  {
    EncVarint(fields[i].tag * 8 + WT_STRING)
  }

  /** A message whose first record stops. */
  lemma StopsHere(fields: seq<Field>, i: nat, t: seq<byte>, cells: seq<Cell>)
    requires HeapTable(fields) && OkCells(fields, cells) && Shaped(fields, cells) && i < |fields| && Inline(fields[i])
    requires HeapField(fields[i]) && ShapedCell(fields[i], cells[i]) && StopsCell(fields[i], t, cells[i])
    requires !fields[i].htype.Repeated? ==> OkCells(fields[i].sub, cells[i].cells)
    ensures var f, s := fields[i], KeyOf(fields, i) + t;
            && Stops(fields, s, cells)
            && Stale(fields, s, cells) == StaleCell(f, t, cells[i])
            && Dropped(fields, s, cells) == DroppedCell(f, t, cells[i])
            && Spilled(fields, s, cells) == SpilledCell(f, t, cells[i])
            && Raised(fields, s, cells) == cells[i := RaisedCell(f, t, cells[i])]
  {
    hide EncVarint, Varint32, HeapField, HeapTable, OkCells, Shaped, ShapedCell, StopsCell, StaleCell, DroppedCell,
         SpilledCell, RaisedCell, PassesCell, Inline;
    KeyBack(fields, i, t);
  }

  /** A message whose first record is an empty one of an array. */
  lemma PassesFirst(fields: seq<Field>, i: nat, t: seq<byte>, cells: seq<Cell>)
    requires HeapTable(fields) && OkCells(fields, cells) && Shaped(fields, cells) && i < |fields| && Inline(fields[i])
    requires HeapField(fields[i]) && ShapedCell(fields[i], cells[i])
    requires fields[i].htype.Repeated? && cells[i].size < fields[i].arraySize && NeverRejects(fields[i].sub)
    ensures PassesCell(fields[i], [0] + t, cells[i])
    ensures var s, next := KeyOf(fields, i) + ([0] + t), PassedCells(fields, i, [0] + t, cells);
            && OkCells(fields, next)
            && (Stops(fields, t, next) ==>
                  && Stops(fields, s, cells)
                  && Stale(fields, s, cells) == Stale(fields, t, next)
                  && Dropped(fields, s, cells) == Dropped(fields, t, next)
                  && Spilled(fields, s, cells) == Spilled(fields, t, next)
                  && Raised(fields, s, cells) == Raised(fields, t, next))
  {
    hide EncVarint, Varint32, HeapField, HeapTable, OkCells, Shaped, ShapedCell, OneMore, NextEntry, Inline,
         ReadDelimited;
    KeyBack(fields, i, [0] + t);
    InlineCell(fields, i, cells);
    EmptyRecord(t);
    CellPut(fields, i, cells, OneMore(fields[i], cells[i], NextEntry(fields[i], cells[i])));
    NoEmptyStop(fields[i], [0] + t, cells[i]);
  }

  lemma EmptyRecord(t: seq<byte>)
    ensures ReadDelimited([0] + t) == Done([], t)
  {
    assert ([0] + t)[1..] == t;
  }

  lemma NoEmptyStop(f: Field, s: seq<byte>, c: Cell)
    requires HeapField(f) && Inline(f) && ShapedCell(f, c) && f.htype.Repeated? && c.size < f.arraySize
    requires ReadDelimited(s).Done? && ReadDelimited(s).val == []
    ensures !StopsCell(f, s, c)
  {
  }

  /** It stops there, whatever the struct holds. */
  lemma {:induction false} CutShortStops(fields: seq<Field>, path: seq<nat>, cells: seq<Cell>)
    requires HeapTable(fields) && PathTo(fields, path) && Shaped(fields, cells) && OkCells(fields, cells)
    requires |CutShortRecord(fields, path)| < TWO_32
    ensures var s, c := CutShortRecord(fields, path), At(fields, path, cells);
            && Stops(fields, s, cells)
            && Stale(fields, s, cells)
               == (if c.size < |c.entries| then CellIds(c.entries[c.size]) else multiset{})
            && Dropped(fields, s, cells) == (if c.size == PB_SIZE_MAX then Ids(c.entries) else multiset{})
            && Spilled(fields, s, cells) == multiset{}
            && At(fields, path, Raised(fields, s, cells)) == NestedMany(RaisedCount(c.size), c.entries)
    decreases |path|
  {
    hide EncVarint, Varint32, Delimited, HeapField, CellIds, Ids, ReadDelimited, Stops, Stale, Dropped, Spilled,
         Raised, OkCells, HeapTable, Shaped, ShapedCell, NextEntry, RaisedCount;
    var i, f := path[0], fields[path[0]];
    InlineCell(fields, i, cells);
    if |path| == 1 {
      FiveCutShort();
      StopsHere(fields, i, [5], cells);
    } else {
      SubTable(fields, i);
      OkShaped(f.sub, cells[i].cells);
      CutShortStops(f.sub, path[1..], cells[i].cells);
      DelimitedAlone(CutShortRecord(f.sub, path[1..]));
      StopsHere(fields, i, Delimited(CutShortRecord(f.sub, path[1..])), cells);
    }
  }

  lemma SubTable(fields: seq<Field>, i: nat)
    requires HeapTable(fields) && i < |fields| && fields[i].ltype.Submessage?
    ensures HeapTable(fields[i].sub)
  {
    assert HeapField(fields[i]);
  }

  lemma FiveCutShort()
    ensures ReadDelimited([5]).Fail?
  {
  }

  lemma DelimitedAlone(body: seq<byte>)
    requires |body| < TWO_32
    ensures ReadDelimited(Delimited(body)) == Done(body, [])
  {
    hide ReadDelimited, Delimited;
    DelimitedRoundTrip(body, []);
    assert Delimited(body) + [] == Delimited(body);
  }

  lemma KeyBack(fields: seq<Field>, i: nat, t: seq<byte>)
    requires HeapTable(fields) && i < |fields|
    ensures var key := fields[i].tag * 8 + WT_STRING;
            Varint32(EncVarint(key) + t) == Done(key, t) && key != 0 && Lookup(fields, key / 8) == i
  {
    hide Varint32, EncVarint;
    assert HeapField(fields[i]);
    Varint32RoundTrip(fields[i].tag * 8 + WT_STRING, t);
    LookupUnique(fields, i);
  }

  /** The defaults reset the count and keep the entries. */
  lemma {:induction false} AtDefaults(fields: seq<Field>, path: seq<nat>, cells: seq<Cell>)
    requires HeapTable(fields) && PathTo(fields, path) && Shaped(fields, cells)
    ensures var d := DefaultCells(fields, cells);
            Shaped(fields, d) && At(fields, path, d) == NestedMany(0, At(fields, path, cells).entries)
    decreases |path|
  {
    hide HeapField, OkItems;
    DefaultsShape(fields, cells);
    OkShaped(fields, DefaultCells(fields, cells));
    assert ShapedCell(fields[path[0]], cells[path[0]]);
    if |path| > 1 {
      SubTable(fields, path[0]);
      AtDefaults(fields[path[0]].sub, path[1..], cells[path[0]].cells);
    }
  }
}
