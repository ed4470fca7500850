/** What a struct with pointers may look like before, during and after decoding. */
module HeapShapes {
  import opened Descriptors
  import opened HeapModel
  import opened HeapRelease

  /** Static submessage arrays have well-formed entries, which may well hold stale pointers. Nothing is
      asked of counts and pointers that setting the defaults overwrites. */
  predicate Shaped(fields: seq<Field>, cells: seq<Cell>)
    decreases fields
  {
    |cells| == |fields| && forall i | 0 <= i < |fields| :: ShapedCell(fields[i], cells[i])
  }

  /** A row that is a static submessage, alone or in an array. */
  predicate Inline(f: Field) { !f.htype.Oneof? && f.atype.Static? && f.ltype.Submessage? }

  predicate ShapedCell(f: Field, c: Cell)
    decreases f
  {
    if !Inline(f) then true
    else if f.htype.Repeated? then c.NestedMany? && |c.entries| == f.arraySize && OkItems(f, c.entries)
    else c.Nested? && Shaped(f.sub, c.cells)
  }

  /** A struct that may be decoded into: no entry of a static array reaches a block. */
  predicate Clean(fields: seq<Field>, cells: seq<Cell>)
    decreases fields, 1
  {
    |cells| == |fields| && forall i | 0 <= i < |fields| :: CleanCell(fields[i], cells[i])
  }

  predicate CleanCell(f: Field, c: Cell)
    decreases f, 1
  {
    if !Inline(f) then true
    else if f.htype.Repeated? then
      && c.NestedMany? && |c.entries| == f.arraySize && OkItems(f, c.entries)
      && forall k | 0 <= k < |c.entries| :: Idle(f, c.entries[k])
    else c.Nested? && Clean(f.sub, c.cells)
  }

  /** An entry that has not been decoded: it reaches nothing and may be decoded into. */
  predicate Idle(f: Field, c: Cell)
    requires f.ltype.Submessage?
    decreases f, 0
  {
    c.Nested? && Clean(f.sub, c.cells) && NoIds(c.cells)
  }

  /** A struct in use: entries above a count are idle. */
  predicate Tidy(fields: seq<Field>, cells: seq<Cell>)
    decreases fields
  {
    |cells| == |fields| && forall i | 0 <= i < |fields| :: TidyCell(fields[i], cells[i])
  }

  predicate TidyCell(f: Field, c: Cell)
    decreases f
  {
    if !Inline(f) then true
    else if f.htype.Repeated? then
      c.NestedMany? && forall k | 0 <= k < |c.entries| :: TidyEntry(f, c.size, k, c.entries[k])
    else c.Nested? && Tidy(f.sub, c.cells)
  }

  predicate TidyEntry(f: Field, size: nat, k: nat, c: Cell)
    requires f.ltype.Submessage?
    decreases f, 0
  {
    if k < size then c.Nested? && Tidy(f.sub, c.cells) else Idle(f, c)
  }

  /** Counts of static arrays are within the arrays: no decode has failed on this struct since it was
      last set to its defaults. */
  predicate Ready(fields: seq<Field>, cells: seq<Cell>)
    decreases fields
  {
    |cells| == |fields| && forall i | 0 <= i < |fields| :: ReadyCell(fields[i], cells[i])
  }

  predicate ReadyCell(f: Field, c: Cell)
    decreases f
  {
    if !Inline(f) then true
    else if f.htype.Repeated? then c.NestedMany? && c.size <= f.arraySize
    else c.Nested? && Ready(f.sub, c.cells)
  }

  /** One record too many does not wrap a count around, at any depth. */
  predicate CountsFit(fields: seq<Field>)
    decreases fields
  {
    forall i | 0 <= i < |fields| :: CountFits(fields[i])
  }

  predicate CountFits(f: Field)
    decreases f
  {
    && (Inline(f) && f.htype.Repeated? ==> f.arraySize < PB_SIZE_MAX)
    && (f.ltype.Submessage? ==> CountsFit(f.sub))
  }

  // ---------------------------------------------------------------- defaults

  function DefaultCell(fields: seq<Field>, i: nat, c: Cell): (r: Cell)
    requires i < |fields|
    decreases fields, 0
  {
    var f := fields[i];
    if f.htype.Oneof? then if Continues(fields, i) then Shared else PtrUnion(0, Null)
    else if f.atype.Pointer? then if f.htype.Repeated? then PtrMany(0, Null) else Ptr(Null)
    else if !Inline(f) then if Counted(f) then Count(0) else Plain
    else if f.htype.Repeated? then if c.NestedMany? then NestedMany(0, c.entries) else c
    else if c.Nested? then Nested(DefaultCells(f.sub, c.cells)) else c
  }

  /** pb_message_set_to_defaults: null pointers, zero counts; array entries are not touched. */
  function DefaultCells(fields: seq<Field>, cells: seq<Cell>): (r: seq<Cell>)
    ensures |r| == |fields|
    decreases fields, 1
  {
    seq(|fields|, i requires 0 <= i < |fields| => DefaultCell(fields, i, if i < |cells| then cells[i] else Plain))
  }

  /** The defaults, row by row: pointers are null, counts and selectors zero; a static submessage is set to its
      defaults, and the entries of a static array stay. */
  lemma DefaultRow(fields: seq<Field>, cells: seq<Cell>, i: nat)
    requires HeapTable(fields) && Shaped(fields, cells) && i < |fields|
    ensures |cells| == |fields|
    ensures var f, c, r := fields[i], cells[i], DefaultCells(fields, cells)[i];
            && (f.htype.Oneof? ==> r == if Home(fields, i) == i then PtrUnion(0, Null) else Shared)
            && (!f.htype.Oneof? && f.atype.Pointer? ==>
                  r == if f.htype.Repeated? then PtrMany(0, Null) else Ptr(Null))
            && (f.atype.Static? && f.htype.Repeated? && f.ltype.Submessage? ==>
                  c.NestedMany? && r == NestedMany(0, c.entries))
            && (f.atype.Static? && !f.htype.Repeated? && !f.htype.Oneof? && f.ltype.Submessage? ==>
                  c.Nested? && r == Nested(DefaultCells(f.sub, c.cells)))
            && (f.atype.Static? && !f.ltype.Submessage? ==>
                  r == if f.htype.Repeated? && f.sizeOffset != 0 then Count(0) else Plain)
  {
    hide OkItems, HeapTable;
    RowOfTable(fields, i);
    assert ShapedCell(fields[i], cells[i]);
  }

  lemma RowOfTable(fields: seq<Field>, i: nat)
    requires HeapTable(fields) && i < |fields|
    ensures HeapField(fields[i])
  {
  }

  lemma {:induction false} DefaultCellShape(fields: seq<Field>, i: nat, c: Cell)
    requires i < |fields| && HeapField(fields[i]) && ShapedCell(fields[i], c)
    ensures var r := DefaultCell(fields, i, c);
            && OkCell(fields, i, r) && CellIds(r) == multiset{} && ReadyCell(fields[i], r)
            && (CleanCell(fields[i], c) ==> TidyCell(fields[i], r))
    decreases fields, 0
  {
    var f := fields[i];
    if Inline(f) {
      if f.htype.Repeated? {
        VisibleIds(0, c.entries);
        assert c.entries[..0] == [];
      } else {
        DefaultsShape(f.sub, c.cells);
      }
    }
  }

  /** The defaults are well-formed and reach nothing, whatever was there before. */
  lemma {:induction false} DefaultsShape(fields: seq<Field>, cells: seq<Cell>)
    requires HeapTable(fields) && Shaped(fields, cells)
    ensures var r := DefaultCells(fields, cells);
            && OkCells(fields, r) && NoIds(r) && Ready(fields, r)
            && (Clean(fields, cells) ==> Tidy(fields, r))
    decreases fields, 1
  {
    hide OkCell, CellIds, ReadyCell, TidyCell, CleanCell, ShapedCell, DefaultCell, HeapField;
    var r := DefaultCells(fields, cells);
    forall i | 0 <= i < |fields|
      ensures OkCell(fields, i, r[i]) && CellIds(r[i]) == multiset{} && ReadyCell(fields[i], r[i])
      ensures CleanCell(fields[i], cells[i]) ==> TidyCell(fields[i], r[i])
    {
      DefaultCellShape(fields, i, cells[i]);
    }
    IdsNone(r);
  }

  lemma {:induction false} CleanShaped(fields: seq<Field>, cells: seq<Cell>)
    requires Clean(fields, cells)
    ensures Shaped(fields, cells)
    decreases fields
  {
    hide OkItems, Idle;
    forall i | 0 <= i < |fields| ensures ShapedCell(fields[i], cells[i]) {
      assert CleanCell(fields[i], cells[i]);
      if Inline(fields[i]) && !fields[i].htype.Repeated? { CleanShaped(fields[i].sub, cells[i].cells); }
    }
  }

  lemma {:induction false} OkShaped(fields: seq<Field>, cells: seq<Cell>)
    requires HeapTable(fields) && OkCells(fields, cells)
    ensures Shaped(fields, cells)
    decreases fields
  {
    forall i | 0 <= i < |fields| ensures ShapedCell(fields[i], cells[i]) {
      assert OkCell(fields, i, cells[i]);
      if Inline(fields[i]) && !fields[i].htype.Repeated? {
        assert HeapField(fields[i]) && OkItem(fields[i], cells[i]);
        OkShaped(fields[i].sub, cells[i].cells);
      }
    }
  }

  // ------------------------------------------------------------ new memory

  /** Cleared memory for a struct. */
  function ZeroCells(fields: seq<Field>): (r: seq<Cell>)
    requires HeapTable(fields)
    ensures |r| == |fields|
    decreases fields
  {
    seq(|fields|, i requires 0 <= i < |fields| => ZeroCell(fields, i))
  }

  function ZeroCell(fields: seq<Field>, i: nat): Cell
    requires i < |fields| && HeapField(fields[i])
    decreases fields, 0
  {
    var f := fields[i];
    if f.htype.Oneof? then if Continues(fields, i) then Shared else PtrUnion(0, Null)
    else if f.atype.Pointer? then if f.htype.Repeated? then PtrMany(0, Null) else Ptr(Null)
    else if !f.ltype.Submessage? then if Counted(f) then Count(0) else Plain
    else if f.htype.Repeated? then NestedMany(0, seq(f.arraySize, _ => Nested(ZeroCells(f.sub))))
    else Nested(ZeroCells(f.sub))
  }

  lemma {:induction false} ZeroCellClean(fields: seq<Field>, i: nat)
    requires i < |fields| && HeapField(fields[i])
    ensures var r := ZeroCell(fields, i);
            OkCell(fields, i, r) && CellIds(r) == multiset{} && CleanCell(fields[i], r)
    decreases fields, 0
  {
    var f := fields[i];
    if Inline(f) {
      ZeroCellsClean(f.sub);
      if f.htype.Repeated? {
        var entries := seq(f.arraySize, _ => Nested(ZeroCells(f.sub)));
        VisibleIds(0, entries);
        assert entries[..0] == [];
      }
    }
  }

  lemma {:induction false} ZeroCellsClean(fields: seq<Field>)
    requires HeapTable(fields)
    ensures OkCells(fields, ZeroCells(fields)) && NoIds(ZeroCells(fields)) && Clean(fields, ZeroCells(fields))
    decreases fields, 1
  {
    hide OkCell, CellIds, CleanCell, ZeroCell, HeapField;
    var r := ZeroCells(fields);
    forall i | 0 <= i < |fields|
      ensures OkCell(fields, i, r[i]) && CellIds(r[i]) == multiset{} && CleanCell(fields[i], r[i])
    {
      ZeroCellClean(fields, i);
    }
    IdsNone(r);
  }

  /** initialize_pointer_field: a new submessage is cleared and set to its defaults. */
  function InitialCells(fields: seq<Field>): (r: seq<Cell>)
    requires HeapTable(fields)
    ensures OkCells(fields, r) && NoIds(r) && Ready(fields, r) && Tidy(fields, r)
    ensures Clean(fields, r)
  {
    ZeroCellsClean(fields);
    CleanShaped(fields, ZeroCells(fields));
    DefaultsShape(fields, ZeroCells(fields));
    DefaultsClean(fields, ZeroCells(fields));
    DefaultCells(fields, ZeroCells(fields))
  }

  lemma {:induction false} DefaultsClean(fields: seq<Field>, cells: seq<Cell>)
    requires Shaped(fields, cells) && Clean(fields, cells)
    ensures Clean(fields, DefaultCells(fields, cells))
    decreases fields
  {
    hide OkItems, Idle;
    forall i | 0 <= i < |fields| ensures CleanCell(fields[i], DefaultCells(fields, cells)[i]) {
      assert CleanCell(fields[i], cells[i]);
      if Inline(fields[i]) && !fields[i].htype.Repeated? { DefaultsClean(fields[i].sub, cells[i].cells); }
    }
  }

  // ------------------------------------------------------------ after release

  /** A tidy struct is clean after its release: it may be decoded into again. */
  lemma {:induction false} ReleasedTidy(fields: seq<Field>, cells: seq<Cell>)
    requires OkCells(fields, cells) && Tidy(fields, cells)
    ensures Clean(fields, ReleasedCells(fields, cells))
    decreases fields, 1
  {
    hide OkCell, CleanCell, TidyCell, ReleasedCell;
    forall i | 0 <= i < |fields| ensures CleanCell(fields[i], ReleasedCells(fields, cells)[i]) {
      ReleasedCellTidy(fields, i, cells[i]);
    }
  }

  lemma {:induction false} ReleasedCellTidy(fields: seq<Field>, i: nat, c: Cell)
    requires i < |fields| && OkCell(fields, i, c) && TidyCell(fields[i], c)
    ensures CleanCell(fields[i], ReleasedCell(fields, i, c))
    decreases fields, 0
  {
    var f := fields[i];
    if Inline(f) {
      if f.htype.Repeated? {
        ReleasedEntriesTidy(f, c.entries, c.size);
      } else {
        ReleasedTidy(f.sub, c.cells);
      }
    }
  }

  lemma {:induction false} ReleasedEntriesTidy(f: Field, entries: seq<Cell>, size: nat)
    requires f.ltype.Submessage? && OkItems(f, entries)
    requires forall k | 0 <= k < |entries| :: TidyEntry(f, size, k, entries[k])
    ensures var r := ReleasedEntries(f, entries, Min(size, |entries|));
            OkItems(f, r) && forall k | 0 <= k < |r| :: Idle(f, r[k])
    decreases f, 2
  {
    hide OkCells, Ids, Clean, Tidy;
    var n := Min(size, |entries|);
    var r := ReleasedEntries(f, entries, n);
    ReleasedEntriesClean(f, entries, n);
    forall k | 0 <= k < |r| ensures Idle(f, r[k]) {
      assert OkItem(f, entries[k]) && TidyEntry(f, size, k, entries[k]);
      if k < n {
        ReleasedTidy(f.sub, entries[k].cells);
        ReleasedClean(f.sub, entries[k].cells);
      }
    }
  }
}
