/** Only clean structs are safe to decode into: for any other there is an input that has blocks freed which
    the decoder did not allocate. */
module HeapConverse {
  import opened Bits
  import opened Wire
  import opened Descriptors
  import opened InStreams
  import opened HeapModel
  import opened HeapRelease
  import opened HeapShapes
  import opened HeapStops
  import opened HeapDecoder
  import opened HeapLimits

  /** Entries of static submessage arrays may be empty messages, at any depth of inline rows. */
  predicate EntriesMayBeEmpty(fields: seq<Field>)
    decreases fields
  {
    forall i | 0 <= i < |fields| :: EntryMayBeEmpty(fields[i])
  }

  predicate EntryMayBeEmpty(f: Field)
    decreases f
  {
    Inline(f) ==> (f.htype.Repeated? ==> NeverRejects(f.sub)) && EntriesMayBeEmpty(f.sub)
  }

  // --------------------------------------------------- finding what is stale

  /** The first row from i on that is not clean. */
  function UncleanRow(fields: seq<Field>, cells: seq<Cell>, i: nat): (j: nat)
    requires |cells| == |fields| && exists k :: i <= k < |fields| && !CleanCell(fields[k], cells[k])
    ensures i <= j < |fields| && !CleanCell(fields[j], cells[j])
    decreases |fields| - i
  {
    if !CleanCell(fields[i], cells[i]) then i else UncleanRow(fields, cells, i + 1)
  }

  /** The first entry from k on that is not idle. */
  function BusyEntry(f: Field, entries: seq<Cell>, k: nat): (j: nat)
    requires f.ltype.Submessage? && exists l :: k <= l < |entries| && !Idle(f, entries[l])
    ensures k <= j < |entries| && !Idle(f, entries[j])
    decreases |entries| - k
  {
    if !Idle(f, entries[k]) then k else BusyEntry(f, entries, k + 1)
  }

  lemma UncleanParts(fields: seq<Field>, cells: seq<Cell>)
    requires HeapTable(fields) && Shaped(fields, cells) && !Clean(fields, cells)
    ensures |cells| == |fields| && exists k :: 0 <= k < |fields| && !CleanCell(fields[k], cells[k])
  {
  }

  lemma UncleanCell(fields: seq<Field>, i: nat, cells: seq<Cell>)
    requires HeapTable(fields) && Shaped(fields, cells) && i < |fields| && |cells| == |fields|
    requires !CleanCell(fields[i], cells[i])
    ensures var f, c := fields[i], cells[i];
            && Inline(f) && HeapField(f) && HeapTable(f.sub) && ShapedCell(f, c)
            && (!f.htype.Repeated? ==> c.Nested? && Shaped(f.sub, c.cells) && !Clean(f.sub, c.cells))
            && (f.htype.Repeated? ==>
                  c.NestedMany? && |c.entries| == f.arraySize
                  && exists k :: 0 <= k < |c.entries| && !Idle(f, c.entries[k]))
  {
    RowOk(fields, i, cells);
  }

  lemma BusyParts(f: Field, c: Cell, k: nat)
    requires HeapField(f) && Inline(f) && f.htype.Repeated? && ShapedCell(f, c)
    requires k < |c.entries| && !Idle(f, c.entries[k])
    ensures c.entries[k].Nested? && HeapTable(f.sub) && OkCells(f.sub, c.entries[k].cells)
    ensures Shaped(f.sub, c.entries[k].cells)
    ensures NoIds(c.entries[k].cells) ==> !Clean(f.sub, c.entries[k].cells)
  {
    assert OkItem(f, c.entries[k]);
    OkShaped(f.sub, c.entries[k].cells);
  }

  // ------------------------------------------------------- reaching for it

  /** Empty records of row i. */
  function Empties(fields: seq<Field>, i: nat, k: nat): seq<byte>
    requires i < |fields|
  {
    if k == 0 then [] else KeyOf(fields, i) + ([0] + Empties(fields, i, k - 1))
  }

  /** Empty records up to the first entry that is not idle, and then a record that stops there: cut short
      if the entry itself reaches blocks, or with a message that reaches for what is stale inside it. */
  function StaleInput(fields: seq<Field>, cells: seq<Cell>): (s: seq<byte>)
    requires HeapTable(fields) && Shaped(fields, cells) && !Clean(fields, cells)
    decreases fields
  {
    UncleanParts(fields, cells);
    var i := UncleanRow(fields, cells, 0);
    UncleanCell(fields, i, cells);
    var f, c := fields[i], cells[i];
    if !f.htype.Repeated? then KeyOf(fields, i) + Delimited(StaleInput(f.sub, c.cells))
    else
      var k := BusyEntry(f, c.entries, 0);
      BusyParts(f, c, k);
      Empties(fields, i, k) + (KeyOf(fields, i) + StaleRecord(f, c.entries[k].cells))
  }

  function StaleRecord(f: Field, entry: seq<Cell>): (s: seq<byte>)
    requires f.ltype.Submessage? && HeapTable(f.sub) && Shaped(f.sub, entry)
    requires NoIds(entry) ==> !Clean(f.sub, entry)
    decreases f
  {
    if NoIds(entry) then Delimited(StaleInput(f.sub, entry)) else [5]
  }

  /** The array of row i after k empty records. */
  predicate AfterEmpties(fields: seq<Field>, i: nat, k: nat, x: seq<Cell>, y: seq<Cell>)
    requires |x| == |y| == |fields| && i < |fields|
  {
    && x[i].NestedMany? && y[i].NestedMany?
    && y[i].size == x[i].size + k && |y[i].entries| == |x[i].entries|
    && forall j | x[i].size + k <= j < |x[i].entries| :: y[i].entries[j] == x[i].entries[j]
  }

  /** Empty records pass, and the entries behind them stay as they are. */
  lemma {:induction false} EmptiesPass(fields: seq<Field>, i: nat, k: nat, t: seq<byte>, x: seq<Cell>)
      returns (y: seq<Cell>)
    requires HeapTable(fields) && OkCells(fields, x) && Shaped(fields, x) && i < |fields| && Inline(fields[i])
    requires fields[i].htype.Repeated? && NeverRejects(fields[i].sub)
    requires |x| == |fields| && x[i].NestedMany? && x[i].size + k < fields[i].arraySize
    ensures OkCells(fields, y) && Shaped(fields, y) && |y| == |fields| && AfterEmpties(fields, i, k, x, y)
    ensures Stops(fields, t, y) ==>
              && Stops(fields, Empties(fields, i, k) + t, x)
              && Stale(fields, Empties(fields, i, k) + t, x) == Stale(fields, t, y)
    decreases k
  {
    hide HeapTable, OkCells, Shaped, Stops, Stale, NextEntry, NeverRejects, PassesCell, KeyOf;
    InlineCell(fields, i, x);
    if k == 0 {
      y := x;
      assert Empties(fields, i, k) + t == t;
    } else {
      var more := Empties(fields, i, k - 1) + t;
      PassesFirst(fields, i, more, x);
      var next := PassedCells(fields, i, [0] + more, x);
      y := EmptiesPass(fields, i, k - 1, t, next);
      assert Empties(fields, i, k) + t == KeyOf(fields, i) + ([0] + more);
    }
  }

  /** The input stops, and what it takes in is not nothing. */
  lemma {:induction false} StaleStops(fields: seq<Field>, cells: seq<Cell>)
    requires HeapTable(fields) && Shaped(fields, cells) && !Clean(fields, cells) && EntriesMayBeEmpty(fields)
    requires |StaleInput(fields, cells)| < TWO_32
    ensures var s, d := StaleInput(fields, cells), DefaultCells(fields, cells);
            && OkCells(fields, d) && Shaped(fields, d) && NoIds(d)
            && Stops(fields, s, d) && Stale(fields, s, d) != multiset{}
    decreases fields, 1
  {
    hide HeapTable, OkCells, Shaped, Stops, Stale, NextEntry, NeverRejects, Clean, CleanCell, ShapedCell, StopsCell,
         StaleCell, Empties, KeyOf, Ids, HeapField, OkItems, Idle, StaleRecord, Delimited;
    DefaultsShape(fields, cells);
    var d := DefaultCells(fields, cells);
    OkShaped(fields, d);
    UncleanParts(fields, cells);
    var i := UncleanRow(fields, cells, 0);
    UncleanCell(fields, i, cells);
    var f, c := fields[i], cells[i];
    assert EntryMayBeEmpty(f);
    InlineCell(fields, i, d);
    if !f.htype.Repeated? {
      var s := StaleInput(f.sub, c.cells);
      ShorterBody(KeyOf(fields, i), s);
      StaleStops(f.sub, c.cells);
      DelimitedAlone(s);
      NestedStops(f, Delimited(s), d[i]);
      StopsHere(fields, i, Delimited(s), d);
    } else {
      var k := BusyEntry(f, c.entries, 0);
      BusyParts(f, c, k);
      var t := StaleRecord(f, c.entries[k].cells);
      var y := EmptiesPass(fields, i, k, KeyOf(fields, i) + t, d);
      InlineCell(fields, i, y);
      ShorterTail(Empties(fields, i, k), KeyOf(fields, i), t);
      RecordStops(f, c.entries[k].cells, y[i]);
      StopsHere(fields, i, t, y);
    }
  }

  lemma ShorterBody(key: seq<byte>, s: seq<byte>)
    ensures |s| < |key + Delimited(s)|
  {
  }

  lemma ShorterTail(a: seq<byte>, key: seq<byte>, t: seq<byte>)
    ensures |t| <= |a + (key + t)|
  {
  }

  lemma NestedStops(f: Field, t: seq<byte>, c: Cell)
    requires HeapField(f) && Inline(f) && ShapedCell(f, c) && !f.htype.Repeated?
    requires ReadDelimited(t).Done? && HeapTable(f.sub) && Shaped(f.sub, c.cells)
    requires Stops(f.sub, ReadDelimited(t).val, c.cells)
    ensures StopsCell(f, t, c) && StaleCell(f, t, c) == Stale(f.sub, ReadDelimited(t).val, c.cells)
  {
  }

  lemma {:induction false} RecordStops(f: Field, entry: seq<Cell>, c: Cell)
    requires HeapField(f) && Inline(f) && f.htype.Repeated? && ShapedCell(f, c) && c.size < f.arraySize
    requires HeapTable(f.sub) && Shaped(f.sub, entry) && EntriesMayBeEmpty(f.sub)
    requires NoIds(entry) ==> !Clean(f.sub, entry)
    requires c.entries[c.size] == Nested(entry) && |StaleRecord(f, entry)| < TWO_32
    ensures var t := StaleRecord(f, entry); StopsCell(f, t, c) && StaleCell(f, t, c) != multiset{}
    decreases f, 2
  {
    hide HeapTable, Shaped, Stops, Stale, HeapField, OkItems, Clean, Delimited, ReadDelimited, DefaultCells;
    if NoIds(entry) {
      var s := StaleInput(f.sub, entry);
      ShorterBody([], s);
      assert [] + Delimited(s) == Delimited(s);
      StaleStops(f.sub, entry);
      DelimitedAlone(s);
      DefaultEntry(f, c, entry);
    } else {
      FiveCutShort();
    }
  }

  lemma DefaultEntry(f: Field, c: Cell, entry: seq<Cell>)
    requires HeapField(f) && Inline(f) && f.htype.Repeated? && ShapedCell(f, c) && c.size < f.arraySize
    requires c.entries[c.size] == Nested(entry) && Shaped(f.sub, entry)
    ensures NextEntry(f, c) == DefaultCells(f.sub, entry)
  {
  }

  /** pb_decode of that input into a struct that is not clean fails, allocates nothing, and has blocks
      freed all the same. Together with the conservation for clean structs: exactly these are safe. */
  method Expose(h: Heap, fields: seq<Field>, cells: seq<Cell>, ghost frame: multiset<nat>)
    returns (ok: bool, cells': seq<Cell>)
    requires HeapTable(fields) && Shaped(fields, cells) && !Clean(fields, cells) && EntriesMayBeEmpty(fields)
    requires |StaleInput(fields, cells)| < TWO_32
    requires h.Has(frame, multiset{})
    modifies h
    ensures !ok && h.made == old(h.made) && h.freed != old(h.freed) && old(h.freed) <= h.freed
  {
    hide HeapTable, Shaped, OkCells, Ids, Stops, Raised, Stale, Dropped, Spilled, DefaultCells, StaleInput, Clean,
         Heap.Valid;
    var input := StaleInput(fields, cells);
    StaleStops(fields, cells);
    var s := new InStream(input, 0, |input|);
    assert s.Rest() == input;
    ok, cells' := DecodeMessage(h, s, fields, cells, frame);
    ghost var d := DefaultCells(fields, cells);
    RaisedExactly(fields, input, d);
    SameSum(old(h.freed), FreedAfter(fields, input, d));
  }
}
