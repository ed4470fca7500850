/** Decoding into structs with pointers. On every path, successful or not, what the allocator made and
    what was adopted from stale memory is freed, lost, the caller's, or the struct's. */
module HeapDecoder {
  import opened Bits
  import opened Wire
  import opened Descriptors
  import opened InStreams
  import opened Decoding
  import opened Decoder
  import opened HeapModel
  import opened HeapRelease
  import opened HeapAllocation
  import opened HeapShapes
  import opened HeapStops
  import opened HeapReading
  import opened HeapScalars

  // ------------------------------------------------------------- pointers

  /** What a submessage must look like for decoding not to touch stale pointers. */
  predicate Prepared(f: Field, cells: seq<Cell>)
    requires f.ltype.Submessage?
  {
    CountsFit(f.sub) &&
    if f.htype.Repeated? then Clean(f.sub, cells) && NoIds(cells) else Tidy(f.sub, cells) && Ready(f.sub, cells)
  }

  /** pb_dec_submessage: a new array entry is set to its defaults first, anything else is merged into. An
      entry that is not even reached stays as it was, and its pointers count as adopted. */
  method DecodeSub(h: Heap, s: InStream, f: Field, cells: seq<Cell>, ghost frame: multiset<nat>)
    returns (ok: bool, cells': seq<Cell>)
    requires s.Valid() && HeapField(f) && f.ltype.Submessage? && OkCells(f.sub, cells)
    requires h.Has(frame, if f.htype.Repeated? then multiset{} else Ids(cells))
    modifies h, s
    ensures s.Valid() && s.Advanced(ok)
    ensures OkCells(f.sub, cells') && h.Has(frame, Ids(cells'))
    ensures Prepared(f, cells) ==> h.Unadopted() && Tidy(f.sub, cells') && (ok ==> Ready(f.sub, cells'))
    ensures ok ==> ReadDelimited(old(s.Rest())).Done? && s.Rest() == ReadDelimited(old(s.Rest())).rest
    ensures h.refusals >= old(h.refusals)
    ensures Verdict(ReadSub(f, old(s.Rest()), EraseCells(cells)), ok, EraseCells(cells'), s.Rest(),
                    h.refusals > old(h.refusals))
    ensures HeapTable(f.sub) && Shaped(f.sub, cells)
    ensures var e := DefaultCells(f.sub, cells); OkCells(f.sub, e) && Shaped(f.sub, e)
    ensures f.htype.Repeated? && ReadDelimited(old(s.Rest())).Fail? ==> !ok && cells' == cells && h.Quiet()
    ensures var d := ReadDelimited(old(s.Rest()));
            f.htype.Repeated? && d.Done? && d.val == [] && NeverRejects(f.sub) ==>
              ok && cells' == DefaultCells(f.sub, cells) && h.Quiet()
    ensures var d, e := ReadDelimited(old(s.Rest())), DefaultCells(f.sub, cells);
            f.htype.Repeated? && d.Done? && Stops(f.sub, d.val, e) ==>
              !ok && cells' == ReleasedCells(f.sub, Raised(f.sub, d.val, e)) && h.Spills(FreedAfter(f.sub, d.val, e))
    ensures var d := ReadDelimited(old(s.Rest()));
            !f.htype.Repeated? && d.Done? && Stops(f.sub, d.val, cells) ==>
              !ok && cells' == Raised(f.sub, d.val, cells) && h.Spills(Spilled(f.sub, d.val, cells))
    decreases f, 1
  {
    hide HeapTable, OkCells, Ready, Tidy, Clean, CountsFit, Ids, ReadDelimited, Stops, Raised, Shaped, Heap.Valid,
         Spilled, FreedAfter, DefaultCells, ReleasedCells, NeverRejects, EraseCells, ReadMsg;
    SubOf(f);
    OkShaped(f.sub, cells);
    DefaultsShape(f.sub, cells);
    OkShaped(f.sub, DefaultCells(f.sub, cells));
    cells' := cells;
    var sub, status;
    ok, sub := s.MakeStringSubstream();
    if !ok {
      if f.htype.Repeated? {
        NothingAdopted(h.adopted);
        h.Adopt(Ids(cells), frame);
        if Prepared(f, cells) { CleanTidy(f.sub, cells); }
      }
      return;
    }
    label made:
    if f.htype.Repeated? {
      status, cells' := DecodeMessage(h, sub, f.sub, cells, frame);
    } else {
      status, cells' := DecodeNoinit(h, sub, f.sub, cells, frame);
    }
    assert unchanged@made(s);
    ok := s.CloseStringSubstream(sub);
    ok := ok && status;
  }

  lemma SubOf(f: Field)
    requires HeapField(f) && f.ltype.Submessage?
    ensures HeapTable(f.sub)
  {
  }

  lemma NothingAdopted(a: multiset<nat>)
    ensures a + multiset{} == a
  {
  }

  /** Idle entries are tidy as they are. */
  lemma {:induction false} CleanTidy(fields: seq<Field>, cells: seq<Cell>)
    requires Clean(fields, cells)
    ensures Tidy(fields, cells)
    decreases fields
  {
    hide OkItems;
    forall i | 0 <= i < |fields| ensures TidyCell(fields[i], cells[i]) {
      var f, c := fields[i], cells[i];
      assert CleanCell(f, c);
      if Inline(f) {
        if f.htype.Repeated? {
          forall k | 0 <= k < |c.entries| ensures TidyEntry(f, c.size, k, c.entries[k]) {
            assert Idle(f, c.entries[k]);
            CleanTidy(f.sub, c.entries[k].cells);
          }
        } else {
          CleanTidy(f.sub, c.cells);
        }
      }
    }
  }

  /** A newly allocated item: its memory is initialised and then decoded into. */
  method DecodeNewItem(h: Heap, s: InStream, f: Field, ghost frame: multiset<nat>) returns (ok: bool, item: Cell)
    requires s.Valid() && HeapField(f) && (StringLike(f.ltype) ==> f.htype.Repeated?) && h.Has(frame, multiset{})
    modifies h, s
    ensures s.Valid() && s.Advanced(ok)
    ensures OkItem(f, item) && h.Has(frame, CellIds(item))
    ensures CountFits(f) ==> h.Unadopted()
    ensures ok && item.Ptr? ==> item.p.Live?
    ensures h.refusals >= old(h.refusals)
    ensures Verdict(ReadItem(f, old(s.Rest())), ok, EraseCell(item), s.Rest(), h.refusals > old(h.refusals))
    decreases f, 2
  {
    hide HeapTable, OkCells, Ready, Tidy, Clean, CountsFit, Ids, DecScalar, ReadDelimited, Stops, Raised, Shaped,
         Heap.Valid, ReadSub, ReadLeaf, View;
    if f.ltype.Submessage? {
      SubOf(f);
      var cells := InitialCells(f.sub);
      ok, cells := DecodeSub(h, s, f, cells, frame);
      item := Nested(cells);
    } else if StringLike(f.ltype) {
      var p;
      ok, p := DecodeLeaf(h, s, f, Null, frame);
      item := Ptr(p);
      PlainBlock(p);
    } else {
      var skipped;
      ok, skipped := DecodeScalar(s, View(f));
      item := Plain;
    }
  }

  /** A required, optional or union pointer. A submessage's old block is released first; other blocks
      are reused. */
  method DecodePointerSingular(h: Heap, s: InStream, f: Field, p: Block, ghost frame: multiset<nat>)
    returns (ok: bool, p': Block)
    requires s.Valid() && HeapField(f) && !f.htype.Repeated?
    requires p.Live? ==> |p.contents| == 1 && OkItems(f, p.contents)
    requires h.Has(frame, BlockIds(p))
    modifies h, s
    ensures s.Valid() && s.Advanced(ok)
    ensures h.Has(frame, BlockIds(p'))
    ensures CountFits(f) ==> h.Unadopted()
    ensures p'.Live? ==> |p'.contents| == 1 && OkItems(f, p'.contents)
    ensures ok ==> p'.Live?
    ensures h.refusals >= old(h.refusals)
    ensures Verdict(ReadSingle(f, old(s.Rest())), ok, EraseBlock(p'), s.Rest(), h.refusals > old(h.refusals))
    decreases f, 4
  {
    hide HeapTable, CountFits, Ids, CellIds, HeapField, OkItem, OkItems, Heap.Valid, ReadItem, ReadLeaf, SizesAllowed,
         EraseBlock;
    SingleLeaf(f);
    p' := p;
    if f.ltype.Submessage? && p.Live? {
      ReleaseBlock(h, f, p, frame);
      p' := Null;
    }
    if StringLike(f.ltype) {
      ok, p' := DecodeLeaf(h, s, f, p', frame);
      PlainBlock(p');
      return;
    }
    ok, p' := DecodeAllocated(h, s, f, p', frame);
  }

  /** One item in a block that is extended or allocated for it. */
  method DecodeAllocated(h: Heap, s: InStream, f: Field, p: Block, ghost frame: multiset<nat>)
    returns (ok: bool, p': Block)
    requires s.Valid() && HeapField(f) && !f.htype.Repeated? && !StringLike(f.ltype)
    requires if f.ltype.Submessage? then p == Null else p.Live? ==> |p.contents| == 1 && OkItems(f, p.contents)
    requires h.Has(frame, BlockIds(p))
    modifies h, s
    ensures s.Valid() && s.Advanced(ok)
    ensures h.Has(frame, BlockIds(p'))
    ensures CountFits(f) ==> h.Unadopted()
    ensures p'.Live? ==> |p'.contents| == 1 && OkItems(f, p'.contents)
    ensures ok ==> p'.Live?
    ensures h.refusals >= old(h.refusals)
    ensures Verdict(ReadSingle(f, old(s.Rest())), ok, EraseBlock(p'), s.Rest(), h.refusals > old(h.refusals))
    decreases f, 3
  {
    hide HeapTable, CountFits, Ids, CellIds, Resized, HeapField, OkItem, OkItems, Heap.Valid, ReadItem, SizesAllowed,
         EraseCell;
    EmptyOk(f);
    FreshSingle(f, ContentsOf(p));
    ok, p' := AllocateField(h, p, f.dataSize, 1, frame);
    if !ok { return; }
    var item;
    ok, item := DecodeNewItem(h, s, f, frame + multiset{p'.id});
    IdsOne(item);
    OneItem(f, item);
    p' := Live(p'.id, [item]);
    assert EraseBlock(p').contents == [EraseCell(item)];
  }

  lemma EmptyOk(f: Field)
    ensures OkItems(f, [])
  {
  }

  lemma PlainBlock(p: Block)
    ensures p.Live? && p.contents == [Plain] ==> EraseBlock(p) == Live(0, [Plain])
  {
    PlainStays();
  }

  lemma SingleLeaf(f: Field)
    ensures StringLike(f.ltype) && !f.htype.Repeated? ==>
              forall contents {:trigger OkItems(f, contents)} | |contents| == 1 ::
                OkItems(f, contents) <==> contents == [Plain]
  {
    forall contents: seq<Cell> | StringLike(f.ltype) && !f.htype.Repeated? && |contents| == 1
      ensures OkItems(f, contents) <==> contents == [Plain]
    {
      assert OkItem(f, contents[0]) <==> contents[0] == Plain;
    }
  }

  lemma OneItem(f: Field, item: Cell)
    requires OkItem(f, item)
    ensures OkItems(f, [item])
  {
  }

  lemma FreshSingle(f: Field, contents: seq<Cell>)
    requires !f.htype.Repeated? && OkItems(f, contents) && (f.ltype.Submessage? ==> contents == [])
    ensures Ids(Resized(contents, 1)) == Ids(contents) == multiset{}
  {
    if contents != [] { PlainIds(f, contents); }
    ResizedIds(contents, |contents|);
    if |contents| >= 1 {
      PlainIds(f, contents[..1]);
    } else {
      IdsNone(Resized(contents, 1));
    }
  }

  /** One more entry behind the last of an allocated array: the block is extended, the count raised,
      and then the entry is decoded. */
  method DecodePointerEntry(h: Heap, s: InStream, f: Field, len: nat, p: Block, ghost frame: multiset<nat>)
    returns (ok: bool, len': nat, p': Block)
    requires s.Valid() && HeapField(f) && f.htype.Repeated?
    requires OkMany(f, len, p) && h.Has(frame, BlockIds(p))
    modifies h, s
    ensures s.Valid() && s.Advanced(ok)
    ensures OkMany(f, len', p') && h.Has(frame, BlockIds(p'))
    ensures CountFits(f) ==> h.Unadopted()
    ensures len' == len + 1 || (!ok && len' == len && p' == p)
    ensures len' == len + 1 ==> ContentsOf(p')[..len] == ContentsOf(p)[..len]
    ensures h.refusals >= old(h.refusals)
    ensures Verdict(ReadOneMore(f, old(s.Rest()), len, Counting(EraseBlock(p), len)),
                    ok, EraseCell(PtrMany(len', p')), s.Rest(), h.refusals > old(h.refusals))
    decreases f, 4
  {
    hide HeapTable, OkItem, OkItems, HeapField, Ids, CellIds, BlockIds, Resized, CountFits, Heap.Valid, ReadItem,
         SizesAllowed, EraseCell, EraseBlock, Counting;
    CountedContents(p, len);
    len', p' := len, p;
    if len == PB_SIZE_MAX { return false, len, p; }
    ok, p' := AllocateField(h, p, f.dataSize, len + 1, frame) by {
      if Packable(f.ltype) { TailOwnsNothing(f, ContentsOf(p), len + 1); }
    }
    if !ok { return; }
    AppendItem(f, ContentsOf(p), len, Plain);
    BlockParts(p');
    len' := len + 1;
    ghost var before := p'.contents[..len];
    ok, p' := FillEntry(h, s, f, len, p', frame);
    assert p'.contents[..len] == before;
    CountedContents(p', len + 1);
    EntryErased(p', len);
    ErasePrefix(ContentsOf(p), len);
  }

  lemma CountedContents(p: Block, len: nat)
    requires len <= |ContentsOf(p)|
    ensures len <= |ContentsOf(Counting(EraseBlock(p), len))|
    ensures ContentsOf(Counting(EraseBlock(p), len))[..len] == EraseCells(ContentsOf(p))[..len]
    ensures EraseCell(PtrMany(len, p)) == PtrMany(len, Counting(EraseBlock(p), len))
    ensures p.Live? ==> Counting(EraseBlock(p), len) == Live(0, EraseCells(p.contents)[..len])
  {
  }

  lemma EntryErased(p: Block, len: nat)
    requires p.Live? && |p.contents| == len + 1
    ensures EraseCells(p.contents)[..len + 1] == EraseCells(p.contents[..len]) + [EraseCell(p.contents[len])]
  {
    hide EraseCell;
  }

  /** Decodes into the last entry of a block, the others being well-formed. */
  method FillEntry(h: Heap, s: InStream, f: Field, len: nat, p: Block, ghost frame: multiset<nat>)
    returns (ok: bool, p': Block)
    requires s.Valid() && HeapField(f) && f.htype.Repeated?
    requires p.Live? && |p.contents| == len + 1 && OkItems(f, p.contents[..len])
    requires h.Has(frame, multiset{p.id} + Ids(p.contents[..len]))
    modifies h, s
    ensures s.Valid() && s.Advanced(ok)
    ensures p'.Live? && |p'.contents| == len + 1 && p'.contents[..len] == p.contents[..len] && OkItems(f, p'.contents)
    ensures h.Has(frame, BlockIds(p'))
    ensures CountFits(f) ==> h.Unadopted()
    ensures h.refusals >= old(h.refusals)
    ensures Verdict(ReadItem(f, old(s.Rest())), ok, EraseCell(p'.contents[len]), s.Rest(), h.refusals > old(h.refusals))
    decreases f, 3
  {
    hide HeapTable, OkItem, OkItems, HeapField, Ids, CellIds, BlockIds, CountFits, Heap.Valid, EraseCell, ReadItem;
    ghost var before := p.contents[..len];
    var item;
    ok, item := DecodeNewItem(h, s, f, frame + (multiset{p.id} + Ids(before)));
    IdsLast(before, item);
    OneMoreItem(f, before, item);
    p' := Live(p.id, p.contents[..len] + [item]);
    BlockParts(p');
  }

  lemma OneMoreItem(f: Field, items: seq<Cell>, item: Cell)
    requires OkItems(f, items) && OkItem(f, item)
    ensures OkItems(f, items + [item])
  {
    hide OkItem;
  }

  /** A record of an allocated array: a packed chunk, or one more entry behind the last. */
  method DecodePointerRepeated(h: Heap, s: InStream, f: Field, wireType: nat, len: nat, p: Block,
                               ghost frame: multiset<nat>)
    returns (ok: bool, len': nat, p': Block)
    requires s.Valid() && HeapField(f) && f.atype.Pointer? && f.htype.Repeated?
    requires OkMany(f, len, p) && h.Has(frame, BlockIds(p))
    modifies h, s
    ensures s.Valid() && s.Advanced(ok)
    ensures OkMany(f, len', p') && h.Has(frame, BlockIds(p'))
    ensures CountFits(f) ==> h.Unadopted()
    ensures if wireType == WT_STRING && Packable(f.ltype) then len <= len'
            else len' == len + 1 || (!ok && len' == len && p' == p)
    ensures h.refusals >= old(h.refusals)
    ensures len <= PB_SIZE_MAX
    ensures Verdict(ReadMany(f, wireType, old(s.Rest()), len, Counting(EraseBlock(p), len)),
                    ok, EraseCell(PtrMany(len', p')), s.Rest(), h.refusals > old(h.refusals))
    decreases f, 5
  {
    hide HeapTable, OkItem, OkItems, HeapField, Ids, CountFits, Heap.Valid, EraseCell, EraseBlock, Counting,
         ReadPacked, ReadOneMore, ReadDelimited;
    if wireType == WT_STRING && Packable(f.ltype) {
      ok, len', p' := DecodePackedPointer(h, s, f, len, p, frame);
    } else {
      ok, len', p' := DecodePointerEntry(h, s, f, len, p, frame);
    }
  }

  lemma ResizedPrefix(contents: seq<Cell>, len: nat)
    requires len <= |contents|
    ensures var r := Resized(contents, len + 1);
            && r[..len] == contents[..len]
            && r[len] == if len < |contents| then contents[len] else Plain
  {
  }

  lemma IdsLast(cells: seq<Cell>, c: Cell)
    ensures Ids(cells + [c]) == Ids(cells) + CellIds(c)
  {
    IdsConcat(cells, [c]);
    IdsOne(c);
  }

  lemma LastOwnsNothing(f: Field, contents: seq<Cell>, len: nat)
    requires len <= |contents| && OkItems(f, contents) && (!Packable(f.ltype) ==> len == |contents|)
    ensures Ids(Resized(contents, len + 1)) == Ids(contents[..len])
  {
    hide OkItem, Ids, BlockIds, Resized;
    var r := Resized(contents, len + 1);
    ResizedPrefix(contents, len);
    assert r == contents[..len] + [r[len]];
    IdsLast(contents[..len], r[len]);
    if len < |contents| {
      ItemIds(f, contents[len]);
    }
  }

  lemma AppendItem(f: Field, contents: seq<Cell>, len: nat, item: Cell)
    requires len <= |contents| && OkItems(f, contents) && (!Packable(f.ltype) ==> len == |contents|)
    ensures var r := Resized(contents, len + 1);
            && r[..len] == contents[..len]
            && Ids(r) == Ids(r[..len])
            && Ids(r[..len] + [item]) == Ids(r[..len]) + CellIds(item)
            && OkItems(f, r[..len])
            && (OkItem(f, item) ==> OkItems(f, r[..len] + [item]))
  {
    hide OkItem, Ids, CellIds, Resized, Packable;
    ResizedPrefix(contents, len);
    LastOwnsNothing(f, contents, len);
    IdsLast(contents[..len], item);
  }

  /** One more entry of a static submessage array. The count is raised before the entry is decoded,
      even when there is no room, and may wrap around. */
  method DecodeNestedEntry(h: Heap, s: InStream, f: Field, size: nat, entries: seq<Cell>, ghost frame: multiset<nat>)
    returns (ok: bool, size': nat, entries': seq<Cell>)
    requires s.Valid() && HeapField(f) && Inline(f) && f.htype.Repeated?
    requires size <= PB_SIZE_MAX && f.arraySize == |entries| && OkItems(f, entries)
    requires h.Has(frame, CellIds(NestedMany(size, entries)))
    modifies h, s
    ensures s.Valid() && s.Advanced(ok)
    ensures size' == RaisedCount(size) && |entries'| == f.arraySize && OkItems(f, entries')
    ensures forall k | 0 <= k < f.arraySize && k != size :: entries'[k] == entries[k]
    ensures h.Has(frame, CellIds(NestedMany(size', entries')))
    ensures ok ==> size < f.arraySize
    ensures CountsFit(f.sub) && size < PB_SIZE_MAX && TidyEntries(f, size, entries) ==>
              h.Unadopted() && TidyEntries(f, size', entries')
    ensures ShapedCell(f, NestedMany(size, entries))
    ensures var c := NestedMany(size, entries);
            && (StopsCell(f, old(s.Rest()), c) ==>
                  && !ok && NestedMany(size', entries') == RaisedCell(f, old(s.Rest()), c)
                  && h.Spills(SpilledCell(f, old(s.Rest()), c)))
            && (PassesCell(f, old(s.Rest()), c) ==>
                  && ok && NestedMany(size', entries') == OneMore(f, c, NextEntry(f, c)) && h.Quiet()
                  && s.Rest() == ReadDelimited(old(s.Rest())).rest)
    ensures h.refusals >= old(h.refusals)
    ensures Verdict(ReadEntry(f, old(s.Rest()), size, EraseCells(entries)),
                    ok, EraseCell(NestedMany(size', entries')), s.Rest(), h.refusals > old(h.refusals))
    decreases f, 3
  {
    hide HeapTable, OkCells, Tidy, Ready, Clean, CountsFit, Ids, CellIds, HeapField, ReadDelimited, Stops, Raised,
         Shaped, DefaultCells, ReleasedCells, Spilled, FreedAfter, NeverRejects, NextEntry, StopsCell, RaisedCell,
         SpilledCell, PassesCell, Heap.Valid, EraseCell, ReadSub;
    EntryShaped(f, size, entries);
    HeapFieldKinds(f);
    size', entries' := RaisedCount(size), entries;
    if size >= f.arraySize {
      ghost var dropped := if size == PB_SIZE_MAX then CellIds(NestedMany(size, entries)) else multiset{};
      DroppedAtEnd(size, entries);
      NothingAdopted(h.lost);
      h.Lose(dropped, frame + CellIds(NestedMany(size', entries)));
      FullCase(f, s.Rest(), NestedMany(size, entries));
      return false, size', entries;
    }
    ok, entries' := DecodeNextEntry(h, s, f, size, entries, frame);
  }

  /** The same where there is room. */
  method DecodeNextEntry(h: Heap, s: InStream, f: Field, size: nat, entries: seq<Cell>, ghost frame: multiset<nat>)
    returns (ok: bool, entries': seq<Cell>)
    requires s.Valid() && HeapField(f) && Inline(f) && f.htype.Repeated?
    requires size < f.arraySize == |entries| <= PB_SIZE_MAX && OkItems(f, entries)
    requires h.Has(frame, CellIds(NestedMany(size, entries)))
    modifies h, s
    ensures s.Valid() && s.Advanced(ok)
    ensures |entries'| == f.arraySize && OkItems(f, entries')
    ensures forall k | 0 <= k < f.arraySize && k != size :: entries'[k] == entries[k]
    ensures h.Has(frame, CellIds(NestedMany(RaisedCount(size), entries')))
    ensures CountsFit(f.sub) && TidyEntries(f, size, entries) ==> h.Unadopted() && TidyEntries(f, size + 1, entries')
    ensures ShapedCell(f, NestedMany(size, entries))
    ensures var c := NestedMany(size, entries);
            && (StopsCell(f, old(s.Rest()), c) ==>
                  && !ok && NestedMany(RaisedCount(size), entries') == RaisedCell(f, old(s.Rest()), c)
                  && h.Spills(SpilledCell(f, old(s.Rest()), c)))
            && (PassesCell(f, old(s.Rest()), c) ==>
                  && ok && NestedMany(RaisedCount(size), entries') == OneMore(f, c, NextEntry(f, c)) && h.Quiet()
                  && s.Rest() == ReadDelimited(old(s.Rest())).rest)
    ensures h.refusals >= old(h.refusals)
    ensures Verdict(ReadEntry(f, old(s.Rest()), size, EraseCells(entries)),
                    ok, EraseCell(NestedMany(RaisedCount(size), entries')), s.Rest(), h.refusals > old(h.refusals))
    decreases f, 2
  {
    hide HeapTable, OkCells, Tidy, Ready, Clean, CountsFit, Ids, CellIds, HeapField, ReadDelimited, Stops, Raised,
         Shaped, DefaultCells, ReleasedCells, Spilled, FreedAfter, NeverRejects, NextEntry, StopsCell, RaisedCell,
         SpilledCell, PassesCell, OkItems, TidyEntries, Heap.Valid, EraseCell, ReadSub;
    EntryShaped(f, size, entries);
    EntryCases(f, s.Rest(), NestedMany(size, entries));
    var c := entries[size];
    ghost var rest := frame + CellIds(NestedMany(size, entries));
    var cells;
    ok, cells := DecodeSub(h, s, f, c.cells, rest);
    entries' := entries[size := Nested(cells)];
    ReplacedEntry(entries, size, Nested(cells));
    PutEntry(f, size, entries, cells);
    EraseUpdate(entries, size, Nested(cells));
    NestedErased(c, cells, RaisedCount(size), entries');
  }

  lemma NestedErased(c: Cell, cells: seq<Cell>, size: nat, entries: seq<Cell>)
    ensures c.Nested? ==> EraseCell(c) == Nested(EraseCells(c.cells))
    ensures EraseCell(Nested(cells)) == Nested(EraseCells(cells))
    ensures EraseCell(NestedMany(size, entries)) == NestedMany(size, EraseCells(entries))
  {
  }

  lemma PutEntry(f: Field, size: nat, entries: seq<Cell>, cells: seq<Cell>)
    requires f.ltype.Submessage? && size < |entries| && OkItems(f, entries) && OkCells(f.sub, cells)
    ensures OkItem(f, entries[size]) && OkItems(f, entries[size := Nested(cells)])
    ensures CellIds(Nested(cells)) == Ids(cells)
    ensures TidyEntries(f, size, entries) ==> Clean(f.sub, entries[size].cells) && NoIds(entries[size].cells)
    ensures TidyEntries(f, size, entries) && Tidy(f.sub, cells) ==>
              TidyEntries(f, size + 1, entries[size := Nested(cells)])
  {
    hide OkCells, Ids, Tidy, Clean;
    var r := entries[size := Nested(cells)];
    assert OkItem(f, Nested(cells)) && OkItem(f, entries[size]);
    if TidyEntries(f, size, entries) {
      assert TidyEntry(f, size, size, entries[size]);
      if Tidy(f.sub, cells) {
        forall k | 0 <= k < |r| ensures TidyEntry(f, size + 1, k, r[k]) {
          assert TidyEntry(f, size, k, entries[k]);
        }
      }
    }
  }

  lemma EntryShaped(f: Field, size: nat, entries: seq<Cell>)
    requires Inline(f) && f.htype.Repeated? && f.arraySize == |entries| && OkItems(f, entries)
    ensures ShapedCell(f, NestedMany(size, entries))
  {
  }

  lemma FullCase(f: Field, s: seq<byte>, c: Cell)
    requires HeapField(f) && Inline(f) && f.htype.Repeated? && ShapedCell(f, c) && c.size >= f.arraySize
    ensures !PassesCell(f, s, c) && StopsCell(f, s, c)
    ensures RaisedCell(f, s, c) == NestedMany(RaisedCount(c.size), c.entries) && SpilledCell(f, s, c) == multiset{}
  {
  }

  /** What becomes of the next entry of an array, in terms of the entry alone. */
  lemma EntryCases(f: Field, s: seq<byte>, c: Cell)
    requires HeapField(f) && Inline(f) && f.htype.Repeated? && ShapedCell(f, c) && c.size < f.arraySize
    ensures HeapTable(f.sub) && OkItem(f, c.entries[c.size]) && Shaped(f.sub, c.entries[c.size].cells)
    ensures var d, e := ReadDelimited(s), DefaultCells(f.sub, c.entries[c.size].cells);
            && e == NextEntry(f, c) && OkCells(f.sub, e) && Shaped(f.sub, e)
            && (PassesCell(f, s, c) ==> d.Done? && d.val == [] && NeverRejects(f.sub))
            && (StopsCell(f, s, c) ==> if d.Fail? then
                  && RaisedCell(f, s, c) == NestedMany(RaisedCount(c.size), c.entries)
                  && SpilledCell(f, s, c) == multiset{}
                else
                  && Stops(f.sub, d.val, e)
                  && OkCells(f.sub, ReleasedCells(f.sub, Raised(f.sub, d.val, e)))
                  && RaisedCell(f, s, c) == OneMore(f, c, ReleasedCells(f.sub, Raised(f.sub, d.val, e)))
                  && SpilledCell(f, s, c) == FreedAfter(f.sub, d.val, e))
  {
    hide ReadDelimited, Stops, Raised, Spilled, HeapTable, OkCells, Shaped, Ids, DefaultCells, ReleasedCells,
         NeverRejects;
    var item := c.entries[c.size];
    assert OkItem(f, item);
    SubOf(f);
    OkShaped(f.sub, item.cells);
    DefaultsShape(f.sub, item.cells);
    var d, e := ReadDelimited(s), NextEntry(f, c);
    if StopsCell(f, s, c) && d.Done? { ReleasedClean(f.sub, Raised(f.sub, d.val, e)); }
  }

  predicate TidyEntries(f: Field, size: nat, entries: seq<Cell>)
    requires f.ltype.Submessage?
  {
    forall k | 0 <= k < |entries| :: TidyEntry(f, size, k, entries[k])
  }

  lemma DroppedAtEnd(size: nat, entries: seq<Cell>)
    requires |entries| <= size <= PB_SIZE_MAX
    ensures CellIds(NestedMany(size, entries))
            == CellIds(NestedMany(RaisedCount(size), entries))
            + (if size == PB_SIZE_MAX then CellIds(NestedMany(size, entries)) else multiset{})
  {
    hide Ids, CellIds;
    VisibleIds(size, entries);
    VisibleIds(RaisedCount(size), entries);
    if size == PB_SIZE_MAX {
      assert entries[..0] == [];
      assert Ids([]) == multiset{} by { IdsEnds([]); }
    }
  }

  lemma ReplacedEntry(entries: seq<Cell>, size: nat, c: Cell)
    requires size < |entries| <= PB_SIZE_MAX
    ensures CellIds(NestedMany(RaisedCount(size), entries[size := c]))
            == CellIds(NestedMany(size, entries)) + CellIds(c)
  {
    hide Ids, CellIds;
    var r := entries[size := c];
    VisibleIds(size, entries);
    VisibleIds(RaisedCount(size), r);
    assert r[..size] == entries[..size];
    OneMoreEntry(r, size);
  }

  // ------------------------------------------------------------- messages

  /** pb_release_union_field: another member's block is released, and a selector that is no tag of the table
      is refused. */
  method ReleaseUnion(h: Heap, fields: seq<Field>, i: nat, c: Cell, ghost frame: multiset<nat>)
    returns (ok: bool, p: Block)
    requires HeapTable(fields) && i < |fields| && fields[i].htype.Oneof?
    requires OkCell(fields, Home(fields, i), c) && h.Has(frame, CellIds(c))
    modifies h
    ensures h.OnlyFreed() && (ok <==> c.PtrUnion?)
    ensures ok ==> h.Has(frame, BlockIds(p)) && (p.Live? ==> |p.contents| == 1 && OkItems(fields[i], p.contents))
    ensures !ok ==> c.PtrDead? && h.Has(frame, CellIds(c))
  {
    hide OkItems, Lookup, HeapField, Heap.Valid;
    LookupUnique(fields, i);
    UnionCounts(fields, i);
    HeapFieldKinds(fields[i]);
    p := c.u;
    if c.which != 0 && c.which != fields[i].tag {
      var previous := Lookup(fields, c.which);
      if previous == |fields| { return false, p; }
      UnionCounts(fields, previous);
      ReleaseBlock(h, fields[previous], p, frame);
      p := Null;
    }
    ok := true;
  }

  /** A record of a oneof: the union is released if it holds another member, and then the selector changes, even
      if decoding fails. */
  method DecodeUnion(h: Heap, s: InStream, fields: seq<Field>, i: nat, c: Cell, ghost frame: multiset<nat>)
    returns (ok: bool, c': Cell)
    requires s.Valid() && HeapTable(fields) && i < |fields| && fields[i].htype.Oneof?
    requires OkCell(fields, Home(fields, i), c) && h.Has(frame, CellIds(c))
    modifies h, s
    ensures s.Valid() && s.Advanced(ok)
    ensures OkCell(fields, Home(fields, i), c') && h.Has(frame, CellIds(c'))
    ensures CountsFit(fields) ==> h.Unadopted()
    ensures if c.PtrDead? then !ok && c' == c
            else c'.PtrUnion? && c'.which == fields[i].tag && (ok ==> c'.u.Live?)
    ensures HeapField(fields[i])
    ensures h.refusals >= old(h.refusals)
    ensures Verdict(ReadMember(fields[i], old(s.Rest()), EraseCell(c)), ok, EraseCell(c'), s.Rest(),
                    h.refusals > old(h.refusals))
    decreases fields, 0
  {
    hide OkItems, Lookup, HeapField, HeapTable, CountFits, CountsFit, Heap.Valid, ReadSingle, EraseBlock, BlockIds,
         OkCell;
    UnionCounts(fields, i);
    var p;
    ok, p := ReleaseUnion(h, fields, i, c, frame);
    if !ok { return false, c; }
    ok, p := DecodePointerSingular(h, s, fields[i], p, frame);
    c' := PtrUnion(fields[i].tag, p);
    MemberOk(fields, i, p);
  }

  lemma MemberOk(fields: seq<Field>, i: nat, p: Block)
    requires HeapTable(fields) && i < |fields| && fields[i].htype.Oneof?
    requires p.Live? ==> |p.contents| == 1 && OkItems(fields[i], p.contents)
    ensures OkCell(fields, Home(fields, i), PtrUnion(fields[i].tag, p))
  {
    hide OkItems, Lookup;
    LookupUnique(fields, i);
    assert HeapField(fields[i]);
  }

  lemma UnionCounts(fields: seq<Field>, i: nat)
    requires HeapTable(fields) && i < |fields|
    ensures HeapField(fields[i]) && (CountsFit(fields) ==> CountFits(fields[i]))
  {
  }

  lemma HeapFieldKinds(f: Field)
    requires HeapField(f)
    ensures f.tag != 0 && f.arraySize <= PB_SIZE_MAX
  {
  }

  /** The visible effect of one record: the selector names the member, success leaves a pointer set,
      an array entry raises the count even if it fails. */
  predicate Attempted(f: Field, c: Cell, c': Cell, ok: bool) {
    && (f.htype.Oneof? ==> if c.PtrDead? then !ok && c' == c
                           else c'.PtrUnion? && c'.which == f.tag && (ok ==> c'.u.Live?))
    && (!f.htype.Oneof? && !f.htype.Repeated? && f.atype.Pointer? ==> c'.Ptr? && (ok ==> c'.p.Live?))
    && (f.htype.Repeated? && f.atype.Pointer? && !Packable(f.ltype) ==>
          c.PtrMany? && c'.PtrMany? && (c'.len == c.len + 1 || (!ok && c' == c)))
    && (f.htype.Repeated? && f.atype.Static? && f.ltype.Submessage? ==>
          c.NestedMany? && c'.NestedMany? && c'.size == RaisedCount(c.size))
  }

  /** The cell of an inline row, as far as deciding what a record does to it demands. */
  predicate InlineOutcome(fields: seq<Field>, i: nat, s: seq<byte>, c: Cell)
    requires i < |fields| && Inline(fields[i])
  {
    && HeapField(fields[i]) && ShapedCell(fields[i], c)
    && (!fields[i].htype.Repeated? ==> OkCells(fields[i].sub, c.cells))
  }

  /** Decodes one record of field i into the cell that holds its data. */
  method DecodeField(h: Heap, s: InStream, fields: seq<Field>, i: nat, wireType: nat, c: Cell, counter: nat,
                     ghost frame: multiset<nat>)
    returns (ok: bool, c': Cell, counter': nat)
    requires s.Valid() && HeapTable(fields) && i < |fields|
    requires OkCell(fields, Home(fields, i), c) && h.Has(frame, CellIds(c))
    modifies h, s
    ensures s.Valid() && s.Advanced(ok)
    ensures OkCell(fields, Home(fields, i), c') && h.Has(frame, CellIds(c'))
    ensures Attempted(fields[i], c, c', ok)
    ensures CountsFit(fields) && TidyCell(fields[Home(fields, i)], c) && ReadyCell(fields[Home(fields, i)], c) ==>
              h.Unadopted() && TidyCell(fields[Home(fields, i)], c') && (ok ==> ReadyCell(fields[Home(fields, i)], c'))
    ensures Inline(fields[i]) ==> InlineOutcome(fields, i, old(s.Rest()), c)
    ensures Inline(fields[i]) && StopsCell(fields[i], old(s.Rest()), c) ==>
              && !ok && c' == RaisedCell(fields[i], old(s.Rest()), c)
              && h.Spills(SpilledCell(fields[i], old(s.Rest()), c))
    ensures Inline(fields[i]) && PassesCell(fields[i], old(s.Rest()), c) ==>
              && ok && c' == OneMore(fields[i], c, NextEntry(fields[i], c)) && h.Quiet()
              && s.Rest() == ReadDelimited(old(s.Rest())).rest
    ensures h.refusals >= old(h.refusals)
    ensures HeapField(fields[i])
    ensures Verdict(ReadField(fields[i], wireType, old(s.Rest()), EraseCell(c), counter),
                    ok, Outcome(EraseCell(c'), counter'), s.Rest(), h.refusals > old(h.refusals))
    decreases fields, 1
  {
    hide OkItems, OkCells, OkMany, Lookup, HeapField, CountFits, Ids, BlockIds, Ready, Tidy, ReadDelimited, Stops,
         Raised, Shaped, Heap.Valid, ReadMember, ReadMany, ReadSingle, ReadScalars, ReadEntry, ReadSub, EraseBlock,
         Counting;
    var f := fields[i];
    counter' := counter;
    assert HeapField(f);
    assert CountsFit(fields) ==> CountFits(f);
    if f.htype.Oneof? {
      ok, c' := DecodeUnion(h, s, fields, i, c, frame);
    } else if f.atype.Pointer? && f.htype.Repeated? {
      var len, p;
      ok, len, p := DecodePointerRepeated(h, s, f, wireType, c.len, c.items, frame);
      c' := PtrMany(len, p);
    } else if f.atype.Pointer? {
      var p;
      ok, p := DecodePointerSingular(h, s, f, c.p, frame);
      c' := Ptr(p);
    } else {
      ok, c', counter' := DecodeInline(h, s, fields, i, wireType, c, counter, frame);
    }
  }

  /** A record of static data. */
  method DecodeInline(h: Heap, s: InStream, fields: seq<Field>, i: nat, wireType: nat, c: Cell, counter: nat,
                      ghost frame: multiset<nat>)
    returns (ok: bool, c': Cell, counter': nat)
    requires s.Valid() && i < |fields| && HeapField(fields[i]) && !fields[i].htype.Oneof? && !fields[i].atype.Pointer?
    requires OkCell(fields, i, c) && h.Has(frame, CellIds(c))
    modifies h, s
    ensures s.Valid() && s.Advanced(ok)
    ensures OkCell(fields, i, c') && h.Has(frame, CellIds(c'))
    ensures Attempted(fields[i], c, c', ok)
    ensures CountFits(fields[i]) && TidyCell(fields[i], c) && ReadyCell(fields[i], c) ==>
              h.Unadopted() && TidyCell(fields[i], c') && (ok ==> ReadyCell(fields[i], c'))
    ensures Inline(fields[i]) ==> InlineOutcome(fields, i, old(s.Rest()), c)
    ensures Inline(fields[i]) && StopsCell(fields[i], old(s.Rest()), c) ==>
              && !ok && c' == RaisedCell(fields[i], old(s.Rest()), c)
              && h.Spills(SpilledCell(fields[i], old(s.Rest()), c))
    ensures Inline(fields[i]) && PassesCell(fields[i], old(s.Rest()), c) ==>
              && ok && c' == OneMore(fields[i], c, NextEntry(fields[i], c)) && h.Quiet()
              && s.Rest() == ReadDelimited(old(s.Rest())).rest
    ensures h.refusals >= old(h.refusals)
    ensures HeapField(fields[i])
    ensures Verdict(ReadField(fields[i], wireType, old(s.Rest()), EraseCell(c), counter),
                    ok, Outcome(EraseCell(c'), counter'), s.Rest(), h.refusals > old(h.refusals))
    decreases fields[i], 4
  {
    hide OkItems, OkCells, OkMany, Ids, Ready, Tidy, ReadDelimited, Stops, Raised, Shaped, HeapTable, Clean,
         CountsFit, Heap.Valid, ReadStatic, ReadEntry, ReadSub, EraseCells;
    var f := fields[i];
    counter' := counter;
    if !f.ltype.Submessage? {
      c' := c;
      var n;
      if c.Count? {
        ok, n := DecodeStaticData(s, f, wireType, c.n);
        c' := Count(n);
      } else {
        ok, counter' := DecodeStaticData(s, f, wireType, counter);
      }
    } else if f.htype.Repeated? {
      var size, entries;
      ok, size, entries := DecodeNestedEntry(h, s, f, c.size, c.entries, frame);
      c' := NestedMany(size, entries);
    } else {
      var cells;
      assert OkItem(f, c);
      ok, cells := DecodeSub(h, s, f, c.cells, frame);
      c' := Nested(cells);
    }
  }

  /** One record of a known field, into the cell of its home. */
  method DecodeInPlace(h: Heap, s: InStream, fields: seq<Field>, i: nat, wireType: nat, cells: seq<Cell>,
                       counter: nat, ghost frame: multiset<nat>)
    returns (ok: bool, cells': seq<Cell>, counter': nat)
    requires s.Valid() && HeapTable(fields) && OkCells(fields, cells) && i < |fields|
    requires h.Has(frame, Ids(cells))
    modifies h, s
    ensures s.Valid() && s.Advanced(ok)
    ensures OkCells(fields, cells') && h.Has(frame, Ids(cells'))
    ensures CountsFit(fields) && Tidy(fields, cells) && Ready(fields, cells) ==>
              h.Unadopted() && Tidy(fields, cells') && (ok ==> Ready(fields, cells'))
    ensures |cells| == |fields| && (Inline(fields[i]) ==> InlineOutcome(fields, i, old(s.Rest()), cells[i]))
    ensures Inline(fields[i]) && StopsCell(fields[i], old(s.Rest()), cells[i]) ==>
              && !ok && cells' == cells[i := RaisedCell(fields[i], old(s.Rest()), cells[i])]
              && h.Spills(SpilledCell(fields[i], old(s.Rest()), cells[i]))
    ensures Inline(fields[i]) && PassesCell(fields[i], old(s.Rest()), cells[i]) ==>
              && ok && cells' == cells[i := OneMore(fields[i], cells[i], NextEntry(fields[i], cells[i]))] && h.Quiet()
              && s.Rest() == ReadDelimited(old(s.Rest())).rest
    ensures h.refusals >= old(h.refusals)
    ensures HeapField(fields[i])
    ensures var home, r := Home(fields, i), ReadField(fields[i], wireType, old(s.Rest()),
                                                      EraseCells(cells)[Home(fields, i)], counter);
            if ok then
              && r.Done? && h.refusals == old(h.refusals) && s.Rest() == r.rest && counter' == r.val.counter
              && EraseCells(cells') == EraseCells(cells)[home := r.val.cell]
            else r.Fail? || h.refusals > old(h.refusals)
    decreases fields, 2
  {
    hide HeapTable, OkCells, Ready, Tidy, CountsFit, Shaped, Ids, OkCell, ReadyCell, TidyCell, ShapedCell, StopsCell,
         RaisedCell, CellIds, Others, Attempted, Heap.Valid, ReadField, EraseCell;
    var home := Home(fields, i);
    TakeCell(fields, cells, home);
    var c;
    ok, c, counter' := DecodeField(h, s, fields, i, wireType, cells[home], counter, frame + Others(cells, home));
    PutCell(fields, cells, home, c);
    EraseUpdate(cells, home, c);
    cells' := cells[home := c];
  }

  /** A record of a known row: fixed-count arrays must be completed one after the other, required rows are
      marked, and the record is decoded. */
  method DecodeKnown(h: Heap, s: InStream, fields: seq<Field>, i: nat, wireType: nat, cells: seq<Cell>,
                     seen: set<nat>, fixedAt: int, fixedCount: nat, ghost frame: multiset<nat>)
    returns (ok: bool, cells': seq<Cell>, seen': set<nat>, fixedAt': int, fixedCount': nat)
    requires s.Valid() && HeapTable(fields) && OkCells(fields, cells) && i < |fields| && -1 <= fixedAt < |fields|
    requires h.Has(frame, Ids(cells))
    modifies h, s
    ensures s.Valid() && s.Advanced(ok) && -1 <= fixedAt' < |fields|
    ensures OkCells(fields, cells') && h.Has(frame, Ids(cells'))
    ensures CountsFit(fields) && Tidy(fields, cells) && Ready(fields, cells) ==>
              h.Unadopted() && Tidy(fields, cells') && (ok ==> Ready(fields, cells'))
    ensures |cells| == |fields| && (Inline(fields[i]) ==> InlineOutcome(fields, i, old(s.Rest()), cells[i]))
    ensures Inline(fields[i]) && StopsCell(fields[i], old(s.Rest()), cells[i]) ==>
              && !ok && cells' == cells[i := RaisedCell(fields[i], old(s.Rest()), cells[i])]
              && h.Spills(SpilledCell(fields[i], old(s.Rest()), cells[i]))
    ensures Inline(fields[i]) && PassesCell(fields[i], old(s.Rest()), cells[i]) ==>
              && ok && cells' == cells[i := OneMore(fields[i], cells[i], NextEntry(fields[i], cells[i]))] && h.Quiet()
              && s.Rest() == ReadDelimited(old(s.Rest())).rest
    ensures h.refusals >= old(h.refusals)
    ensures Verdict(ReadKnown(fields, i, wireType, old(s.Rest()),
                              HeapCursor(EraseCells(cells), seen, fixedAt, fixedCount)),
                    ok, HeapCursor(EraseCells(cells'), seen', fixedAt', fixedCount'), s.Rest(),
                    h.refusals > old(h.refusals))
    decreases fields, 3
  {
    hide HeapTable, OkCells, Ready, Tidy, CountsFit, Shaped, Ids, OkCell, ReadyCell, TidyCell, ShapedCell, StopsCell,
         RaisedCell, SpilledCell, PassesCell, OneMore, NextEntry, CellIds, Others, Attempted, Heap.Valid, ReadField,
         EraseCell, HeapField;
    InlineCounted(fields, i, cells);
    cells', seen', fixedAt', fixedCount' := cells, seen, fixedAt, fixedCount;
    if fields[i].FixedCount() && fixedAt != i {
      if fixedAt != -1 && fixedCount != fields[fixedAt].arraySize {
        return false, cells', seen', fixedAt', fixedCount';
      }
      fixedAt', fixedCount' := i, 0;
    }
    if fields[i].htype.Required? { seen' := seen + {i}; }
    ok, cells', fixedCount' := DecodeInPlace(h, s, fields, i, wireType, cells, fixedCount', frame);
  }

  lemma InlineCounted(fields: seq<Field>, i: nat, cells: seq<Cell>)
    requires HeapTable(fields) && OkCells(fields, cells) && i < |fields|
    ensures |cells| == |fields| && (Inline(fields[i]) ==> !fields[i].FixedCount())
    ensures Inline(fields[i]) ==> InlineOutcome(fields, i, [], cells[i])
  {
    hide OkCells, OkCell, Shaped, ShapedCell;
    assert HeapField(fields[i]);
    OkShaped(fields, cells);
    if Inline(fields[i]) { InlineCell(fields, i, cells); }
    SameLength(fields, cells);
  }

  lemma SameLength(fields: seq<Field>, cells: seq<Cell>)
    requires OkCells(fields, cells)
    ensures |cells| == |fields|
  {
  }

  /** One record after its key: a row's, one that is skipped, or the terminator's of an empty table. */
  method DecodeRecord(h: Heap, s: InStream, fields: seq<Field>, tag: nat, wireType: nat, cells: seq<Cell>,
                      seen: set<nat>, fixedAt: int, fixedCount: nat, ghost frame: multiset<nat>)
    returns (ok: bool, cells': seq<Cell>, seen': set<nat>, fixedAt': int, fixedCount': nat)
    requires s.Valid() && HeapTable(fields) && OkCells(fields, cells) && -1 <= fixedAt < |fields|
    requires h.Has(frame, Ids(cells))
    modifies h, s
    ensures s.Valid() && s.Advanced(ok) && -1 <= fixedAt' < |fields|
    ensures OkCells(fields, cells') && h.Has(frame, Ids(cells'))
    ensures CountsFit(fields) && Tidy(fields, cells) && Ready(fields, cells) ==>
              h.Unadopted() && Tidy(fields, cells') && (ok ==> Ready(fields, cells'))
    ensures |cells| == |fields|
    ensures var i := Lookup(fields, tag);
            i < |fields| && Inline(fields[i]) ==>
              && InlineOutcome(fields, i, old(s.Rest()), cells[i])
              && (StopsCell(fields[i], old(s.Rest()), cells[i]) ==>
                    && !ok && cells' == cells[i := RaisedCell(fields[i], old(s.Rest()), cells[i])]
                    && h.Spills(SpilledCell(fields[i], old(s.Rest()), cells[i])))
              && (PassesCell(fields[i], old(s.Rest()), cells[i]) ==>
                    && ok && cells' == cells[i := OneMore(fields[i], cells[i], NextEntry(fields[i], cells[i]))]
                    && h.Quiet() && s.Rest() == ReadDelimited(old(s.Rest())).rest)
    ensures h.refusals >= old(h.refusals)
    ensures Verdict(ReadRecord(fields, tag, wireType, old(s.Rest()),
                               HeapCursor(EraseCells(cells), seen, fixedAt, fixedCount)),
                    ok, HeapCursor(EraseCells(cells'), seen', fixedAt', fixedCount'), s.Rest(),
                    h.refusals > old(h.refusals))
    decreases fields, 4
  {
    hide HeapTable, OkCells, Ready, Tidy, CountsFit, Ids, StopsCell, RaisedCell, SpilledCell, PassesCell, OneMore,
         NextEntry, Inline, InlineOutcome, Varint32, ReadDelimited, Skip, Lookup, Heap.Valid, EraseCells, ReadKnown;
    SameLength(fields, cells);
    cells', seen', fixedAt', fixedCount' := cells, seen, fixedAt, fixedCount;
    var i := Lookup(fields, tag);
    if fields == [] && tag == 0 {
      var ignored;
      ok, ignored := s.DecodeVarint32();
    } else if i == |fields| {
      ok := s.SkipField(wireType);
    } else {
      ok, cells', seen', fixedAt', fixedCount' :=
        DecodeKnown(h, s, fields, i, wireType, cells, seen, fixedAt, fixedCount, frame);
    }
  }

  /** The loop over records, up to the end of the bytes or a zero key. */
  method DecodeRecords(h: Heap, s: InStream, fields: seq<Field>, cells: seq<Cell>, ghost frame: multiset<nat>)
    returns (ok: bool, cells': seq<Cell>, seen: set<nat>, fixedAt: int, fixedCount: nat)
    requires s.Valid() && HeapTable(fields) && OkCells(fields, cells)
    requires h.Has(frame, Ids(cells))
    modifies h, s
    ensures s.Valid() && s.Advanced(ok) && -1 <= fixedAt < |fields|
    ensures OkCells(fields, cells') && h.Has(frame, Ids(cells'))
    ensures CountsFit(fields) && Tidy(fields, cells) && Ready(fields, cells) ==>
              h.Unadopted() && Tidy(fields, cells') && (ok ==> Ready(fields, cells'))
    ensures Shaped(fields, cells)
    ensures Stops(fields, old(s.Rest()), cells) ==>
              && !ok && cells' == Raised(fields, old(s.Rest()), cells)
              && h.Spills(Spilled(fields, old(s.Rest()), cells))
    ensures old(s.Rest()) == [] ==> ok && cells' == cells && h.Quiet() && seen == {} && fixedAt == -1
    ensures h.refusals >= old(h.refusals)
    ensures Verdict(ReadLoop(fields, old(s.Rest()), HeapCursor(EraseCells(cells), {}, -1, 0)),
                    ok, HeapCursor(EraseCells(cells'), seen, fixedAt, fixedCount), s.Rest(),
                    h.refusals > old(h.refusals))
    decreases fields, 5
  {
    hide HeapTable, OkCells, Ready, Tidy, CountsFit, Shaped, Ids, StopsCell, RaisedCell, SpilledCell, PassesCell,
         OneMore, NextEntry, Stops, Raised, Spilled, Inline, InlineOutcome, Varint32, ReadDelimited, Lookup, Home,
         Heap.Valid, EraseCells, ReadRecord, ReadLoop;
    OkShaped(fields, cells);
    ghost var stops := Stops(fields, s.Rest(), cells);
    ghost var raised := if stops then Raised(fields, s.Rest(), cells) else [];
    ghost var spilled := if stops then Spilled(fields, s.Rest(), cells) else multiset{};
    cells', seen, fixedAt, fixedCount := cells, {}, -1, 0;
    while s.bytesLeft > 0
      invariant s.Valid() && s.Limit() == old(s.Limit()) && s.bytesLeft <= old(s.bytesLeft)
      invariant -1 <= fixedAt < |fields| && h.refusals == old(h.refusals)
      invariant ReadLoop(fields, old(s.Rest()), HeapCursor(EraseCells(cells), {}, -1, 0))
             == ReadLoop(fields, s.Rest(), HeapCursor(EraseCells(cells'), seen, fixedAt, fixedCount))
      invariant OkCells(fields, cells') && h.Has(frame, Ids(cells'))
      invariant CountsFit(fields) && Tidy(fields, cells) && Ready(fields, cells) ==>
                  h.Unadopted() && Tidy(fields, cells') && Ready(fields, cells')
      invariant Shaped(fields, cells')
      invariant stops ==>
                  && Stops(fields, s.Rest(), cells') && Raised(fields, s.Rest(), cells') == raised
                  && Spilled(fields, s.Rest(), cells') == spilled && h.Quiet()
      invariant old(s.Rest()) == [] ==> cells' == cells && h.Quiet() && s.Rest() == [] && seen == {} && fixedAt == -1
      decreases s.bytesLeft
    {
      ReadLoopUnfolds(fields, s.Rest(), HeapCursor(EraseCells(cells'), seen, fixedAt, fixedCount));
      if stops { NextStops(fields, s.Rest(), cells'); }
      var wireType, tag, eof;
      ok, wireType, tag, eof := s.DecodeTag();
      if !ok {
        if eof {
          ok := true;
          return;
        }
        return;
      }
      ok, cells', seen, fixedAt, fixedCount :=
        DecodeRecord(h, s, fields, tag, wireType, cells', seen, fixedAt, fixedCount, frame);
      if !ok { return; }
      OkShaped(fields, cells');
    }
    assert s.Rest() == [];
    NothingStops(fields, cells');
    ReadLoopUnfolds(fields, [], HeapCursor(EraseCells(cells'), seen, fixedAt, fixedCount));
    ok := true;
  }

  /** pb_decode_noinit: whatever the input and the struct, the ledger balances. A tidy struct with counts
      that cannot wrap adopts and loses nothing. An input that stops at a count only raises it. Unless the
      allocator refuses, success and the resulting struct are those of ReadMsg. */
  method DecodeNoinit(h: Heap, s: InStream, fields: seq<Field>, cells: seq<Cell>, ghost frame: multiset<nat>)
    returns (ok: bool, cells': seq<Cell>)
    requires s.Valid() && HeapTable(fields) && OkCells(fields, cells)
    requires h.Has(frame, Ids(cells))
    modifies h, s
    ensures s.Valid() && s.Advanced(ok)
    ensures OkCells(fields, cells') && h.Has(frame, Ids(cells'))
    ensures CountsFit(fields) && Tidy(fields, cells) && Ready(fields, cells) ==>
              h.Unadopted() && Tidy(fields, cells') && (ok ==> Ready(fields, cells'))
    ensures Shaped(fields, cells)
    ensures Stops(fields, old(s.Rest()), cells) ==>
              && !ok && cells' == Raised(fields, old(s.Rest()), cells)
              && h.Spills(Spilled(fields, old(s.Rest()), cells))
    ensures old(s.Rest()) == [] && NeverRejects(fields) ==> ok && cells' == cells && h.Quiet()
    ensures h.refusals >= old(h.refusals)
    ensures Verdict(ReadMsg(fields, old(s.Rest()), EraseCells(cells)), ok, EraseCells(cells'), s.Rest(),
                    h.refusals > old(h.refusals))
    decreases fields, 6
  {
    hide HeapTable, OkCells, Ready, Tidy, CountsFit, Shaped, Ids, Stops, Raised, Spilled, NeverRejects, Heap.Valid,
         EraseCells, ReadLoop, RequiredSeen, FixedDone;
    var seen, fixedAt, fixedCount;
    ok, cells', seen, fixedAt, fixedCount := DecodeRecords(h, s, fields, cells, frame);
    if NeverRejects(fields) { NothingRequired(fields); }
    ok := ok && FixedDone(fields, fixedAt, fixedCount) && RequiredSeen(fields, seen);
  }

  lemma NothingRequired(fields: seq<Field>)
    requires NeverRejects(fields)
    ensures RequiredSeen(fields, {}) && forall n: nat {:trigger FixedDone(fields, -1, n)} :: FixedDone(fields, -1, n)
  {
  }

  lemma ReadLoopUnfolds(fields: seq<Field>, s: seq<byte>, c: HeapCursor)
    requires HeapTable(fields)
    ensures s == [] ==> ReadLoop(fields, s, c) == Done(c, [])
    ensures s != [] ==>
              var key := Varint32(s);
              && (key.Fail? ==> ReadLoop(fields, s, c) == Fail)
              && (key.Done? && key.val == 0 ==> ReadLoop(fields, s, c) == Done(c, key.rest))
              && (key.Done? && key.val != 0 ==>
                    var r := ReadRecord(fields, key.val / 8, key.val % 8, key.rest, c);
                    ReadLoop(fields, s, c) == if r.Done? then ReadLoop(fields, r.rest, r.val) else Fail)
  {
    hide Varint32, ReadRecord, HeapTable;
  }

  /** What is left to do where the loop stands. */
  lemma NextStops(fields: seq<Field>, s: seq<byte>, cells: seq<Cell>)
    requires HeapTable(fields) && OkCells(fields, cells) && Shaped(fields, cells) && Stops(fields, s, cells)
    ensures Varint32(s).Done? && Varint32(s).val != 0
    ensures var i, rest := Lookup(fields, Varint32(s).val / 8), Varint32(s).rest;
            && i < |fields| && Inline(fields[i]) && InlineOutcome(fields, i, rest, cells[i]) && |cells| == |fields|
            && Home(fields, i) == i
            && (if StopsCell(fields[i], rest, cells[i]) then
                  && Raised(fields, s, cells) == cells[i := RaisedCell(fields[i], rest, cells[i])]
                  && Spilled(fields, s, cells) == SpilledCell(fields[i], rest, cells[i])
                else
                  && PassesCell(fields[i], rest, cells[i])
                  && var next := cells[i := OneMore(fields[i], cells[i], NextEntry(fields[i], cells[i]))];
                  && OkCells(fields, next) && Shaped(fields, next)
                  && Stops(fields, ReadDelimited(rest).rest, next)
                  && Raised(fields, s, cells) == Raised(fields, ReadDelimited(rest).rest, next)
                  && Spilled(fields, s, cells) == Spilled(fields, ReadDelimited(rest).rest, next))
  {
    hide HeapField, HeapTable, OkCells, Shaped, ShapedCell, StopsCell, RaisedCell, SpilledCell, OneMore, NextEntry,
         Varint32, ReadDelimited;
    var i, rest := Lookup(fields, Varint32(s).val / 8), Varint32(s).rest;
    InlineCell(fields, i, cells);
    if !StopsCell(fields[i], rest, cells[i]) {
      CellPut(fields, i, cells, OneMore(fields[i], cells[i], NextEntry(fields[i], cells[i])));
    }
  }

  lemma NothingStops(fields: seq<Field>, cells: seq<Cell>)
    requires HeapTable(fields) && Shaped(fields, cells)
    ensures !Stops(fields, [], cells)
  {
  }

  lemma TakeCell(fields: seq<Field>, cells: seq<Cell>, i: nat)
    requires HeapTable(fields) && OkCells(fields, cells) && i < |fields|
    ensures |cells| == |fields| && OkCell(fields, i, cells[i])
    ensures Shaped(fields, cells) && ShapedCell(fields[i], cells[i])
    ensures Tidy(fields, cells) ==> TidyCell(fields[i], cells[i])
    ensures Ready(fields, cells) ==> ReadyCell(fields[i], cells[i])
    ensures Ids(cells) == Others(cells, i) + CellIds(cells[i])
  {
    OkShaped(fields, cells);
    OthersSplit(cells, i, cells[i]);
  }

  lemma PutOk(fields: seq<Field>, cells: seq<Cell>, i: nat, c: Cell)
    requires OkCells(fields, cells) && i < |fields| && OkCell(fields, i, c)
    ensures OkCells(fields, cells[i := c])
  {
    hide OkCell;
    var r := cells[i := c];
    forall k | 0 <= k < |fields| ensures OkCell(fields, k, r[k]) {
      assert OkCell(fields, k, cells[k]);
    }
  }

  lemma PutTidy(fields: seq<Field>, cells: seq<Cell>, i: nat, c: Cell)
    requires Tidy(fields, cells) && i < |fields| && TidyCell(fields[i], c)
    ensures Tidy(fields, cells[i := c])
  {
    hide TidyCell;
    var r := cells[i := c];
    forall k | 0 <= k < |fields| ensures TidyCell(fields[k], r[k]) {
      assert TidyCell(fields[k], cells[k]);
    }
  }

  lemma PutReady(fields: seq<Field>, cells: seq<Cell>, i: nat, c: Cell)
    requires Ready(fields, cells) && i < |fields| && ReadyCell(fields[i], c)
    ensures Ready(fields, cells[i := c])
  {
    hide ReadyCell;
    var r := cells[i := c];
    forall k | 0 <= k < |fields| ensures ReadyCell(fields[k], r[k]) {
      assert ReadyCell(fields[k], cells[k]);
    }
  }

  lemma PutCell(fields: seq<Field>, cells: seq<Cell>, i: nat, c: Cell)
    requires OkCells(fields, cells) && i < |fields| && |cells| == |fields| && OkCell(fields, i, c)
    ensures OkCells(fields, cells[i := c])
    ensures Tidy(fields, cells) && TidyCell(fields[i], c) ==> Tidy(fields, cells[i := c])
    ensures Ready(fields, cells) && ReadyCell(fields[i], c) ==> Ready(fields, cells[i := c])
    ensures Ids(cells[i := c]) == Others(cells, i) + CellIds(c)
  {
    hide OkCell, ReadyCell, TidyCell, OkCells, Tidy, Ready, Ids, CellIds;
    OthersSplit(cells, i, c);
    PutOk(fields, cells, i, c);
    if Tidy(fields, cells) && TidyCell(fields[i], c) { PutTidy(fields, cells, i, c); }
    if Ready(fields, cells) && ReadyCell(fields[i], c) { PutReady(fields, cells, i, c); }
  }

  /** pb_decode: sets the struct to its defaults, decodes, and releases everything if that failed. */
  method DecodeMessage(h: Heap, s: InStream, fields: seq<Field>, cells: seq<Cell>, ghost frame: multiset<nat>)
    returns (ok: bool, cells': seq<Cell>)
    requires s.Valid() && HeapTable(fields) && Shaped(fields, cells)
    requires h.Has(frame, multiset{})
    modifies h, s
    ensures s.Valid() && s.Advanced(ok)
    ensures OkCells(fields, cells') && h.Has(frame, Ids(cells'))
    ensures !ok ==> NoIds(cells') && ReleasedCells(fields, cells') == cells'
    ensures CountsFit(fields) && Clean(fields, cells) ==>
              h.Unadopted() && Tidy(fields, cells') && (if ok then Ready(fields, cells') else Clean(fields, cells'))
    ensures var e := DefaultCells(fields, cells); OkCells(fields, e) && Shaped(fields, e)
    ensures var e := DefaultCells(fields, cells);
            Stops(fields, old(s.Rest()), e) ==>
              && !ok && cells' == ReleasedCells(fields, Raised(fields, old(s.Rest()), e))
              && h.Spills(FreedAfter(fields, old(s.Rest()), e))
    ensures old(s.Rest()) == [] && NeverRejects(fields) ==> ok && cells' == DefaultCells(fields, cells) && h.Quiet()
    ensures h.refusals >= old(h.refusals)
    ensures Verdict(ReadMsg(fields, old(s.Rest()), DefaultCells(fields, EraseCells(cells))), ok, EraseCells(cells'),
                    s.Rest(), h.refusals > old(h.refusals))
    decreases fields, 7
  {
    hide HeapTable, OkCells, Ready, Tidy, Clean, Shaped, CountsFit, Ids, DefaultCells, ReleasedCells, Stops, Raised,
         Spilled, NeverRejects, Heap.Valid, ReadMsg, EraseCells;
    DefaultsShape(fields, cells);
    EraseDefaults(fields, cells);
    cells' := DefaultCells(fields, cells);
    OkShaped(fields, cells');
    ok, cells' := DecodeNoinit(h, s, fields, cells', frame);
    if !ok {
      ghost var before := cells';
      ReleasedClean(fields, cells');
      cells' := ReleaseMessage(h, fields, cells', frame);
      if Tidy(fields, before) {
        ReleasedTidy(fields, before);
        CleanTidy(fields, cells');
      }
    }
  }

  /** Decoding and then releasing twice. Whatever the struct held, what is freed is what was allocated
      and adopted, no pointer is left, and the second release changes nothing. If the struct was clean
      and no count can wrap around, the blocks in use afterwards are exactly the earlier ones. */
  method DecodeAndRelease(h: Heap, s: InStream, fields: seq<Field>, cells: seq<Cell>, ghost frame: multiset<nat>)
    returns (ok: bool, decoded: seq<Cell>, once: seq<Cell>, twice: seq<Cell>)
    requires h.Has(frame, multiset{}) && s.Valid() && HeapTable(fields) && Shaped(fields, cells)
    modifies h, s
    ensures h.Has(frame, multiset{})
    ensures OkCells(fields, decoded) && once == ReleasedCells(fields, decoded) == twice && NoIds(once)
    ensures !ok ==> decoded == once
    ensures s.Valid() && h.refusals >= old(h.refusals)
    ensures Verdict(ReadMsg(fields, old(s.Rest()), DefaultCells(fields, EraseCells(cells))), ok, EraseCells(decoded),
                    s.Rest(), h.refusals > old(h.refusals))
    ensures CountsFit(fields) && Clean(fields, cells) ==>
              h.Unadopted() && Clean(fields, once) && (old(h.adopted) == multiset{} ==> h.live == old(h.live))
  {
    hide HeapTable, OkCells, Ready, Tidy, Clean, Shaped, CountsFit, Ids, ReleasedCells, DefaultCells, Stops, Raised,
         Heap.Valid, ReadMsg, EraseCells;
    ghost var balanced, before, lost := h.adopted == multiset{}, h.live, h.lost;
    if balanced { LiveIsHeld(h, frame); }
    ok, decoded := DecodeMessage(h, s, fields, cells, frame);
    if Tidy(fields, decoded) { ReleasedTidy(fields, decoded); }
    once := ReleaseMessage(h, fields, decoded, frame);
    ReleasedClean(fields, decoded);
    twice := ReleaseMessage(h, fields, once, frame);
    if balanced && h.adopted == multiset{} && h.lost == lost {
      LiveIsHeld(h, frame);
      SameBlocks(h.live, before);
    }
  }

  /** While nothing was adopted, the blocks in use are those held and those lost. */
  lemma LiveIsHeld(h: Heap, held: multiset<nat>)
    requires h.Has(held, multiset{}) && h.adopted == multiset{}
    ensures multiset(h.live) == h.lost + held
  {
    forall x: nat ensures multiset(h.live)[x] == (h.lost + held)[x] {
      assert (h.made + h.adopted)[x] == (h.freed + h.lost + h.held)[x];
      assert h.made[x] == (h.freed + multiset(h.live))[x];
    }
  }

  lemma SameBlocks(a: set<nat>, b: set<nat>)
    requires multiset(a) == multiset(b)
    ensures a == b
  {
    forall x: nat ensures x in a <==> x in b {
      assert x in multiset(a) <==> x in multiset(b);
    }
  }
}
