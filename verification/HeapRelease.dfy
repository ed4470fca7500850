/** Releasing what a struct owns. */
module HeapRelease {
  import opened Descriptors
  import opened HeapModel

  /** The allocator, with a ledger of what was allocated and freed. Two more accounts take what does not
      balance: stale pointers that became reachable without being set, and blocks that a wrapped count
      made unreachable. */
  class Heap {
    var live: set<nat>
    var next: nat
    ghost var made: multiset<nat>
    ghost var freed: multiset<nat>
    ghost var adopted: multiset<nat>
    ghost var lost: multiset<nat>
    ghost var held: multiset<nat>
    ghost var refusals: nat // how often the allocator had no memory

    /** What was made or adopted and neither freed nor lost is held. As long as nothing was adopted, the
        blocks in use are those made and not freed, and no block was freed twice. */
    ghost predicate Valid()
      reads this
    {
      && (forall id | id in live :: id < next)
      && made + adopted == freed + lost + held
      && (adopted == multiset{} ==> made == freed + multiset(live))
    }

    constructor ()
      ensures Valid() && live == {} && made == freed == adopted == lost == held == multiset{}
    {
      live, next := {}, 0;
      made, freed, adopted, lost, held := multiset{}, multiset{}, multiset{}, multiset{}, multiset{};
      refusals := 0;
    }

    /** What is held is the owned blocks and those of the frame, each counted once. */
    ghost predicate Has(frame: multiset<nat>, owned: multiset<nat>)
      reads this
    {
      Valid() && held == frame + owned
    }

    /** Blocks were freed and nothing else happened. */
    twostate predicate OnlyFreed()
      reads this
    {
      made == old(made) && adopted == old(adopted) && lost == old(lost) && refusals == old(refusals)
    }

    twostate predicate Unadopted()
      reads this
    {
      adopted == old(adopted) && lost == old(lost)
    }

    twostate predicate Quiet()
      reads this
    {
      made == old(made) && freed == old(freed)
    }

    /** These blocks were freed, and none allocated. */
    twostate predicate Spills(ids: multiset<nat>)
      reads this
    {
      made == old(made) && freed == old(freed) + ids
    }

    method Free(id: nat, ghost frame: multiset<nat>)
      requires Has(frame, multiset{id})
      modifies this
      ensures Has(frame, multiset{}) && OnlyFreed()
    {
      if adopted == multiset{} { InUse(made, freed, lost, frame, live, id); }
      live := live - {id};
      freed := freed + multiset{id};
      held := frame;
    }

    /** Allocates a new block. */
    method Allocate(ghost frame: multiset<nat>) returns (id: nat)
      requires Has(frame, multiset{})
      modifies this
      ensures Has(frame, multiset{id}) && Unadopted() && refusals == old(refusals)
    {
      id := next;
      next := next + 1;
      WithoutOne(live + {id}, id);
      assert live + {id} - {id} == live;
      live := live + {id};
      LedgerGrows(made, adopted, freed, lost, held, multiset{id});
      made := made + multiset{id};
      held := held + multiset{id};
    }

    /** Moves or extends a block, allocates one for a null pointer, or fails. */
    method Realloc(p: Block, ghost frame: multiset<nat>) returns (ok: bool, id: nat)
      requires Has(frame, if p.Live? then multiset{p.id} else multiset{})
      modifies this
      ensures ok ==> Has(frame, multiset{id})
      ensures !ok ==> Has(frame, if p.Live? then multiset{p.id} else multiset{})
      ensures Unadopted()
      ensures refusals == old(refusals) + if ok then 0 else 1
    {
      ok, id := false, 0;
      if * {
        refusals := refusals + 1;
        return;
      }
      if p.Live? {
        if * { return true, p.id; }
        Free(p.id, frame);
      }
      id := Allocate(frame);
      ok := true;
    }

    /** Pointers that were never set have become reachable. */
    ghost method Adopt(ids: multiset<nat>, frame: multiset<nat>)
      requires Has(frame, multiset{})
      modifies this
      ensures Has(frame, ids)
      ensures adopted == old(adopted) + ids && lost == old(lost) && made == old(made) && freed == old(freed)
      ensures refusals == old(refusals)
    {
      EmptySum(adopted, ids);
      LedgerGrows(made, adopted, freed, lost, held, ids);
      adopted := adopted + ids;
      held := held + ids;
    }

    /** Blocks are no longer reachable. */
    ghost method Lose(ids: multiset<nat>, frame: multiset<nat>)
      requires Has(frame, ids)
      modifies this
      ensures Has(frame, multiset{})
      ensures lost == old(lost) + ids && adopted == old(adopted) && made == old(made) && freed == old(freed)
      ensures refusals == old(refusals)
    {
      lost := lost + ids;
      held := frame;
    }
  }

  /** Both sides of the ledger grow by the same. */
  lemma LedgerGrows(made: multiset<nat>, adopted: multiset<nat>, freed: multiset<nat>, lost: multiset<nat>,
                    held: multiset<nat>, more: multiset<nat>)
    requires made + adopted == freed + lost + held
    ensures made + more + adopted == freed + lost + (held + more)
    ensures made + (adopted + more) == freed + lost + (held + more)
  {
    forall x: nat
      ensures (made + more + adopted)[x] == (freed + lost + (held + more))[x]
      ensures (made + (adopted + more))[x] == (freed + lost + (held + more))[x]
    {
      assert (made + adopted)[x] == (freed + lost + held)[x];
    }
  }

  /** A held block is in use, and stays out of use once freed. */
  lemma InUse(made: multiset<nat>, freed: multiset<nat>, lost: multiset<nat>, frame: multiset<nat>, live: set<nat>,
              id: nat)
    requires made == freed + lost + (frame + multiset{id}) && made == freed + multiset(live)
    ensures id in live && made == freed + multiset{id} + multiset(live - {id})
  {
    assert freed + multiset(live) == multiset(live) + freed;
    assert freed + lost + (frame + multiset{id}) == (lost + (frame + multiset{id})) + freed;
    Cancel(multiset(live), lost + (frame + multiset{id}), freed);
    assert id in multiset(live);
    WithoutOne(live, id);
  }

  /** Where nothing else happened, what is no longer held was freed. */
  lemma FreedExactly(all: multiset<nat>, before: multiset<nat>, after: multiset<nat>, lost: multiset<nat>,
                     frame: multiset<nat>, owned: multiset<nat>)
    requires all == before + lost + (frame + owned) && all == after + lost + frame
    ensures after == before + owned
  {
    forall x: nat ensures after[x] == (before + owned)[x] {
      assert (before + lost + (frame + owned))[x] == (after + lost + frame)[x];
    }
  }

  lemma EmptySum(a: multiset<nat>, b: multiset<nat>)
    ensures a + b == multiset{} <==> a == multiset{} && b == multiset{}
  {
    assert |a + b| == |a| + |b|;
  }

  lemma WithoutOne(s: set<nat>, id: nat)
    requires id in s
    ensures multiset(s) == multiset(s - {id}) + multiset{id}
  {
    forall x: nat ensures multiset(s)[x] == (multiset(s - {id}) + multiset{id})[x] {
    }
  }

  // ------------------------------------------------------- what release does

  function ReleasedItem(f: Field, c: Cell): (r: Cell)
    requires f.ltype.Submessage? && OkItem(f, c)
    decreases f, 0
  {
    Nested(ReleasedCells(f.sub, c.cells))
  }

  function ReleasedEntries(f: Field, entries: seq<Cell>, n: nat): (r: seq<Cell>)
    requires f.ltype.Submessage? && OkItems(f, entries) && n <= |entries|
    ensures |r| == |entries|
    decreases f, 1
  {
    seq(|entries|, k requires 0 <= k < |entries| => if k < n then ReleasedItem(f, entries[k]) else entries[k])
  }

  /** Pointers become null and allocated counts zero; static parts are released recursively. */
  function ReleasedCell(fields: seq<Field>, i: nat, c: Cell): Cell
    requires i < |fields| && OkCell(fields, i, c)
    decreases fields, 0
  {
    match c
    case PtrUnion(which, _) => PtrUnion(which, Null)
    case PtrDead(_, _) => c
    case PtrMany(_, _) => PtrMany(0, Null)
    case Ptr(_) => Ptr(Null)
    case NestedMany(size, entries) =>
      assert |entries| == fields[i].arraySize && OkItems(fields[i], entries);
      NestedMany(size, ReleasedEntries(fields[i], entries, Min(size, fields[i].arraySize)))
    case Nested(_) => ReleasedItem(fields[i], c)
    case Plain => c
    case Count(_) => c
    case Shared => c
  }

  function ReleasedCells(fields: seq<Field>, cells: seq<Cell>): (r: seq<Cell>)
    requires OkCells(fields, cells)
    ensures |r| == |fields|
    decreases fields, 1
  {
    seq(|fields|, i requires 0 <= i < |fields| => ReleasedCell(fields, i, cells[i]))
  }

  /** The release, row by row: pointers become null and the counts of allocated arrays zero, while selectors and
      the counts of static arrays stay. */
  lemma ReleasedRow(fields: seq<Field>, cells: seq<Cell>, i: nat)
    requires OkCells(fields, cells) && i < |fields|
    ensures |cells| == |fields|
    ensures var c, r := cells[i], ReleasedCells(fields, cells)[i];
            && (c.Ptr? ==> r == Ptr(Null))
            && (c.PtrMany? ==> r == PtrMany(0, Null))
            && (c.PtrUnion? ==> r == PtrUnion(c.which, Null))
            && (c.PtrDead? ==> r == c)
            && (c.NestedMany? ==>
                  && r.NestedMany? && r.size == c.size && |r.entries| == |c.entries|
                  && forall k | c.size <= k < |c.entries| :: r.entries[k] == c.entries[k])
            && (c.Nested? ==> r.Nested? && OkCells(fields[i].sub, c.cells)
                              && r.cells == ReleasedCells(fields[i].sub, c.cells))
            && (c.Plain? || c.Count? || c.Shared? ==> r == c)
  {
    hide OkItems, ReleasedItem;
    var c := cells[i];
    assert OkCell(fields, i, c);
    if c.Nested? { NestedRow(fields, i, c); }
    if c.NestedMany? { ReleasedArray(fields, i, c); }
    assert ReleasedCells(fields, cells)[i] == ReleasedCell(fields, i, c);
  }

  lemma ReleasedArray(fields: seq<Field>, i: nat, c: Cell)
    requires i < |fields| && OkCell(fields, i, c) && c.NestedMany?
    ensures var r := ReleasedCell(fields, i, c);
            && r.NestedMany? && r.size == c.size && |r.entries| == |c.entries|
            && forall k | c.size <= k < |c.entries| :: r.entries[k] == c.entries[k]
  {
    hide OkItems, ReleasedItem;
  }

  lemma NestedRow(fields: seq<Field>, i: nat, c: Cell)
    requires i < |fields| && OkCell(fields, i, c) && c.Nested?
    ensures OkCells(fields[i].sub, c.cells)
    ensures ReleasedCell(fields, i, c) == Nested(ReleasedCells(fields[i].sub, c.cells))
  {
    assert OkItem(fields[i], c);
  }

  lemma {:induction false} ReleasedItemClean(f: Field, c: Cell)
    requires f.ltype.Submessage? && OkItem(f, c)
    ensures var r := ReleasedItem(f, c);
            OkItem(f, r) && CellIds(r) == multiset{} && ReleasedItem(f, r) == r
    decreases f, 0
  {
    ReleasedClean(f.sub, c.cells);
  }

  lemma ReleasedEntriesClean(f: Field, entries: seq<Cell>, n: nat)
    requires f.ltype.Submessage? && OkItems(f, entries) && n <= |entries|
    ensures var r := ReleasedEntries(f, entries, n);
            OkItems(f, r) && NoIds(r[..n]) && ReleasedEntries(f, r, n) == r
    decreases f, 1
  {
    var r := ReleasedEntries(f, entries, n);
    forall k | 0 <= k < n ensures OkItem(f, r[k]) && CellIds(r[k]) == multiset{} && ReleasedItem(f, r[k]) == r[k] {
      ReleasedItemClean(f, entries[k]);
    }
    IdsNone(r[..n]);
    assert OkItems(f, r);
    assert ReleasedEntries(f, r, n) == r;
  }

  /** A released struct owns nothing, and releasing it again changes nothing. */
  lemma {:induction false} ReleasedClean(fields: seq<Field>, cells: seq<Cell>)
    requires OkCells(fields, cells)
    ensures var r := ReleasedCells(fields, cells);
            OkCells(fields, r) && NoIds(r) && ReleasedCells(fields, r) == r
    decreases fields, 1
  {
    var r := ReleasedCells(fields, cells);
    forall i | 0 <= i < |fields|
      ensures OkCell(fields, i, r[i]) && CellIds(r[i]) == multiset{} && ReleasedCell(fields, i, r[i]) == r[i]
    {
      ReleasedCellClean(fields, i, cells[i]);
    }
    IdsNone(r);
    assert ReleasedCells(fields, r) == r;
  }

  lemma {:induction false} ReleasedCellClean(fields: seq<Field>, i: nat, c: Cell)
    requires i < |fields| && OkCell(fields, i, c)
    ensures var r := ReleasedCell(fields, i, c);
            OkCell(fields, i, r) && CellIds(r) == multiset{} && ReleasedCell(fields, i, r) == r
    decreases fields, 0
  {
    if c.NestedMany? {
      var n := Min(c.size, fields[i].arraySize);
      ReleasedEntriesClean(fields[i], c.entries, n);
      VisibleIds(c.size, ReleasedEntries(fields[i], c.entries, n));
    } else if c.Nested? {
      ReleasedItemClean(fields[i], c);
    }
  }

  // ------------------------------------------------------------ the release

  /** The cells after releasing the first i fields: a union is done once its selected member was passed. */
  predicate Passed(fields: seq<Field>, cells: seq<Cell>, h: nat, i: nat)
    requires OkCells(fields, cells) && h < |fields|
  {
    if cells[h].PtrUnion? && cells[h].u.Live? then Lookup(fields, cells[h].which) < i else h < i
  }

  function PartlyReleased(fields: seq<Field>, cells: seq<Cell>, i: nat): (r: seq<Cell>)
    requires OkCells(fields, cells)
    ensures |r| == |fields|
  {
    seq(|fields|, h requires 0 <= h < |fields| =>
      if Passed(fields, cells, h, i) then ReleasedCell(fields, h, cells[h]) else cells[h])
  }

  lemma IdsHead(cells: seq<Cell>, k: nat)
    requires k < |cells|
    ensures Ids(cells[k..]) == CellIds(cells[k]) + Ids(cells[k + 1..])
  {
    assert cells[k..][1..] == cells[k + 1..];
  }

  lemma IdsEnds(cells: seq<Cell>)
    ensures Ids(cells[0..]) == Ids(cells) && Ids(cells[|cells|..]) == multiset{}
  {
    assert cells[0..] == cells;
  }

  /** Frees what the items of a block own: nested structs, or the strings of an array. */
  method ReleaseContents(h: Heap, f: Field, contents: seq<Cell>, ghost frame: multiset<nat>)
    requires HeapField(f) && OkItems(f, contents) && h.Has(frame, Ids(contents))
    modifies h
    ensures h.Has(frame, multiset{}) && h.OnlyFreed()
    decreases f, 1
  {
    hide HeapTable, OkCells, Ids, CellIds, BlockIds, Heap.Valid;
    IdsEnds(contents);
    if f.ltype.Submessage? || (f.htype.Repeated? && StringLike(f.ltype)) {
      for k := 0 to |contents|
        invariant h.Has(frame, Ids(contents[k..])) && h.OnlyFreed()
      {
        IdsHead(contents, k);
        assert OkItem(f, contents[k]);
        ghost var rest := frame + Ids(contents[k + 1..]);
        ItemIds(f, contents[k]);
        if f.ltype.Submessage? {
          var released := ReleaseFields(h, f.sub, contents[k].cells, rest);
        } else if contents[k].p.Live? {
          h.Free(contents[k].p.id, rest);
        }
      }
    } else {
      PlainIds(f, contents);
    }
  }

  /** What one item owns. */
  lemma ItemIds(f: Field, c: Cell)
    requires OkItem(f, c)
    ensures f.ltype.Submessage? ==> CellIds(c) == Ids(c.cells)
    ensures !f.ltype.Submessage? && f.htype.Repeated? && StringLike(f.ltype) ==>
              CellIds(c) == if c.p.Live? then multiset{c.p.id} else multiset{}
    ensures !f.ltype.Submessage? && !(f.htype.Repeated? && StringLike(f.ltype)) ==> CellIds(c) == multiset{}
  {
    IdsOne(Plain);
  }

  lemma PlainIds(f: Field, contents: seq<Cell>)
    requires OkItems(f, contents) && !f.ltype.Submessage? && !(f.htype.Repeated? && StringLike(f.ltype))
    ensures Ids(contents) == multiset{}
  {
    forall k | 0 <= k < |contents| ensures CellIds(contents[k]) == multiset{} {
      assert OkItem(f, contents[k]);
      ItemIds(f, contents[k]);
    }
    IdsNone(contents);
  }

  /** Frees a block after its contents. */
  method ReleaseBlock(h: Heap, f: Field, p: Block, ghost frame: multiset<nat>)
    requires HeapField(f) && (p.Live? ==> OkItems(f, p.contents))
    requires h.Has(frame, BlockIds(p))
    modifies h
    ensures h.Has(frame, multiset{}) && h.OnlyFreed()
    decreases f, 2
  {
    if p.Live? {
      ReleaseContents(h, f, p.contents, frame + multiset{p.id});
      h.Free(p.id, frame);
    }
  }

  /** Releases the entries of a static submessage array up to its count, or to its end if the count
      is higher. */
  method ReleaseEntries(h: Heap, f: Field, entries: seq<Cell>, n: nat, ghost frame: multiset<nat>)
    returns (r: seq<Cell>)
    requires HeapField(f) && f.ltype.Submessage? && OkItems(f, entries) && n <= |entries|
    requires h.Has(frame, Ids(entries[..n]))
    modifies h
    ensures r == ReleasedEntries(f, entries, n)
    ensures h.Has(frame, multiset{}) && h.OnlyFreed()
    decreases f, 2
  {
    hide HeapTable, OkCells, Ids, CellIds, BlockIds, ReleasedCells, Heap.Valid;
    r := [];
    ghost var visited := entries[..n];
    IdsEnds(visited);
    for k := 0 to n
      invariant |r| == k && forall j | 0 <= j < k :: r[j] == ReleasedItem(f, entries[j])
      invariant h.Has(frame, Ids(visited[k..])) && h.OnlyFreed()
    {
      IdsHead(visited, k);
      assert OkItem(f, entries[k]);
      ItemIds(f, entries[k]);
      var cells := ReleaseFields(h, f.sub, entries[k].cells, frame + Ids(visited[k + 1..]));
      r := r + [Nested(cells)];
    }
    r := r + entries[n..];
  }

  /** Releases what one member owns. */
  method ReleaseCell(h: Heap, fields: seq<Field>, i: nat, c: Cell, ghost frame: multiset<nat>) returns (r: Cell)
    requires HeapTable(fields) && i < |fields| && OkCell(fields, i, c)
    requires h.Has(frame, CellIds(c))
    modifies h
    ensures r == ReleasedCell(fields, i, c)
    ensures h.Has(frame, multiset{}) && h.OnlyFreed()
    decreases fields, 0
  {
    var f := fields[i];
    assert HeapField(f);
    match c
    case PtrUnion(which, u) =>
      assert u.Live? ==> HeapField(fields[Lookup(fields, which)]);
      ReleaseBlock(h, if u.Live? then fields[Lookup(fields, which)] else f, u, frame);
      return PtrUnion(which, Null);
    case PtrDead(_, _) => return c;
    case PtrMany(len, items) =>
      ReleaseBlock(h, f, items, frame);
      return PtrMany(0, Null);
    case Ptr(p) =>
      ReleaseBlock(h, f, p, frame);
      return Ptr(Null);
    case NestedMany(size, entries) =>
      VisibleIds(size, entries);
      var released := ReleaseEntries(h, f, entries, Min(size, f.arraySize), frame);
      return NestedMany(size, released);
    case Nested(cells) =>
      var released := ReleaseFields(h, f.sub, cells, frame);
      return Nested(released);
    case Plain => return c;
    case Count(_) => return c;
    case Shared => return c;
  }

  /** The cell of field i is due when the field is reached: a union's at its selected member. */
  predicate DueAt(fields: seq<Field>, cells: seq<Cell>, i: nat)
    requires |cells| == |fields| && i < |fields|
  {
    fields[i].htype.Oneof? ==>
      var c := cells[Home(fields, i)];
      c.PtrUnion? && c.which == fields[i].tag
  }

  lemma StepElsewhere(fields: seq<Field>, cells: seq<Cell>, i: nat, h: nat)
    requires HeapTable(fields) && OkCells(fields, cells) && i < |fields| && h < |fields| && h != Home(fields, i)
    ensures PartlyReleased(fields, cells, i + 1)[h] == PartlyReleased(fields, cells, i)[h]
  {
    hide OkItems, OkItem, OkMany, HeapField, HeapTable, ReleasedEntries, ReleasedItem;
    assert OkCell(fields, h, cells[h]);
  }

  lemma StepHome(fields: seq<Field>, cells: seq<Cell>, i: nat)
    requires HeapTable(fields) && OkCells(fields, cells) && i < |fields|
    ensures var before, home := PartlyReleased(fields, cells, i), Home(fields, i);
            && OkCell(fields, home, cells[home])
            && (DueAt(fields, before, i) ==> before[home] == cells[home])
            && PartlyReleased(fields, cells, i + 1)[home]
               == if DueAt(fields, before, i) then ReleasedCell(fields, home, cells[home]) else before[home]
  {
    hide OkItems, OkItem, OkMany, HeapField, ReleasedEntries, ReleasedItem;
    var home := Home(fields, i);
    LookupUnique(fields, i);
    assert OkCell(fields, home, cells[home]);
  }

  /** One more field: its cell is released if it is due, and until then it is as it was. */
  lemma ReleaseStep(fields: seq<Field>, cells: seq<Cell>, i: nat)
    requires HeapTable(fields) && OkCells(fields, cells) && i < |fields|
    ensures var before, home := PartlyReleased(fields, cells, i), Home(fields, i);
            && OkCell(fields, home, cells[home])
            && (DueAt(fields, before, i) ==> before[home] == cells[home])
            && PartlyReleased(fields, cells, i + 1)
               == if DueAt(fields, before, i) then before[home := ReleasedCell(fields, home, cells[home])] else before
  {
    hide HeapTable, OkCells, OkCell, ReleasedCell, DueAt, PartlyReleased, Home;
    StepHome(fields, cells, i);
    forall h | 0 <= h < |fields| && h != Home(fields, i)
      ensures PartlyReleased(fields, cells, i + 1)[h] == PartlyReleased(fields, cells, i)[h]
    {
      StepElsewhere(fields, cells, i, h);
    }
  }

  lemma PartlyReleasedEnds(fields: seq<Field>, cells: seq<Cell>)
    requires HeapTable(fields) && OkCells(fields, cells)
    ensures PartlyReleased(fields, cells, 0) == cells
    ensures PartlyReleased(fields, cells, |fields|) == ReleasedCells(fields, cells)
  {
    hide OkItems, OkItem, HeapField, ReleasedCell;
    forall h | 0 <= h < |fields| ensures OkCell(fields, h, cells[h]) {
    }
    assert PartlyReleased(fields, cells, |fields|) == ReleasedCells(fields, cells);
  }

  /** Visits every field and releases what is due there. */
  method ReleaseFields(h: Heap, fields: seq<Field>, cells: seq<Cell>, ghost frame: multiset<nat>)
    returns (r: seq<Cell>)
    requires HeapTable(fields) && OkCells(fields, cells)
    requires h.Has(frame, Ids(cells))
    modifies h
    ensures r == ReleasedCells(fields, cells)
    ensures h.Has(frame, multiset{}) && h.OnlyFreed()
    decreases fields, 1
  {
    hide HeapTable, Ids, CellIds, BlockIds, ReleasedCell, OkCell, HeapField, OkCells, PartlyReleased, ReleasedCells,
         Heap.Valid;
    PartlyReleasedEnds(fields, cells);
    r := cells;
    for i := 0 to |fields|
      invariant r == PartlyReleased(fields, cells, i)
      invariant h.Has(frame, Ids(r)) && h.OnlyFreed()
    {
      ReleaseStep(fields, cells, i);
      if DueAt(fields, r, i) {
        var home := Home(fields, i);
        var c := ReleaseCell(h, fields, home, r[home], frame + Others(r, home)) by {
          OthersSplit(r, home, r[home]);
          Reframe(h.held, frame, Ids(r), Others(r, home), CellIds(r[home]));
        }
        OthersSplit(r, home, c);
        ReleasedCellClean(fields, home, r[home]);
        r := r[home := c];
      }
    }
    ReleasedClean(fields, cells);
  }

  /** pb_release: frees exactly the blocks that the struct reaches, each once, and nothing else. */
  method ReleaseMessage(h: Heap, fields: seq<Field>, cells: seq<Cell>, ghost frame: multiset<nat>)
    returns (r: seq<Cell>)
    requires HeapTable(fields) && OkCells(fields, cells)
    requires h.Has(frame, Ids(cells))
    modifies h
    ensures r == ReleasedCells(fields, cells)
    ensures h.Has(frame, multiset{}) && h.OnlyFreed() && h.freed == old(h.freed) + Ids(cells)
  {
    hide HeapTable, OkCells, Ids, ReleasedCells;
    ghost var before := h.freed;
    r := ReleaseFields(h, fields, cells, frame);
    FreedExactly(h.made + h.adopted, before, h.freed, h.lost, frame, Ids(cells));
  }
}
