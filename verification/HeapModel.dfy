/** Structs whose fields may be pointers: who owns which heap block. */
module HeapModel {
  import opened Descriptors

  /** What matters about a member for memory management: nested structs, owned blocks, the counts of
      arrays that hold either, and selectors. */
  datatype Cell =
    | Plain                                      // static data without pointers
    | Count(n: nat)                              // the count of a static array of scalars
    | Nested(cells: seq<Cell>)                   // a static submessage, or one entry of an array
    | NestedMany(size: nat, entries: seq<Cell>)  // a static submessage array, all its entries
    | Ptr(p: Block)
    | PtrMany(len: nat, items: Block)            // an allocated array and its count
    | PtrUnion(which: nat, u: Block)             // the shared pointer of a oneof
    | PtrDead(which: nat, u: Block)              // the same with a selector that no row answers to
    | Shared                                     // later members of a union

  /** A pointer: null, or the block it points to with its contents. */
  datatype Block = Null | Live(id: nat, contents: seq<Cell>)

  function ContentsOf(p: Block): seq<Cell> { if p.Live? then p.contents else [] }

  // -------------------------------------------------------------- ownership

  function BlockIds(p: Block): multiset<nat>
    decreases p, 0
  {
    match p
    case Null => multiset{}
    case Live(id, contents) => multiset{id} + Ids(contents)
  }

  function CellIds(c: Cell): multiset<nat>
    decreases c, 0
  {
    match c
    case Plain => multiset{}
    case Count(_) => multiset{}
    case Nested(cells) => Ids(cells)
    case NestedMany(size, entries) => if size < |entries| then Ids(entries[..size]) else Ids(entries)
    case Ptr(p) => BlockIds(p)
    case PtrMany(_, p) => BlockIds(p)
    case PtrUnion(_, p) => BlockIds(p)
    case PtrDead(_, _) => multiset{}
    case Shared => multiset{}
  }

  /** All blocks that releasing the cells visits, each as often as it is pointed to: of a static array
      only the entries below its count. */
  function Ids(cells: seq<Cell>): multiset<nat>
    decreases cells, 1
  {
    if cells == [] then multiset{} else CellIds(cells[0]) + Ids(cells[1..])
  }

  lemma BlockParts(p: Block)
    ensures BlockIds(p) == (if p.Live? then multiset{p.id} else multiset{}) + Ids(ContentsOf(p))
  {
  }

  lemma {:induction false} IdsConcat(xs: seq<Cell>, ys: seq<Cell>)
    ensures Ids(xs + ys) == Ids(xs) + Ids(ys)
  {
    if xs == [] {
      assert xs + ys == ys;
    } else {
      assert (xs + ys)[0] == xs[0] && (xs + ys)[1..] == xs[1..] + ys;
      IdsConcat(xs[1..], ys);
    }
  }

  lemma IdsOne(c: Cell)
    ensures Ids([c]) == CellIds(c)
  {
    assert [c][1..] == [];
  }

  lemma {:induction false} IdsNone(cells: seq<Cell>)
    requires forall k | 0 <= k < |cells| :: CellIds(cells[k]) == multiset{}
    ensures Ids(cells) == multiset{}
    decreases |cells|
  {
    if cells != [] { IdsNone(cells[1..]); }
  }

  lemma Cancel(a: multiset<nat>, b: multiset<nat>, m: multiset<nat>)
    requires a + m == b + m
    ensures a == b
  {
    forall x: nat ensures a[x] == b[x] { assert (a + m)[x] == (b + m)[x]; }
  }

  lemma Reframe(all: multiset<nat>, frame: multiset<nat>, whole: multiset<nat>, others: multiset<nat>,
                part: multiset<nat>)
    requires all == frame + whole && whole == others + part
    ensures all == (frame + others) + part
  {
  }

  /** What the cells own apart from cell i. */
  function Others(cells: seq<Cell>, i: nat): multiset<nat>
    requires i < |cells|
  {
    Ids(cells[..i]) + Ids(cells[i + 1..])
  }

  lemma OthersSplit(cells: seq<Cell>, i: nat, c: Cell)
    requires i < |cells|
    ensures Ids(cells) == Others(cells, i) + CellIds(cells[i])
    ensures Ids(cells[i := c]) == Others(cells, i) + CellIds(c)
  {
    var a, b := cells[..i], cells[i + 1..];
    assert cells == a + [cells[i]] + b;
    assert cells[i := c] == a + [c] + b;
    IdsConcat(a + [cells[i]], b);
    IdsConcat(a, [cells[i]]);
    IdsConcat(a + [c], b);
    IdsConcat(a, [c]);
    IdsOne(c);
    IdsOne(cells[i]);
  }

  // ------------------------------------------------------------------ tables

  predicate StringLike(l: LType) { l.String? || l.Bytes? }

  /** Rows of a table with pointers: no extensions or callbacks, oneof members all allocated, no
      fixed-count submessage arrays. */
  predicate HeapField(f: Field)
    decreases f
  {
    && 1 <= f.tag <= MAX_TAG && f.tag <= PB_SIZE_MAX
    && !f.ltype.Extension? && !f.atype.Callback?
    && f.dataSize <= PB_SIZE_MAX && f.arraySize <= PB_SIZE_MAX
    && (f.ltype.Bool? ==> f.dataSize == 1)
    && (f.ltype.Fixed32? ==> f.dataSize == 4)
    && (f.ltype.Fixed64? ==> f.dataSize == 8)
    && (f.htype.Oneof? ==> f.atype.Pointer? && f.sizeOffset != 0)
    && (f.atype.Pointer? && f.htype.Repeated? ==> f.sizeOffset != 0)
    && (f.atype.Pointer? && f.htype.Repeated? && Packable(f.ltype) ==> f.dataSize > 0)
    && (f.ltype.Submessage? && f.atype.Static? && f.htype.Repeated? ==> f.sizeOffset != 0)
    && (f.ltype.Submessage? ==> HeapTable(f.sub))
  }

  predicate HeapTable(fields: seq<Field>)
    decreases fields
  {
    && DistinctTags(fields)
    && (forall i | 0 <= i < |fields| :: HeapField(fields[i]))
    && (forall i | 0 <= i < |fields| && Continues(fields, i) :: fields[i].sizeOffset == fields[i - 1].sizeOffset)
  }

  // ------------------------------------------------------- well-formed structs

  predicate NoIds(cells: seq<Cell>) { Ids(cells) == multiset{} }

  function Min(a: nat, b: nat): nat { if a <= b then a else b }

  /** What releasing a static array visits. */
  lemma VisibleIds(size: nat, entries: seq<Cell>)
    ensures CellIds(NestedMany(size, entries)) == Ids(entries[..Min(size, |entries|)])
  {
    assert entries[..|entries|] == entries;
  }

  /** A static array of scalars with a count. */
  predicate Counted(f: Field) { f.htype.Repeated? && f.sizeOffset != 0 }

  /** One item of an allocated block, or one entry of a static submessage array. */
  predicate OkItem(f: Field, c: Cell)
    decreases f, 0
  {
    if f.ltype.Submessage? then c.Nested? && OkCells(f.sub, c.cells)
    else if f.htype.Repeated? && StringLike(f.ltype) then c.Ptr? && (c.p.Live? ==> c.p.contents == [Plain])
    else c.Plain?
  }

  predicate OkItems(f: Field, cs: seq<Cell>)
    decreases f, 1
  {
    forall k | 0 <= k < |cs| :: OkItem(f, cs[k])
  }

  /** An allocated array has room for its count, and no spare entries unless they are scalars. */
  predicate OkMany(f: Field, len: nat, p: Block)
    decreases f, 2
  {
    && len <= |ContentsOf(p)| <= PB_SIZE_MAX
    && OkItems(f, ContentsOf(p))
    && (!Packable(f.ltype) ==> len == |ContentsOf(p)|)
  }

  /** The shape of a struct: counts of allocated arrays stay within the block, a union's pointer belongs
      to the selected member, unless the selector is no tag of the table. The count of a static array may be
      anything, and so may the entries above it. */
  predicate OkCell(fields: seq<Field>, i: nat, c: Cell)
    requires i < |fields|
    decreases fields, 0
  {
    var f := fields[i];
    if f.htype.Oneof? then
      if Continues(fields, i) then c.Shared?
      else if c.PtrDead? then c.which != 0 && Lookup(fields, c.which) == |fields|
      else
        && c.PtrUnion?
        && (c.which != 0 ==> Selects(fields, i, c.which))
        && (c.u.Live? ==> && c.which != 0 && |c.u.contents| == 1
                          && OkItems(fields[Lookup(fields, c.which)], c.u.contents))
    else if f.atype.Pointer? && f.htype.Repeated? then
      c.PtrMany? && OkMany(f, c.len, c.items)
    else if f.atype.Pointer? then
      c.Ptr? && (c.p.Live? ==> |c.p.contents| == 1 && OkItems(f, c.p.contents))
    else if f.ltype.Submessage? && f.htype.Repeated? then
      c.NestedMany? && |c.entries| == f.arraySize && c.size <= PB_SIZE_MAX && OkItems(f, c.entries)
    else if f.ltype.Submessage? then c.Nested? && OkItem(f, c)
    else if Counted(f) then c.Count? && c.n <= PB_SIZE_MAX
    else c.Plain?
  }

  predicate OkCells(fields: seq<Field>, cells: seq<Cell>)
    decreases fields, 1
  {
    |cells| == |fields| && forall i | 0 <= i < |fields| :: OkCell(fields, i, cells[i])
  }
}
