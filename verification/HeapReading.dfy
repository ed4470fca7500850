/** What the decoder makes of a struct with pointers when the allocator never refuses, as pure functions on
    structs whose blocks have lost their identity. */
module HeapReading {
  import opened Bits
  import opened Wire
  import opened Descriptors
  import opened OutStreams
  import opened Decoding
  import opened HeapModel
  import opened HeapAllocation
  import opened HeapShapes

  // ----------------------------------------------------------- without ids

  /** A cell without the identity of its blocks, and of an allocated array only the entries it counts. */
  function EraseCell(c: Cell): (r: Cell)
    decreases c, 0
  {
    match c
    case Nested(cells) => Nested(EraseCells(cells))
    case NestedMany(size, entries) => NestedMany(size, EraseCells(entries))
    case Ptr(p) => Ptr(EraseBlock(p))
    case PtrMany(len, items) => PtrMany(len, Counting(EraseBlock(items), len))
    case PtrUnion(which, u) => PtrUnion(which, EraseBlock(u))
    case PtrDead(which, u) => PtrDead(which, EraseBlock(u))
    case _ => c
  }

  function EraseBlock(p: Block): (r: Block)
    ensures r.Live? <==> p.Live?
    decreases p, 0
  {
    if p.Live? then Live(0, EraseCells(p.contents)) else Null
  }

  function EraseCells(cells: seq<Cell>): (r: seq<Cell>)
    ensures |r| == |cells| && forall k | 0 <= k < |r| :: r[k] == EraseCell(cells[k])
    decreases cells, 1
  {
    seq(|cells|, k requires 0 <= k < |cells| => EraseCell(cells[k]))
  }

  /** The block as far as it is counted. */
  function Counting(p: Block, len: nat): Block {
    if p.Live? && len <= |p.contents| then Live(p.id, p.contents[..len]) else p
  }

  lemma EraseUpdate(cells: seq<Cell>, i: nat, c: Cell)
    requires i < |cells|
    ensures EraseCells(cells[i := c]) == EraseCells(cells)[i := EraseCell(c)]
  {
    hide EraseCell;
  }

  lemma ErasePrefix(cells: seq<Cell>, n: nat)
    requires n <= |cells|
    ensures EraseCells(cells[..n]) == EraseCells(cells)[..n]
  {
    hide EraseCell;
  }

  lemma {:induction false} EraseDefaultCell(fields: seq<Field>, i: nat, c: Cell)
    requires i < |fields|
    ensures EraseCell(DefaultCell(fields, i, c)) == DefaultCell(fields, i, EraseCell(c))
    decreases fields, 0
  {
    hide EraseCells, EraseBlock, DefaultCells;
    if c.Nested? && Inline(fields[i]) { EraseDefaults(fields[i].sub, c.cells); }
  }

  lemma {:induction false} EraseDefaults(fields: seq<Field>, cells: seq<Cell>)
    ensures EraseCells(DefaultCells(fields, cells)) == DefaultCells(fields, EraseCells(cells))
    decreases fields, 1
  {
    hide EraseCell, DefaultCell;
    var x, y := EraseCells(DefaultCells(fields, cells)), DefaultCells(fields, EraseCells(cells));
    PlainStays();
    forall i | 0 <= i < |fields| ensures x[i] == y[i] {
      EraseDefaultCell(fields, i, if i < |cells| then cells[i] else Plain);
    }
  }

  lemma PlainStays()
    ensures EraseCell(Plain) == Plain
  {
  }

  // -------------------------------------------------------------- payloads

  /** A string or bytes value: the length must leave room for what is stored with it. */
  function ReadLeaf(f: Field, s: seq<byte>): (r: Parse<()>)
    ensures r.Done? ==> |r.rest| < |s|
  {
    match Varint32(s)
    case Fail => Fail
    case Done(size, tail) =>
      var stored := if f.ltype.Bytes? then AddSize(BYTES_HEADER, size) else (size + 1) % TWO_32;
      if f.ltype.Bytes? && size > PB_SIZE_MAX then Fail
      else if size > stored || !SizesAllowed(stored, 1) || |tail| < size then Fail
      else Done((), tail[size..])
  }

  /** The number of entries after a packed payload, read into an allocated array. */
  function ReadPacked(f: Field, body: seq<byte>, len: nat, capacity: nat): (r: Parse<nat>)
    requires HeapField(f) && !f.ltype.Submessage? && f.dataSize > 0 && len <= capacity <= PB_SIZE_MAX
    ensures r.Done? ==> r.val <= PB_SIZE_MAX
    decreases |body|
  {
    if body == [] then Done(len, [])
    else if len == PB_SIZE_MAX then Fail
    else
      var capacity' :=
        if len == capacity then
          GrownInRange(capacity, |body|, f.dataSize);
          Grown(capacity, |body|, f.dataSize)
        else capacity;
      if len == capacity && !SizesAllowed(f.dataSize, capacity') then Fail
      else
        match DecScalar(View(f), body)
        case Fail => Fail
        case Done(_, rest) => ReadPacked(f, rest, len + 1, capacity')
  }

  /** The number of entries after a packed payload, read into a static array of scalars. */
  function ReadFill(f: Field, body: seq<byte>, n: nat): (r: Parse<nat>)
    requires HeapField(f) && !f.ltype.Submessage?
    decreases |body|
  {
    if body == [] then Done(n, [])
    else if n >= f.arraySize then Fail
    else
      match DecScalar(View(f), body)
      case Fail => Fail
      case Done(_, rest) => ReadFill(f, rest, n + 1)
  }

  /** Static scalars: the number of entries afterwards, for arrays. */
  function ReadStatic(f: Field, wireType: nat, s: seq<byte>, n: nat): (r: Parse<nat>)
    requires HeapField(f) && !f.ltype.Submessage?
    ensures r.Done? ==> |r.rest| < |s|
  {
    if f.htype.Repeated? && wireType == WT_STRING && Packable(f.ltype) then
      match ReadDelimited(s)
      case Fail => Fail
      case Done(body, rest) => (
        match ReadFill(f, body, n)
        case Fail => Fail
        case Done(n', _) => Done(n', rest))
    else if f.htype.Repeated? && n >= f.arraySize then Fail
    else
      match DecScalar(View(f), s)
      case Fail => Fail
      case Done(_, rest) => Done(if f.htype.Repeated? then n + 1 else n, rest)
  }

  /** A submessage: an array entry starts from its defaults, anything else from what it holds. */
  function ReadSub(f: Field, s: seq<byte>, cells: seq<Cell>): (r: Parse<seq<Cell>>)
    requires HeapField(f) && f.ltype.Submessage?
    ensures r.Done? ==> |r.rest| < |s|
    decreases |s|, 0
  {
    match ReadDelimited(s)
    case Fail => Fail
    case Done(body, rest) => (
      match ReadMsg(f.sub, body, if f.htype.Repeated? then DefaultCells(f.sub, cells) else cells)
      case Fail => Fail
      case Done(cells', _) => Done(cells', rest))
  }

  /** A new item in allocated memory. */
  function ReadItem(f: Field, s: seq<byte>): (r: Parse<Cell>)
    requires HeapField(f)
    ensures r.Done? ==> |r.rest| < |s|
    decreases |s|, 1
  {
    if f.ltype.Submessage? then
      match ReadSub(f, s, EraseCells(InitialCells(f.sub)))
      case Fail => Fail
      case Done(cells, rest) => Done(Nested(cells), rest)
    else if StringLike(f.ltype) then
      match ReadLeaf(f, s)
      case Fail => Fail
      case Done(_, rest) => Done(Ptr(Live(0, [Plain])), rest)
    else
      match DecScalar(View(f), s)
      case Fail => Fail
      case Done(_, rest) => Done(Plain, rest)
  }

  /** A required, optional or union pointer: whatever it pointed to, there is one new item afterwards. */
  function ReadSingle(f: Field, s: seq<byte>): (r: Parse<Block>)
    requires HeapField(f)
    ensures r.Done? ==> |r.rest| < |s| && r.val.Live?
    decreases |s|, 2
  {
    if StringLike(f.ltype) then
      match ReadLeaf(f, s)
      case Fail => Fail
      case Done(_, rest) => Done(Live(0, [Plain]), rest)
    else if !SizesAllowed(f.dataSize, 1) then Fail
    else
      match ReadItem(f, s)
      case Fail => Fail
      case Done(item, rest) => Done(Live(0, [item]), rest)
  }

  /** An allocated array: a packed payload, or one more entry. */
  function ReadMany(f: Field, wireType: nat, s: seq<byte>, len: nat, p: Block): (r: Parse<Cell>)
    requires HeapField(f) && f.atype.Pointer? && f.htype.Repeated? && len <= PB_SIZE_MAX
    ensures r.Done? ==> |r.rest| < |s|
    decreases |s|, 3
  {
    if wireType == WT_STRING && Packable(f.ltype) then
      DataSizePositive(f);
      match ReadDelimited(s)
      case Fail => Fail
      case Done(body, rest) => (
        match ReadPacked(f, body, len, len)
        case Fail => Fail
        case Done(len', _) =>
          Done(if len' == len then PtrMany(len, p) else PtrMany(len', Live(0, seq(len', _ => Plain))), rest))
    else ReadOneMore(f, s, len, p)
  }

  /** One entry behind the last of an allocated array. */
  function ReadOneMore(f: Field, s: seq<byte>, len: nat, p: Block): (r: Parse<Cell>)
    requires HeapField(f)
    ensures r.Done? ==> |r.rest| < |s|
    decreases |s|, 2
  {
    if len == PB_SIZE_MAX || !SizesAllowed(f.dataSize, len + 1) || len > |ContentsOf(p)| then Fail
    else
      match ReadItem(f, s)
      case Fail => Fail
      case Done(item, rest) => Done(PtrMany(len + 1, Live(0, ContentsOf(p)[..len] + [item])), rest)
  }

  /** A union member: another member's block, or this one's, gives way to the new one. */
  function ReadMember(f: Field, s: seq<byte>, c: Cell): (r: Parse<Cell>)
    requires HeapField(f)
    ensures r.Done? ==> |r.rest| < |s|
    decreases |s|, 3
  {
    if !c.PtrUnion? then Fail
    else
      match ReadSingle(f, s)
      case Fail => Fail
      case Done(p, rest) => Done(PtrUnion(f.tag, p), rest)
  }

  /** A static array of submessages: one more entry. */
  function ReadEntry(f: Field, s: seq<byte>, size: nat, entries: seq<Cell>): (r: Parse<Cell>)
    requires HeapField(f) && f.ltype.Submessage?
    ensures r.Done? ==> |r.rest| < |s|
    decreases |s|, 1
  {
    if size >= f.arraySize || size >= |entries| || !entries[size].Nested? then Fail
    else
      match ReadSub(f, s, entries[size].cells)
      case Fail => Fail
      case Done(cells, rest) => Done(NestedMany(size + 1, entries[size := Nested(cells)]), rest)
  }

  /** What a record makes of the cell of its row, and of the counter of a fixed-count array. */
  datatype Outcome = Outcome(cell: Cell, counter: nat)

  function OutcomeOf(r: Parse<Cell>, counter: nat): (o: Parse<Outcome>)
    ensures o.Done? <==> r.Done?
    ensures r.Done? ==> o.rest == r.rest
  {
    if r.Done? then Done(Outcome(r.val, counter), r.rest) else Fail
  }

  function ReadField(f: Field, wireType: nat, s: seq<byte>, c: Cell, counter: nat): (r: Parse<Outcome>)
    requires HeapField(f)
    ensures r.Done? ==> |r.rest| < |s|
    decreases |s|, 4
  {
    if f.htype.Oneof? then OutcomeOf(ReadMember(f, s, c), counter)
    else if f.atype.Pointer? && f.htype.Repeated? then
      if !c.PtrMany? || c.len > PB_SIZE_MAX then Fail
      else OutcomeOf(ReadMany(f, wireType, s, c.len, c.items), counter)
    else if f.atype.Pointer? then
      match ReadSingle(f, s)
      case Fail => Fail
      case Done(p, rest) => Done(Outcome(Ptr(p), counter), rest)
    else if !f.ltype.Submessage? then ReadScalars(f, wireType, s, c, counter)
    else if f.htype.Repeated? then
      if !c.NestedMany? then Fail else OutcomeOf(ReadEntry(f, s, c.size, c.entries), counter)
    else if !c.Nested? then Fail
    else
      match ReadSub(f, s, c.cells)
      case Fail => Fail
      case Done(cells, rest) => Done(Outcome(Nested(cells), counter), rest)
  }

  /** Static scalars count in their cell, or in the decoder's counter if the array has no count. */
  function ReadScalars(f: Field, wireType: nat, s: seq<byte>, c: Cell, counter: nat): (r: Parse<Outcome>)
    requires HeapField(f) && !f.ltype.Submessage?
    ensures r.Done? ==> |r.rest| < |s|
  {
    match ReadStatic(f, wireType, s, if c.Count? then c.n else counter)
    case Fail => Fail
    case Done(n, rest) => Done(if c.Count? then Outcome(Count(n), counter) else Outcome(c, n), rest)
  }

  // --------------------------------------------------------------- messages

  /** State of the record loop. */
  datatype HeapCursor = HeapCursor(cells: seq<Cell>, seen: set<nat>, fixedAt: int, fixedCount: nat)

  /** The fixed-count array in progress is full, if there is one. */
  predicate FixedDone(fields: seq<Field>, fixedAt: int, fixedCount: nat) {
    0 <= fixedAt < |fields| ==> fixedCount == fields[fixedAt].arraySize
  }

  function ReadKnown(fields: seq<Field>, i: nat, wireType: nat, s: seq<byte>, c: HeapCursor): (r: Parse<HeapCursor>)
    requires HeapTable(fields) && i < |fields|
    ensures r.Done? ==> |r.rest| < |s|
    decreases |s|, 5
  {
    var f, home := fields[i], Home(fields, i);
    var begins := f.FixedCount() && c.fixedAt != i;
    if |c.cells| != |fields| || (begins && !FixedDone(fields, c.fixedAt, c.fixedCount)) then Fail
    else
      match ReadField(f, wireType, s, c.cells[home], if begins then 0 else c.fixedCount)
      case Fail => Fail
      case Done(o, rest) =>
        Done(HeapCursor(c.cells[home := o.cell], if f.htype.Required? then c.seen + {i} else c.seen,
                        if begins then i else c.fixedAt, o.counter), rest)
  }

  function ReadRecord(fields: seq<Field>, tag: nat, wireType: nat, s: seq<byte>, c: HeapCursor): (r: Parse<HeapCursor>)
    requires HeapTable(fields)
    ensures r.Done? ==> |r.rest| < |s|
    decreases |s|, 6
  {
    var i := Lookup(fields, tag);
    if i < |fields| then ReadKnown(fields, i, wireType, s, c)
    else if fields == [] && tag == 0 then
      match Varint32(s)
      case Fail => Fail
      case Done(_, rest) => Done(c, rest)
    else
      match Skip(wireType, s)
      case Fail => Fail
      case Done(_, rest) => Done(c, rest)
  }

  /** The loop ends with the bytes or at a zero key. */
  function ReadLoop(fields: seq<Field>, s: seq<byte>, c: HeapCursor): (r: Parse<HeapCursor>)
    requires HeapTable(fields)
    decreases |s|, 7
  {
    if s == [] then Done(c, [])
    else
      match Varint32(s)
      case Fail => Fail
      case Done(key, tail) =>
        if key == 0 then Done(c, tail)
        else
          match ReadRecord(fields, key / 8, key % 8, tail, c)
          case Fail => Fail
          case Done(c', rest) => ReadLoop(fields, rest, c')
  }

  /** pb_decode_noinit. */
  function ReadMsg(fields: seq<Field>, s: seq<byte>, cells: seq<Cell>): (r: Parse<seq<Cell>>)
    requires HeapTable(fields)
    decreases |s|, 8
  {
    match ReadLoop(fields, s, HeapCursor(cells, {}, -1, 0))
    case Fail => Fail
    case Done(c, rest) =>
      if FixedDone(fields, c.fixedAt, c.fixedCount) && RequiredSeen(fields, c.seen) then Done(c.cells, rest) else Fail
  }

  /** What a method reports about its input, given what reading makes of it: success with that result, or a
      failure that has a reason in the input or in the allocator. */
  ghost predicate Verdict<T>(r: Parse<T>, ok: bool, val: T, rest: seq<byte>, refused: bool) {
    if ok then r == Done(val, rest) && !refused else r.Fail? || refused
  }
}
