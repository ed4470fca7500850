/** Decoding scalars, strings and bytes of structs with pointers: static data, single allocated values, and
    packed arrays that grow. */
module HeapScalars {
  import opened Bits
  import opened Wire
  import opened Descriptors
  import opened InStreams
  import opened OutStreams
  import opened Decoding
  import opened Decoder
  import opened HeapModel
  import opened HeapRelease
  import opened HeapAllocation
  import opened HeapStops
  import opened HeapReading

  // ----------------------------------------------------------- static data

  /** The entries of a packed payload, until it or the array is exhausted. */
  method FillStatic(sub: InStream, f: Field, n: nat) returns (status: bool, n': nat)
    requires sub.Valid() && HeapField(f) && !f.ltype.Submessage?
    modifies sub
    ensures sub.Valid() && sub.Limit() == old(sub.Limit())
    ensures Verdict(ReadFill(f, old(sub.Rest()), n), status && sub.bytesLeft == 0, n', [], false)
    ensures n' == n || n' <= f.arraySize
  {
    hide HeapField, DecScalar, View;
    n', status := n, true;
    while sub.bytesLeft > 0 && n' < f.arraySize
      invariant sub.Valid() && sub.Limit() == old(sub.Limit()) && status
      invariant ReadFill(f, old(sub.Rest()), n) == ReadFill(f, sub.Rest(), n')
      invariant n' == n || n' <= f.arraySize
      decreases sub.bytesLeft
    {
      var item;
      status, item := DecodeScalar(sub, View(f));
      if !status { break; }
      n' := n' + 1;
    }
  }

  /** Static data without pointers is read for its effect on the stream and on the number of entries. That of
      a single entry is raised first, even when there is no room. */
  method DecodeStaticData(s: InStream, f: Field, wireType: nat, n: nat) returns (ok: bool, n': nat)
    requires s.Valid() && HeapField(f) && !f.ltype.Submessage? && f.arraySize <= PB_SIZE_MAX
    modifies s
    ensures s.Valid() && s.Advanced(ok)
    ensures n <= PB_SIZE_MAX ==> n' <= PB_SIZE_MAX
    ensures Verdict(ReadStatic(f, wireType, old(s.Rest()), n), ok, n', s.Rest(), false)
  {
    hide HeapField, ReadDelimited, DecScalar, View, ReadFill;
    n' := n;
    if f.htype.Repeated? && wireType == WT_STRING && Packable(f.ltype) {
      var made, sub := s.MakeStringSubstream();
      if !made { return false, n'; }
      label made:
      var status;
      status, n' := FillStatic(sub, f, n);
      assert unchanged@made(s);
      if sub.bytesLeft != 0 { return false, n'; }
      ok := s.CloseStringSubstream(sub);
      ok := ok && status;
    } else {
      if f.htype.Repeated? {
        n' := RaisedCount(n);
        if n >= f.arraySize { return false, n'; }
      }
      var item;
      ok, item := DecodeScalar(s, View(f));
    }
  }

  // --------------------------------------------------------- strings, bytes

  /** A string or bytes value behind a pointer: its own block is extended or allocated, then filled. */
  method DecodeLeaf(h: Heap, s: InStream, f: Field, p: Block, ghost frame: multiset<nat>) returns (ok: bool, p': Block)
    requires s.Valid() && StringLike(f.ltype) && (p.Live? ==> p.contents == [Plain])
    requires h.Has(frame, BlockIds(p))
    modifies h, s
    ensures s.Valid() && s.Advanced(ok)
    ensures h.Has(frame, BlockIds(p')) && h.Unadopted()
    ensures p'.Live? ==> p'.contents == [Plain]
    ensures ok || p.Live? ==> p'.Live?
    ensures h.refusals >= old(h.refusals)
    ensures Verdict(ReadLeaf(f, old(s.Rest())), ok, (), s.Rest(), h.refusals > old(h.refusals))
  {
    hide Varint32, BlockIds, Ids, Heap.Valid, SizesAllowed, AddSize, Resized;
    ResizedLeaf(p);
    p' := p;
    var size, data, allocSize;
    ok, size := s.DecodeVarint32();
    if !ok { return; }
    if f.ltype.Bytes? {
      if size > PB_SIZE_MAX { return false, p'; }
      allocSize := AddSize(BYTES_HEADER, size);
    } else {
      allocSize := (size + 1) % TWO_32;
    }
    if size > allocSize { return false, p'; }
    ok, p' := AllocateField(h, p, allocSize, 1, frame);
    if !ok { return; }
    ok, data := s.Read(size);
  }

  lemma ResizedLeaf(p: Block)
    requires p.Live? ==> p.contents == [Plain]
    ensures Resized(ContentsOf(p), 1) == [Plain]
  {
  }

  // ----------------------------------------------------------- packed arrays

  /** The entry at the count is overwritten; the block must reach that far. */
  function StoreScalar(f: Field, p: Block, at: nat): (p': Block)
    requires p.Live? && at < |p.contents| && OkItems(f, p.contents) && Packable(f.ltype)
    ensures p'.Live? && |p'.contents| == |p.contents| && OkItems(f, p'.contents) && BlockIds(p') == BlockIds(p)
  {
    assert OkItem(f, p.contents[at]);
    assert p.contents[at := Plain] == p.contents;
    Live(p.id, p.contents[at := Plain])
  }

  /** Decodes entries while there are bytes, growing the block whenever the count reaches its size.
      Every entry is stored below the allocated size, which never passes PB_SIZE_MAX. */
  method FillPackedPointer(h: Heap, sub: InStream, f: Field, len: nat, p: Block, ghost frame: multiset<nat>)
    returns (status: bool, len': nat, p': Block)
    requires sub.Valid() && HeapField(f) && f.atype.Pointer? && f.htype.Repeated? && Packable(f.ltype)
    requires !f.ltype.Submessage? && f.dataSize > 0
    requires len <= |ContentsOf(p)| <= PB_SIZE_MAX && OkItems(f, ContentsOf(p))
    requires h.Has(frame, BlockIds(p))
    modifies h, sub
    ensures sub.Valid() && sub.Limit() == old(sub.Limit()) && h.Has(frame, BlockIds(p')) && h.Unadopted()
    ensures len <= len' <= |ContentsOf(p')| <= PB_SIZE_MAX && OkItems(f, ContentsOf(p'))
    ensures status ==> sub.bytesLeft == 0 && (len' == len ==> p' == p)
    ensures h.refusals >= old(h.refusals)
    ensures Verdict(ReadPacked(f, old(sub.Rest()), len, len), status, len', [], h.refusals > old(h.refusals))
  {
    hide OkItems, OkItem, BlockIds, HeapField, Heap.Valid, DecScalar, View, SizesAllowed, Grown;
    len', p' := len, p;
    var capacity := len;
    status := true;
    while sub.bytesLeft > 0
      invariant sub.Valid() && sub.Limit() == old(sub.Limit())
      invariant h.Has(frame, BlockIds(p')) && h.Unadopted() && h.refusals == old(h.refusals)
      invariant len <= len' <= capacity <= |ContentsOf(p')| <= PB_SIZE_MAX
      invariant OkItems(f, ContentsOf(p')) && (len' == len ==> p' == p)
      invariant ReadPacked(f, old(sub.Rest()), len, len) == ReadPacked(f, sub.Rest(), len', capacity)
      decreases sub.bytesLeft
    {
      if len' == PB_SIZE_MAX {
        return false, len', p';
      }
      if len' + 1 > capacity {
        GrownInRange(capacity, sub.bytesLeft, f.dataSize);
        capacity := Grown(capacity, sub.bytesLeft, f.dataSize);
        TailOwnsNothing(f, ContentsOf(p'), capacity);
        status, p' := AllocateField(h, p', f.dataSize, capacity, frame);
        if !status { return; }
      }
      var item;
      status, item := DecodeScalar(sub, View(f));
      if !status { return; }
      p' := StoreScalar(f, p', len');
      len' := len' + 1;
    }
    status := true;
  }

  /** A packed record of an allocated array; on every path the block stays owned and as large as the count. */
  method DecodePackedPointer(h: Heap, s: InStream, f: Field, len: nat, p: Block, ghost frame: multiset<nat>)
    returns (ok: bool, len': nat, p': Block)
    requires s.Valid() && HeapField(f) && f.atype.Pointer? && f.htype.Repeated? && Packable(f.ltype)
    requires len <= |ContentsOf(p)| <= PB_SIZE_MAX && OkItems(f, ContentsOf(p))
    requires h.Has(frame, BlockIds(p))
    modifies h, s
    ensures s.Valid() && s.Advanced(ok)
    ensures h.Has(frame, BlockIds(p')) && h.Unadopted()
    ensures len <= len' <= |ContentsOf(p')| <= PB_SIZE_MAX && OkItems(f, ContentsOf(p'))
    ensures h.refusals >= old(h.refusals)
    ensures Verdict(ReadMany(f, WT_STRING, old(s.Rest()), len, Counting(EraseBlock(p), len)),
                    ok, EraseCell(PtrMany(len', p')), s.Rest(), h.refusals > old(h.refusals))
  {
    hide Heap.Valid, ReadDelimited, ReadPacked, OkItem, OkItems, EraseBlock, BlockIds, HeapField, EraseCells, Grown,
         Counting;
    DataSizePositive(f);
    len', p' := len, p;
    var made, sub := s.MakeStringSubstream();
    if !made { return false, len', p'; }
    label made:
    var status;
    status, len', p' := FillPackedPointer(h, sub, f, len, p, frame);
    assert unchanged@made(s);
    ok := s.CloseStringSubstream(sub);
    ok := ok && status;
    if ok && len' > len { PackedErased(f, len', p'); }
  }

  /** Scalars look alike. */
  lemma PackedErased(f: Field, len: nat, p: Block)
    requires p.Live? && len <= |p.contents| && OkItems(f, p.contents) && Packable(f.ltype)
    ensures Counting(EraseBlock(p), len) == Live(0, seq(len, _ => Plain))
  {
    hide OkItem, EraseCell;
    var contents := EraseCells(p.contents);
    forall k | 0 <= k < len ensures contents[k] == Plain {
      assert OkItem(f, p.contents[k]);
      PlainErased(f, p.contents[k]);
    }
  }

  lemma PlainErased(f: Field, c: Cell)
    requires OkItem(f, c) && Packable(f.ltype)
    ensures EraseCell(c) == Plain
  {
  }
}
