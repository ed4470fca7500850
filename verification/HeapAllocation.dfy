/** Allocation of pointer fields: the overflow check, and how packed arrays grow. */
module HeapAllocation {
  import opened Bits
  import opened Descriptors
  import opened InStreams
  import opened Decoder
  import opened HeapModel
  import opened HeapRelease

  // ---------------------------------------------------------- overflow check

  /** 1 shifted left by half the bits of size_t. */
  const CHECK_LIMIT: nat := if SIZE_MAX == 0xFFFF_FFFF then 0x1_0000 else 0x1_0000_0000

  /** The check that avoids a division when both sizes are small. */
  predicate SizeTooLarge(dataSize: nat, arraySize: nat)
    requires arraySize > 0
  {
    (dataSize >= CHECK_LIMIT || arraySize >= CHECK_LIMIT) && SIZE_MAX / arraySize < dataSize
  }

  /** It rejects exactly the products that do not fit size_t. */
  lemma SizeCheckExact(dataSize: nat, arraySize: nat)
    requires dataSize > 0 && arraySize > 0
    ensures SizeTooLarge(dataSize, arraySize) <==> dataSize * arraySize > SIZE_MAX
  {
    QuotientBound(SIZE_MAX, arraySize, dataSize);
    if dataSize < CHECK_LIMIT && arraySize < CHECK_LIMIT {
      ProductBelow(dataSize, arraySize, CHECK_LIMIT);
      assert CHECK_LIMIT * CHECK_LIMIT == SIZE_MAX + 1;
    }
  }

  lemma ProductBelow(a: nat, b: nat, m: nat)
    requires a < m && b < m
    ensures a * b < m * m
  {
    NotNegative(m - a, b);
    assert (m - a) * b == m * b - a * b;
    MulAtLeast(m - b, m);
    assert (m - b) * m == m * m - m * b;
  }

  lemma NotNegative(a: nat, b: nat)
    ensures a * b >= 0
  {
  }

  lemma QuotientBound(n: nat, a: nat, d: nat)
    requires a > 0
    ensures n / a < d <==> d * a > n
  {
    var q, r := n / a, n % a;
    assert n == a * q + r;
    if q < d {
      MulAtLeast(d - q, a);
      assert (d - q) * a == d * a - a * q;
    } else {
      assert (q - d) * a == a * q - d * a;
      assert (q - d) * a >= 0;
    }
  }

  /** Neither size is zero and their product fits size_t. */
  predicate SizesAllowed(dataSize: nat, arraySize: nat) {
    dataSize > 0 && arraySize > 0 && dataSize * arraySize <= SIZE_MAX
  }

  method CheckSizes(dataSize: nat, arraySize: nat) returns (ok: bool)
    ensures ok <==> SizesAllowed(dataSize, arraySize)
  {
    if dataSize == 0 || arraySize == 0 { return false; }
    SizeCheckExact(dataSize, arraySize);
    return !SizeTooLarge(dataSize, arraySize);
  }

  /** Keeps what fits of the old contents; new memory is unspecified data. */
  function Resized(contents: seq<Cell>, n: nat): (r: seq<Cell>)
    ensures |r| == n
  {
    if |contents| >= n then contents[..n] else contents + seq(n - |contents|, _ => Plain)
  }

  lemma ResizedIds(contents: seq<Cell>, n: nat)
    requires n < |contents| ==> NoIds(contents[n..])
    ensures Ids(Resized(contents, n)) == Ids(contents)
  {
    if |contents| >= n {
      assert contents == contents[..n] + contents[n..];
      IdsConcat(contents[..n], contents[n..]);
    } else {
      IdsNone(seq(n - |contents|, _ => Plain));
      IdsConcat(contents, seq(n - |contents|, _ => Plain));
    }
  }

  /** allocate_field: extends the block or allocates a first one; on failure the old block stays. */
  method AllocateField(h: Heap, p: Block, dataSize: nat, arraySize: nat, ghost frame: multiset<nat>)
    returns (ok: bool, p': Block)
    requires h.Has(frame, BlockIds(p))
    requires arraySize < |ContentsOf(p)| ==> NoIds(ContentsOf(p)[arraySize..])
    modifies h
    ensures h.Has(frame, BlockIds(p'))
    ensures if ok then p'.Live? && p'.contents == Resized(ContentsOf(p), arraySize) else p' == p
    ensures ok <==> SizesAllowed(dataSize, arraySize) && h.refusals == old(h.refusals)
    ensures h.refusals >= old(h.refusals)
    ensures h.Unadopted()
  {
    hide SizesAllowed, Heap.Valid, Ids, CellIds, BlockIds, Resized;
    BlockParts(p);
    p' := p;
    var allowed := CheckSizes(dataSize, arraySize);
    if !allowed { return false, p; }
    ghost var inner := Ids(ContentsOf(p));
    ResizedIds(ContentsOf(p), arraySize);
    var id;
    ok, id := h.Realloc(p, frame + inner);
    if ok {
      p' := Live(id, Resized(ContentsOf(p), arraySize));
      BlockParts(p');
    }
  }

  // ------------------------------------------------------------------ growth

  /** The new capacity of a full packed array: a guess from the bytes left, if that stays in range. */
  function Grown(capacity: nat, bytesLeft: nat, dataSize: nat): nat
    requires capacity <= PB_SIZE_MAX && bytesLeft > 0 && dataSize > 0
  {
    var remain := (bytesLeft - 1) / dataSize + 1;
    if remain < PB_SIZE_MAX - capacity then capacity + remain else capacity + 1
  }

  /** Growing an array that is not at the limit makes room for one more entry and stays in range. */
  lemma GrownInRange(capacity: nat, bytesLeft: nat, dataSize: nat)
    requires capacity < PB_SIZE_MAX && bytesLeft > 0 && dataSize > 0
    ensures capacity < Grown(capacity, bytesLeft, dataSize) <= PB_SIZE_MAX
  {
    QuotientNonNegative(bytesLeft - 1, dataSize);
  }

  /** The guess is the least number of entries that hold the bytes left, if their sum stays below the limit;
      otherwise the array grows by one entry. */
  lemma GuessExact(capacity: nat, bytesLeft: nat, dataSize: nat, n: nat)
    requires capacity < PB_SIZE_MAX && bytesLeft > 0 && dataSize > 0
    requires n > 0 && (n - 1) * dataSize < bytesLeft <= n * dataSize
    ensures Grown(capacity, bytesLeft, dataSize) == capacity + if capacity + n < PB_SIZE_MAX then n else 1
  {
    var r := bytesLeft - 1 - (n - 1) * dataSize;
    assert n * dataSize == (n - 1) * dataSize + dataSize;
    ModUnique(bytesLeft - 1, n - 1, r, dataSize);
  }

  lemma QuotientNonNegative(n: nat, d: nat)
    requires d > 0
    ensures n / d >= 0
  {
  }

  /** A scalar read for its effect on the stream only. */
  function View(f: Field): (v: Field)
    requires HeapField(f) && !f.ltype.Submessage?
    ensures WellFormedField(v) && v.ltype == f.ltype
  {
    var zero := if f.ltype.FixedLengthBytes? then Blob(Zeros(f.dataSize))
                else if StringLike(f.ltype) then Blob([]) else Int(0);
    Field(f.tag, f.ltype, HType.Required, Static, 0, 0, f.dataSize, 0, zero, [])
  }

  lemma DataSizePositive(f: Field)
    requires HeapField(f) && f.atype.Pointer? && f.htype.Repeated? && Packable(f.ltype)
    ensures f.dataSize > 0
  {
  }

  lemma TailOwnsNothing(f: Field, contents: seq<Cell>, n: nat)
    requires OkItems(f, contents) && Packable(f.ltype)
    ensures n < |contents| ==> NoIds(contents[n..])
    ensures OkItems(f, Resized(contents, n))
  {
    if n < |contents| {
      forall k | 0 <= k < |contents[n..]| ensures OkItem(f, contents[n..][k]) {
        assert contents[n..][k] == contents[n + k];
      }
      PlainIds(f, contents[n..]);
    }
    forall k | 0 <= k < n ensures OkItem(f, Resized(contents, n)[k]) {
      if k < |contents| { assert OkItem(f, contents[k]); }
    }
  }
}
