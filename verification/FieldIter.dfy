/** The cyclic cursor over a descriptor table, with its data pointer and required-field count. */
module FieldIters {
  import opened Descriptors

  /** sizeof(void*) */
  const POINTER_SIZE: nat

  /** The row that ends every table: tag 0, and a type byte of 0, which reads as a required bool. */
  const LAST_FIELD: Field := Field(0, Bool, HType.Required, Static, 0, 0, 0, 0, Int(0), [])

  /** Row p of the table, the terminator included. */
  function RowAt(fields: seq<Field>, p: nat): Field
    requires p <= |fields|
  {
    if p < |fields| then fields[p] else LAST_FIELD
  }

  // ---------------------------------------------------------------- layout

  /** Size of the struct member that a field describes. */
  function MemberSize(f: Field): nat {
    if f.atype.Static? && f.htype.Repeated? then f.dataSize * f.arraySize
    else if f.atype.Pointer? then POINTER_SIZE
    else f.dataSize
  }

  /** The table was generated for a struct whose members lie at the given offsets: the first
      field records its offset, later ones the gap after the member before them, and union
      members after the first a marker instead of a gap. Union members share one selector. */
  ghost predicate LaidOut(fields: seq<Field>, offsets: seq<nat>) {
    && |offsets| == |fields|
    && (forall i | 0 <= i < |fields| :: fields[i].tag != 0)
    && (forall i | 0 <= i < |fields| :: GapAt(fields, offsets, i))
  }

  ghost predicate GapAt(fields: seq<Field>, offsets: seq<nat>, i: nat)
    requires i < |fields| == |offsets|
  {
    if i == 0 then fields[i].dataOffset == offsets[i]
    else if Continues(fields, i) then
      offsets[i] == offsets[i - 1] && fields[i].sizeOffset == fields[i - 1].sizeOffset
    else fields[i].dataOffset == offsets[i] - offsets[i - 1] - MemberSize(fields[i - 1])
  }

  /** The members of a struct lie one behind the other: an array takes all its entries, a pointer the size of a
      pointer. Only the members of one union share their place. */
  lemma {:induction false} MembersApart(fields: seq<Field>, offsets: seq<nat>, i: nat, j: nat)
    requires LaidOut(fields, offsets) && i < j < |fields| && Home(fields, i) != Home(fields, j)
    requires !fields[i].htype.Oneof?
    ensures var f := fields[i];
            offsets[j] >= offsets[i] + (if f.atype.Pointer? then POINTER_SIZE
                                        else if f.atype.Static? && f.htype.Repeated? then f.dataSize * f.arraySize
                                        else f.dataSize)
    decreases j
  {
    assert GapAt(fields, offsets, j);
    if i < j - 1 { MembersApart(fields, offsets, i, j - 1); }
  }

  /** Where the count, has-flag or selector is: in the struct, or in the decoder's own counter. */
  datatype SizePtr = At(address: int) | DecoderCounter

  /** Row p is one that a search for the tag stops at. */
  predicate Hit(fields: seq<Field>, tag: nat, p: nat)
    requires p < |fields|
  {
    fields[p].tag == tag && !fields[p].ltype.Extension?
  }

  /** k rows after row p of n, cyclically. */
  function Cyclic(n: nat, p: nat, k: nat): (q: nat)
    requires p < n && k < n
    ensures q < n
  {
    if p + k < n then p + k else p + k - n
  }

  /** The member offset that a table stands for. */
  function OffsetOf(fields: seq<Field>, i: nat): nat
    requires i < |fields|
  {
    if i == 0 then fields[i].dataOffset
    else if Continues(fields, i) then OffsetOf(fields, i - 1)
    else OffsetOf(fields, i - 1) + MemberSize(fields[i - 1]) + fields[i].dataOffset
  }

  function LayoutOf(fields: seq<Field>): seq<nat> {
    seq(|fields|, i requires 0 <= i < |fields| => OffsetOf(fields, i))
  }

  /** Every well-formed table is laid out for some struct. */
  lemma LaidOutSomehow(fields: seq<Field>)
    requires WellFormed(fields)
    ensures LaidOut(fields, LayoutOf(fields))
  {
    forall i | 0 <= i < |fields| ensures fields[i].tag != 0 && GapAt(fields, LayoutOf(fields), i) {
      assert WellFormedField(fields[i]);
    }
  }

  // -------------------------------------------------------------- iterator

  class FieldIter {
    var start: seq<Field>
    var pos: nat
    var requiredFieldIndex: nat
    var destStruct: int
    var pData: int
    var pSize: SizePtr
    ghost var offsets: seq<nat>

    /** The pointers and the count are a function of the position: the member's true address, its
        size field (unless the decoder redirected it), and the required fields passed. */
    ghost predicate Valid()
      reads this
    {
      && LaidOut(start, offsets)
      && (pos < |start| || (start == [] && pos == 0))
      && requiredFieldIndex == RequiredBefore(start, pos)
      && pData == destStruct + (if start == [] then 0 else offsets[pos])
      && (match pSize
          case At(address) => address == pData + RowAt(start, pos).sizeOffset
          case DecoderCounter => RowAt(start, pos).FixedCount())
    }

    constructor ()
    {
    }

    lemma PosInTable()
      requires Valid()
      ensures if start == [] then pos == 0 else pos < |start|
    {
    }

    /** Returns false for an empty table. */
    method Begin(fields: seq<Field>, dest: int, ghost layout: seq<nat>) returns (nonempty: bool)
      requires LaidOut(fields, layout)
      modifies this
      ensures Valid() && start == fields && destStruct == dest && offsets == layout
      ensures pos == 0 && pSize.At?
      ensures nonempty <==> fields != []
    {
      start, offsets := fields, layout;
      pos := 0;
      requiredFieldIndex := 0;
      destStruct := dest;
      pData := dest + RowAt(start, pos).dataOffset;
      pSize := At(pData + RowAt(start, pos).sizeOffset);
      nonempty := RowAt(start, pos).tag != 0;
      assert fields != [] ==> GapAt(fields, layout, 0);
    }

    /** Advances to the next row, wrapping to the first one; false when it wrapped or the table is empty. */
    method Next() returns (more: bool)
      requires Valid()
      modifies this
      ensures Valid() && start == old(start) && destStruct == old(destStruct) && offsets == old(offsets)
      ensures more <==> old(pos) + 1 < |start|
      ensures pos == if more then old(pos) + 1 else 0
      ensures start != [] ==> pSize.At?
      ensures start == [] ==> pSize == old(pSize)
    {
      var prev := RowAt(start, pos);
      if prev.tag == 0 {
        return false;
      }
      pos := pos + 1;
      if RowAt(start, pos).tag == 0 {
        var _ := Begin(start, destStruct, offsets);
        return false;
      }
      var field := RowAt(start, pos);
      assert GapAt(start, offsets, pos);
      if prev.htype.Oneof? && field.htype.Oneof? && field.dataOffset == PB_SIZE_MAX {
        // Inside a union the pointers stay where they are.
        return true;
      }
      var prevSize := prev.dataSize;
      if prev.atype.Static? && prev.htype.Repeated? {
        prevSize := prevSize * prev.arraySize;
      } else if prev.atype.Pointer? {
        prevSize := POINTER_SIZE;
      }
      if prev.htype.Required? {
        requiredFieldIndex := requiredFieldIndex + 1;
      }
      pData := pData + prevSize + field.dataOffset;
      pSize := At(pData + field.sizeOffset);
      return true;
    }

    /** Searches cyclically from the current row. Finds the first row with the tag, or passes every
        row once and comes back to where it began. */
    method Find(tag: nat) returns (found: bool, ghost steps: nat)
      requires Valid() && (tag >= 1 || start != [])
      modifies this
      ensures Valid() && start == old(start) && destStruct == old(destStruct) && offsets == old(offsets)
      ensures found <==> exists p :: 0 <= p < |start| && Hit(start, tag, p)
      ensures found ==> steps < |start| && pos == Cyclic(|start|, old(pos), steps) && Hit(start, tag, pos)
      ensures !found ==> pos == old(pos) && steps == (if start == [] then 1 else |start|)
      ensures start != [] ==> forall k | 0 <= k < steps :: !Hit(start, tag, Cyclic(|start|, old(pos), k))
      ensures pos != old(pos) || (!found && start != []) ==> pSize.At?
      ensures found && pos == old(pos) ==> pSize == old(pSize)
    {
      hide FieldIter.Valid;
      var begin := pos;
      steps := 0;
      PosInTable();
      while true
        invariant Valid() && start == old(start) && destStruct == old(destStruct) && offsets == old(offsets)
        invariant start == [] ==> steps == 0 == pos == begin
        invariant start != [] ==> steps < |start| && pos == Cyclic(|start|, begin, steps)
        invariant forall k | 0 <= k < steps :: !Hit(start, tag, Cyclic(|start|, begin, k))
        invariant steps > 0 ==> pSize.At?
        invariant steps == 0 ==> pSize == old(pSize)
        decreases |start| - steps
      {
        if RowAt(start, pos).tag == tag && !RowAt(start, pos).ltype.Extension? {
          assert pos < |start| && Hit(start, tag, pos);
          return true, steps;
        }
        var _ := Next();
        PosInTable();
        steps := steps + 1;
        if pos == begin { break; }
      }
      forall p | 0 <= p < |start| ensures !Hit(start, tag, p) {
        assert p == Cyclic(|start|, begin, if p >= begin then p - begin else p + |start| - begin);
      }
      return false, steps;
    }
  }
}
