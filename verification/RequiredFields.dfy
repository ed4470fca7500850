/** The bitmap in which the decoder tracks required fields, and what its final comparison means. */
module RequiredFields {
  import opened Bits
  import opened Descriptors
  import opened Decoding

  /** Index of the k-th required field among the first n. */
  function NthRequiredOf(fields: seq<Field>, n: nat, k: nat): (j: nat)
    requires n <= |fields| && k < RequiredBefore(fields, n)
    ensures j < n && fields[j].htype.Required? && RequiredBefore(fields, j) == k
    decreases n
  {
    if k < RequiredBefore(fields, n - 1) then NthRequiredOf(fields, n - 1, k) else n - 1
  }

  function NthRequired(fields: seq<Field>, k: nat): (j: nat)
    requires k < RequiredBefore(fields, |fields|)
    ensures j < |fields| && fields[j].htype.Required? && RequiredBefore(fields, j) == k
  {
    NthRequiredOf(fields, |fields|, k)
  }

  lemma {:induction false} RequiredMonotone(fields: seq<Field>, i: nat, j: nat)
    requires i <= j <= |fields|
    ensures RequiredBefore(fields, i) <= RequiredBefore(fields, j)
    ensures i < j && fields[i].htype.Required? ==> RequiredBefore(fields, i) < RequiredBefore(fields, j)
    decreases j - i
  {
    if i < j { RequiredMonotone(fields, i, j - 1); }
  }

  /** Counting required fields numbers them without gaps or repetition. */
  lemma NthRequiredUnique(fields: seq<Field>, j: nat)
    requires j < |fields| && fields[j].htype.Required?
    ensures RequiredBefore(fields, j) < RequiredBefore(fields, |fields|)
    ensures NthRequired(fields, RequiredBefore(fields, j)) == j
  {
    RequiredMonotone(fields, j, |fields|);
    var k := NthRequired(fields, RequiredBefore(fields, j));
    if k < j { RequiredMonotone(fields, k, j); }
    if j < k { RequiredMonotone(fields, j, k); }
  }

  // ---------------------------------------------------------------- bitmap

  /** Bit k of the bitmap's 32-bit words. */
  ghost predicate BitmapHas(words: seq<nat>, k: nat)
    requires |words| == 2 && k < PB_MAX_REQUIRED_FIELDS
  {
    Bit(words[k / 32], k % 32)
  }

  /** The words have set exactly the bits of the required fields seen. */
  ghost predicate Tracks(words: seq<nat>, fields: seq<Field>, seen: set<nat>) {
    && |words| == 2 && words[0] < Pow2(32) && words[1] < Pow2(32)
    && forall k | 0 <= k < PB_MAX_REQUIRED_FIELDS ::
         BitmapHas(words, k) <==> k < RequiredBefore(fields, |fields|) && NthRequired(fields, k) in seen
  }

  lemma NothingTracked(fields: seq<Field>)
    ensures Tracks([0, 0], fields, {})
  {
    forall k | 0 <= k < PB_MAX_REQUIRED_FIELDS ensures !BitmapHas([0, 0], k) {
      ZeroHasNoBits(k % 32);
    }
  }

  /** Marks the field with the given required index, when it is within the tracked range. */
  method MarkSeen(fieldsSeen: array<nat>, requiredFieldIndex: nat, ghost fields: seq<Field>, ghost j: nat,
                  ghost seen: set<nat>)
    requires fieldsSeen.Length == 2 && j < |fields| && fields[j].htype.Required?
    requires requiredFieldIndex == RequiredBefore(fields, j)
    requires Tracks(fieldsSeen[..], fields, seen)
    modifies fieldsSeen
    ensures Tracks(fieldsSeen[..], fields, seen + {j})
  {
    ghost var before := fieldsSeen[..];
    if requiredFieldIndex < PB_MAX_REQUIRED_FIELDS {
      var word := requiredFieldIndex / 32;
      fieldsSeen[word] := Or(fieldsSeen[word], Pow2(requiredFieldIndex % 32));
    }
    MarkedTracks(before, fieldsSeen[..], requiredFieldIndex, fields, j, seen);
  }

  lemma MarkedTracks(before: seq<nat>, after: seq<nat>, r: nat, fields: seq<Field>, j: nat, seen: set<nat>)
    requires j < |fields| && fields[j].htype.Required? && r == RequiredBefore(fields, j)
    requires Tracks(before, fields, seen)
    requires after == if r < PB_MAX_REQUIRED_FIELDS then before[r / 32 := Or(before[r / 32], Pow2(r % 32))] else before
    ensures Tracks(after, fields, seen + {j})
  {
    NthRequiredUnique(fields, j);
    if r < PB_MAX_REQUIRED_FIELDS {
      Pow2Monotone(r % 32 + 1, 32);
      OrBound(before[r / 32], Pow2(r % 32), 32);
    }
    forall k | 0 <= k < PB_MAX_REQUIRED_FIELDS
      ensures BitmapHas(after, k)
              <==> k < RequiredBefore(fields, |fields|) && NthRequired(fields, k) in seen + {j}
    {
      assert BitmapHas(before, k) <==> k < RequiredBefore(fields, |fields|) && NthRequired(fields, k) in seen;
      if r < PB_MAX_REQUIRED_FIELDS && k / 32 == r / 32 {
        OrBit(before[k / 32], Pow2(r % 32), k % 32);
        BitOfPow2(r % 32, k % 32);
      }
    }
  }

  /** The comparison at the end of a message: whole words against all ones, then the remaining bits
      against a mask of that many ones. */
  method AllSeen(fieldsSeen: array<nat>, requiredCount: nat, ghost fields: seq<Field>, ghost seen: set<nat>)
    returns (ok: bool)
    requires fieldsSeen.Length == 2 && requiredCount == RequiredBefore(fields, |fields|)
    requires Tracks(fieldsSeen[..], fields, seen)
    ensures ok <==> RequiredSeen(fields, seen)
  {
    ghost var words := fieldsSeen[..];
    var allbits := 0xFFFF_FFFF;
    Pow2Word();
    var count := if requiredCount > PB_MAX_REQUIRED_FIELDS then PB_MAX_REQUIRED_FIELDS else requiredCount;
    AllSeenIff(words, fields, seen, count);
    if count > 0 {
      for i := 0 to count / 32
        invariant forall k | 0 <= k < i :: words[k] == Pow2(32) - 1
      {
        if fieldsSeen[i] != allbits {
          return false;
        }
      }
      if count % 32 != 0 {
        MaskShift(count % 32);
        if fieldsSeen[count / 32] != allbits / Pow2(32 - count % 32) {
          return false;
        }
      }
    }
    return true;
  }

  lemma MaskShift(m: nat)
    requires 0 < m < 32
    ensures 0xFFFF_FFFF / Pow2(32 - m) == Pow2(m) - 1
  {
    Pow2Word();
    Pow2Sum(m, 32 - m);
    MaskArithmetic(Pow2(m), Pow2(32 - m));
  }

  lemma MaskArithmetic(a: nat, b: nat)
    requires a >= 1 && b >= 1 && a * b == 0x1_0000_0000
    ensures 0xFFFF_FFFF / b == a - 1
  {
    assert (a - 1) * b == a * b - b;
    ModUnique(0xFFFF_FFFF, a - 1, b - 1, b);
  }

  ghost predicate WordsFull(words: seq<nat>, count: nat)
    requires |words| == 2 && count <= PB_MAX_REQUIRED_FIELDS
  {
    && (forall k | 0 <= k < count / 32 :: words[k] == Pow2(32) - 1)
    && (count % 32 != 0 ==> words[count / 32] == Pow2(count % 32) - 1)
  }

  /** The words compare equal exactly when every tracked required field was seen. */
  lemma AllSeenIff(words: seq<nat>, fields: seq<Field>, seen: set<nat>, count: nat)
    requires Tracks(words, fields, seen) && count <= PB_MAX_REQUIRED_FIELDS
    requires count == PB_MAX_REQUIRED_FIELDS <= RequiredBefore(fields, |fields|)
             || count == RequiredBefore(fields, |fields|)
    ensures WordsFull(words, count) <==> RequiredSeen(fields, seen)
  {
    FullIffBits(words, count, fields, seen);
    if HasRange(words, 0, count) {
      forall i | 0 <= i < |fields| && Tracked(fields, i) ensures i in seen {
        NthRequiredUnique(fields, i);
        assert BitmapHas(words, RequiredBefore(fields, i));
      }
    }
    if RequiredSeen(fields, seen) {
      forall k | 0 <= k < count ensures BitmapHas(words, k) {
        assert Tracked(fields, NthRequired(fields, k));
      }
    }
  }

  ghost predicate HasRange(words: seq<nat>, lo: nat, hi: nat)
    requires |words| == 2 && hi <= PB_MAX_REQUIRED_FIELDS
  {
    forall k | lo <= k < hi :: BitmapHas(words, k)
  }

  lemma WordFullIff(words: seq<nat>, w: nat, m: nat)
    requires |words| == 2 && w < 2 && m <= 32 && words[w] < Pow2(32)
    requires forall k | 32 * w + m <= k < 32 * w + 32 :: !BitmapHas(words, k)
    ensures words[w] == Pow2(m) - 1 <==> HasRange(words, 32 * w, 32 * w + m)
  {
    hide Bit, Pow2;
    MaskIffLowBits(words[w], m, 32);
    WordBits(words, w, m);
  }

  lemma FullIffBits(words: seq<nat>, count: nat, fields: seq<Field>, seen: set<nat>)
    requires Tracks(words, fields, seen) && count <= PB_MAX_REQUIRED_FIELDS
    requires count < PB_MAX_REQUIRED_FIELDS ==> count == RequiredBefore(fields, |fields|)
    ensures WordsFull(words, count) <==> HasRange(words, 0, count)
  {
    hide Bit, Pow2, BitmapHas, RequiredBefore;
    if count < 32 {
      WordFullIff(words, 0, count);
    } else if count < 64 {
      WordFullIff(words, 0, 32);
      WordFullIff(words, 1, count - 32);
      assert HasRange(words, 0, count) <==> HasRange(words, 0, 32) && HasRange(words, 32, count);
    } else {
      WordFullIff(words, 0, 32);
      WordFullIff(words, 1, 32);
      assert HasRange(words, 0, 64) <==> HasRange(words, 0, 32) && HasRange(words, 32, 64);
    }
    if count == 0 || count == 32 { assert HasRange(words, 0, count) || count > 0; }
  }

  /** Bits of one word, seen as bits of the bitmap. */
  lemma WordBits(words: seq<nat>, w: nat, m: nat)
    requires |words| == 2 && w < 2 && m <= 32
    requires forall k | 32 * w + m <= k < 32 * w + 32 :: !BitmapHas(words, k)
    ensures LowBits(words[w], m, 32) <==> forall k | 32 * w <= k < 32 * w + m :: BitmapHas(words, k)
  {
    forall k | 32 * w <= k < 32 * w + 32 ensures BitmapHas(words, k) == Bit(words[w], k - 32 * w) {
      assert k / 32 == w && k % 32 == k - 32 * w;
    }
    if LowBits(words[w], m, 32) {
      forall k | 32 * w <= k < 32 * w + m ensures BitmapHas(words, k) {
        assert Bit(words[w], k - 32 * w);
      }
    }
    if forall k | 32 * w <= k < 32 * w + m :: BitmapHas(words, k) {
      forall k | 0 <= k < 32 ensures Bit(words[w], k) == (k < m) {
        assert BitmapHas(words, 32 * w + k) == Bit(words[w], k);
      }
    }
  }
}
