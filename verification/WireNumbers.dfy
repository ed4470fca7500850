/** The wire format in literal numbers: which byte strings the 32-bit reader accepts, what skipping consumes
    for each wire type, and the single bytes of a fixed word. */
module WireNumbers {
  import opened Bits
  import opened Wire

  // ------------------------------------------------ what Varint32 accepts

  /** Byte k of a varint, above the fifth: no payload, or one byte of the sign extension of a word whose
      bit 31 is set. */
  predicate SignByte(b: byte, k: nat, word: nat) {
    b % 128 == 0 || (word >= TWO_31 && b == if k < 9 then 0xFF else 0x01)
  }

  ghost predicate SignBytes(s: seq<byte>, k: nat, word: nat)
    requires HasVarint(s)
  {
    forall j | 0 <= j < VarintLength(s) :: SignByte(s[j], k + j, word)
  }

  lemma SignBytesStep(s: seq<byte>, k: nat, word: nat)
    requires HasVarint(s) && s[0] >= 128
    ensures SignBytes(s, k, word) <==> SignByte(s[0], k, word) && SignBytes(s[1..], k + 1, word)
  {
    hide SignByte;
    var more := s[1..];
    if SignBytes(s, k, word) {
      forall j | 0 <= j < VarintLength(more) ensures SignByte(more[j], k + 1 + j, word) {
        assert SignByte(s[j + 1], k + (j + 1), word);
      }
    }
    if SignByte(s[0], k, word) && SignBytes(more, k + 1, word) {
      forall j | 0 <= j < VarintLength(s) ensures SignByte(s[j], k + j, word) {
        if j > 0 { assert SignByte(more[j - 1], k + 1 + (j - 1), word); }
      }
    }
  }

  lemma HighStep(s: seq<byte>, k: nat, acc: nat)
    requires 5 <= k <= 36 && acc < TWO_32 && s != []
    ensures Varint32From(s, 7 * k, acc).Done?
            <==> SignByte(s[0], k, acc) && (s[0] >= 128 ==> Varint32From(s[1..], (7 * k + 7) % 256, acc).Done?)
  {
    hide Or, Shl, Pow2;
    assert HighByteOk(s[0], 7 * k, acc) <==> SignByte(s[0], k, acc);
  }

  lemma {:induction false} HighBytes(s: seq<byte>, k: nat, acc: nat)
    requires 5 <= k <= 36 && acc < TWO_32 && HasVarint(s) && k + VarintLength(s) <= 37
    ensures Varint32From(s, 7 * k, acc).Done? <==> SignBytes(s, k, acc)
    decreases |s|
  {
    hide SignByte, SignBytes, Varint32From;
    HighStep(s, k, acc);
    if s[0] >= 128 {
      SignBytesStep(s, k, acc);
      HighBytes(s[1..], k + 1, acc);
    } else {
      OneSignByte(s, k, acc);
    }
  }

  lemma OneSignByte(s: seq<byte>, k: nat, word: nat)
    requires s != [] && s[0] < 128
    ensures SignBytes(s, k, word) <==> SignByte(s[0], k, word)
  {
    hide SignByte;
    if SignBytes(s, k, word) { assert SignByte(s[0], k + 0, word); }
  }

  lemma NoVarint32(s: seq<byte>, bitpos: nat, acc: nat)
    requires !HasVarint(s)
    ensures Varint32From(s, bitpos, acc).Fail?
  {
    if Varint32From(s, bitpos, acc).Done? { Varint32FromFrame(s, bitpos, acc); }
  }

  /** The fifth byte keeps its low four bits: as the last byte it must not have others. */
  lemma FifthByte(s: seq<byte>, acc: nat, p: nat)
    requires p == 28 && acc < Pow2(p) && s != [] && s[0] < 128
    ensures Varint32From(s, p, acc).Done? <==> acc + Shl(s[0], p) < TWO_32
  {
    hide Or;
    PowersOfTwo();
    ShlProduct(s[0], p);
  }

  lemma SameWord(acc: nat, y: nat, v: nat, p: nat)
    requires p == 28
    ensures (acc + Shl(y + 128 * v, p)) % TWO_32 == (acc + Shl(y, p)) % TWO_32
  {
    hide Shl, Pow2;
    NextGroup(y, v, p);
    HighGroupVanishes(v, p + 7);
    AddMod(acc + Shl(y, p), Shl(v, p + 7), TWO_32);
  }

  /** Byte k and the following ones of a varint that is read into acc. */
  ghost predicate Accepted(s: seq<byte>, k: nat, acc: nat)
    requires HasVarint(s)
  {
    var n, total := VarintLength(s), acc + Shl(VarintValue(s), 7 * k);
    if k + n <= 4 then true
    else if k + n == 5 then total < TWO_32
    else forall j | 0 <= j < n && k + j >= 5 :: SignByte(s[j], k + j, total % TWO_32)
  }

  lemma {:induction false} LowBytes(s: seq<byte>, k: nat, acc: nat)
    requires 1 <= k <= 4 && acc < Pow2(7 * k) && HasVarint(s) && k + VarintLength(s) <= 37
    ensures Varint32From(s, 7 * k, acc).Done? <==> Accepted(s, k, acc)
    decreases |s|
  {
    hide Or, Shl, Pow2, HighByteOk, Accumulate32, SignByte;
    var y := s[0] % 128;
    Shift32(acc, s[0], k);
    if s[0] < 128 {
      if k == 4 { FifthByte(s, acc, 28); }
    } else {
      var acc', more := Accumulate32(s[0], 7 * k, acc), s[1..];
      var v' := VarintValue(more);
      assert Varint32From(s, 7 * k, acc).Done? <==> Varint32From(more, 7 * k + 7, acc').Done?;
      if k == 4 {
        HighBytes(more, 5, acc');
        SameWord(acc, y, v', 28);
        ShiftedBytes(s, k, acc');
      } else {
        LowBytes(more, k + 1, acc');
        NextGroup(y, v', 7 * k);
        ShiftedBytes(s, k, (acc + Shl(VarintValue(s), 7 * k)) % TWO_32);
      }
    }
  }

  lemma ShiftedBytes(s: seq<byte>, k: nat, word: nat)
    requires HasVarint(s) && s[0] >= 128 && k <= 4
    ensures (forall j | 0 <= j < VarintLength(s) && k + j >= 5 :: SignByte(s[j], k + j, word))
            <==> forall j | 0 <= j < VarintLength(s[1..]) && k + 1 + j >= 5 :: SignByte(s[1..][j], k + 1 + j, word)
  {
    hide SignByte;
    var more := s[1..];
    if forall j | 0 <= j < VarintLength(s) && k + j >= 5 :: SignByte(s[j], k + j, word) {
      forall j | 0 <= j < VarintLength(more) && k + 1 + j >= 5 ensures SignByte(more[j], k + 1 + j, word) {
        assert SignByte(s[j + 1], k + (j + 1), word);
      }
    }
    if forall j | 0 <= j < VarintLength(more) && k + 1 + j >= 5 :: SignByte(more[j], k + 1 + j, word) {
      forall j | 0 <= j < VarintLength(s) && k + j >= 5 ensures SignByte(s[j], k + j, word) {
        assert SignByte(more[j - 1], k + 1 + (j - 1), word);
      }
    }
  }

  lemma Unshifted(v: nat)
    ensures Shl(v, 0) == v
  {
  }

  /** Four bytes always pass; five pass if the number is below 2^32; of more, those above the fifth carry
      no payload or are the sign extension of the low word. */
  predicate Fits32(s: seq<byte>)
    requires HasVarint(s)
  {
    var n := VarintLength(s);
    || n <= 4
    || (n == 5 && VarintValue(s) < TWO_32)
    || (n > 5 && forall j | 5 <= j < n :: SignByte(s[j], j, VarintValue(s) % TWO_32))
  }

  lemma LongFits(s: seq<byte>)
    requires HasVarint(s) && VarintLength(s) <= 37 && s[0] >= 128
    ensures Accepted(s[1..], 1, s[0] % 128) <==> Fits32(s)
  {
    hide Shl, Pow2, SignByte;
    ShlSeven(VarintValue(s[1..]), 0);
    Unshifted(128 * VarintValue(s[1..]));
    ShiftedBytes(s, 0, VarintValue(s) % TWO_32);
  }

  /** Up to 37 bytes the 32-bit reader accepts exactly these, and yields the low word. */
  lemma Varint32Exactly(s: seq<byte>)
    requires HasVarint(s) ==> VarintLength(s) <= 37
    ensures Varint32(s) == if HasVarint(s) && Fits32(s) then Done(VarintValue(s) % TWO_32, s[VarintLength(s)..])
                           else Fail
  {
    hide Or, Shl, Pow2, HighByteOk, Accumulate32, SignByte, Varint32From, Fits32, Accepted;
    if Varint32(s).Done? { Varint32Denotes(s); }
    if !HasVarint(s) {
      if s != [] { NoVarint32(s[1..], 7, s[0] % 128); }
    } else if s[0] >= 128 {
      Pow2At7();
      LowBytes(s[1..], 1, s[0] % 128);
      LongFits(s);
    } else {
      OneByteFits(s);
    }
  }

  lemma OneByteFits(s: seq<byte>)
    requires s != [] && s[0] < 128
    ensures Fits32(s)
  {
  }

  // --------------------------------------------------------------- skipping

  /** A length and that many bytes. */
  lemma DelimitedNumbers(s: seq<byte>)
    requires HasVarint(s) ==> VarintLength(s) <= 37
    ensures !HasVarint(s) ==> Skip(2, s) == Fail
    ensures HasVarint(s) ==>
              var end := VarintLength(s) + VarintValue(s) % TWO_32;
              Skip(2, s) == if Fits32(s) && end <= |s| then Done((), s[end..]) else Fail
  {
    hide Varint32, Fits32;
    Varint32Exactly(s);
    if ReadDelimited(s).Done? {
      var n, size := VarintLength(s), VarintValue(s) % TWO_32;
      assert s[n..][size..] == s[n + size..];
    }
  }

  /** Wire type 0 is a varint of any length, 1 is eight bytes, 2 is a length and that many bytes, 5 is four
      bytes, and nothing else can be skipped. */
  lemma SkipNumbers(s: seq<byte>, wireType: nat)
    ensures Skip(0, s) == if HasVarint(s) then Done((), s[VarintLength(s)..]) else Fail
    ensures Skip(1, s) == if |s| >= 8 then Done((), s[8..]) else Fail
    ensures !HasVarint(s) ==> Skip(2, s) == Fail
    ensures HasVarint(s) && VarintLength(s) <= 37 ==>
              var end := VarintLength(s) + VarintValue(s) % TWO_32;
              Skip(2, s) == if Fits32(s) && end <= |s| then Done((), s[end..]) else Fail
    ensures Skip(5, s) == if |s| >= 4 then Done((), s[4..]) else Fail
    ensures wireType !in {0, 1, 2, 5} ==> Skip(wireType, s) == Fail
  {
    hide ReadDelimited, Fits32, Wire.SkipVarint, VarintValue;
    SkipVarintFrame(s);
    if SkipVarint(s).Done? { assert SkipVarint(s).val == (); }
    if HasVarint(s) ==> VarintLength(s) <= 37 { DelimitedNumbers(s); }
  }

  // ------------------------------------------------------------ fixed words

  /** Byte k of a word holds bits 8k to 8k + 7. */
  lemma {:induction false} LittleEndianByte(v: nat, n: nat, k: nat)
    requires k < n
    ensures Pow2(8 * k) > 0
    ensures LittleEndian(v, n)[k] == v / Pow2(8 * k) % 256
    decreases k
  {
    if k > 0 {
      LittleEndianByte(v / 256, n - 1, k - 1);
      Pow2Sum(8, 8 * (k - 1));
      PowersOfTwo();
      DivTwice(v, Pow2(8 * (k - 1)));
    }
  }

  lemma DivTwice(v: nat, b: nat)
    requires b > 0
    ensures v / 256 / b == v / (256 * b)
  {
    var q := v / 256;
    var p, t := q / b, q % b;
    assert q == b * p + t;
    Regroup(b, p);
    ModUnique(v, p, 256 * t + v % 256, 256 * b);
  }

  lemma Regroup(b: nat, p: nat)
    ensures p * (256 * b) == 256 * (b * p)
  {
  }

  /** The eight bytes of a word are its base-256 digits, and the reader puts them together again. */
  lemma WordBytes(v: nat, n: nat, t: seq<byte>)
    requires n == 4 || n == 8
    requires v < (if n == 4 then TWO_32 else TWO_64)
    ensures ReadFixed(LittleEndian(v, n) + t, n) == Done(v, t)
    ensures forall k | 0 <= k < n :: LittleEndian(v, n)[k] == v / Pow2(8 * k) % 256
  {
    Pow2Word();
    Pow2Long();
    FixedRoundTrip(v, n, t);
    forall k | 0 <= k < n ensures LittleEndian(v, n)[k] == v / Pow2(8 * k) % 256 {
      LittleEndianByte(v, n, k);
    }
  }
}
