/** The wire format on byte sequences: varints, ZigZag, fixed words and length-delimited
    records, as pure functions. The stream methods are proved against these. */
module Wire {
  import opened Bits

  /** A reader either fails or yields a value and the bytes it did not consume. */
  datatype Parse<+T> = Fail | Done(val: T, rest: seq<byte>)

  const WT_VARINT: nat := 0
  const WT_64BIT: nat := 1
  const WT_STRING: nat := 2
  const WT_32BIT: nat := 5

  // ---------------------------------------------------------------- writing

  /** Base 128, least significant group first, top bit set on all but the last byte. */
  function EncVarint(v: nat): (bs: seq<byte>)
    ensures |bs| >= 1
  {
    if v < 128 then [v] else [v % 128 + 128] + EncVarint(v / 128)
  }

  function LittleEndian(v: nat, n: nat): (bs: seq<byte>)
    ensures |bs| == n
    decreases n
  {
    if n == 0 then [] else [v % 256] + LittleEndian(v / 256, n - 1)
  }

  function Delimited(body: seq<byte>): (bs: seq<byte>)
    ensures |bs| > |body|
  {
    EncVarint(|body|) + body
  }

  /** A signed 64-bit integer reinterpreted as unsigned. */
  function AsUnsigned(n: int): nat
    requires -TWO_63 <= n < TWO_63
  {
    if n < 0 then n + TWO_64 else n
  }

  /** An unsigned 64-bit word reinterpreted as signed. */
  function AsSigned(u: nat): int
    requires u < TWO_64
  {
    if u < TWO_63 then u else u - TWO_64
  }

  /** Shift the word left by one and complement it when the number was negative. */
  function ZigZag(n: int): (u: nat)
    requires -TWO_63 <= n < TWO_63
    ensures u < TWO_64
  {
    var shifted := (AsUnsigned(n) * 2) % TWO_64;
    if n < 0 then TWO_64 - 1 - shifted else shifted
  }

  /** The low bit chooses between the halved word and its complement. */
  function UnZigZag(u: nat): int
    requires u < TWO_64
  {
    if u % 2 == 1 then AsSigned(TWO_64 - 1 - u / 2) else AsSigned(u / 2)
  }

  // ---------------------------------------------------------------- reading

  function FromLittleEndian(bs: seq<byte>): nat {
    if bs == [] then 0 else bs[0] + 256 * FromLittleEndian(bs[1..])
  }

  function ReadFixed(s: seq<byte>, n: nat): Parse<nat> {
    if |s| < n then Fail else Done(FromLittleEndian(s[..n]), s[n..])
  }

  /** The loop of the 64-bit varint reader, from a given bit position and accumulator. */
  function Varint64From(s: seq<byte>, bitpos: nat, acc: nat): (r: Parse<nat>)
    ensures r.Done? ==> |r.rest| < |s|
  {
    if bitpos >= 64 || s == [] then Fail
    else
      var acc' := Or(acc, Shl(s[0] % 128, bitpos) % TWO_64);
      if s[0] >= 128 then Varint64From(s[1..], bitpos + 7, acc') else Done(acc', s[1..])
  }

  function Varint64(s: seq<byte>): Parse<nat> {
    Varint64From(s, 0, 0)
  }

  /** The check the 32-bit reader makes on a byte above bit 31: zero payload, or sign extension. */
  predicate HighByteOk(b: byte, bitpos: nat, acc: nat) {
    var signExtension := if bitpos < 63 then 0xFF else 0x01;
    b % 128 == 0 || (acc / TWO_31 != 0 && b == signExtension)
  }

  /** The 32-bit reader's accumulator after one more byte. */
  function Accumulate32(b: byte, bitpos: nat, acc: nat): nat {
    if bitpos >= 32 then acc else Or(acc, Shl(b % 128, bitpos) % TWO_32)
  }

  /** The loop of the 32-bit varint reader; the 8-bit bit position wraps around. */
  function Varint32From(s: seq<byte>, bitpos: nat, acc: nat): (r: Parse<nat>)
    ensures r.Done? ==> |r.rest| < |s|
  {
    if s == [] then Fail
    else if bitpos >= 32 && !HighByteOk(s[0], bitpos, acc) then Fail
    else
      var acc', bitpos' := Accumulate32(s[0], bitpos, acc), (bitpos + 7) % 256;
      if s[0] >= 128 then Varint32From(s[1..], bitpos', acc')
      else if bitpos' == 35 && (s[0] / 16) % 8 != 0 then Fail
      else Done(acc', s[1..])
  }

  function Varint32(s: seq<byte>): (r: Parse<nat>)
    ensures r.Done? ==> |r.rest| < |s|
  {
    if s == [] then Fail
    else if s[0] < 128 then Done(s[0], s[1..])
    else Varint32From(s[1..], 7, s[0] % 128)
  }

  function SkipVarint(s: seq<byte>): (r: Parse<()>)
    ensures r.Done? ==> |r.rest| < |s|
  {
    if s == [] then Fail
    else if s[0] >= 128 then SkipVarint(s[1..])
    else Done((), s[1..])
  }

  /** A 32-bit length followed by that many bytes. */
  function ReadDelimited(s: seq<byte>): (r: Parse<seq<byte>>)
    ensures r.Done? ==> |r.val| + |r.rest| < |s|
  {
    match Varint32(s)
    case Fail => Fail
    case Done(n, tail) => if |tail| < n then Fail else Done(tail[..n], tail[n..])
  }

  function Drop(s: seq<byte>, n: nat): Parse<()> {
    if |s| < n then Fail else Done((), s[n..])
  }

  /** Skipping a field knows only its wire type. */
  function Skip(wireType: nat, s: seq<byte>): (r: Parse<()>)
    ensures r.Done? ==> |r.rest| < |s|
  {
    if wireType == WT_VARINT then SkipVarint(s)
    else if wireType == WT_64BIT then Drop(s, 8)
    else if wireType == WT_STRING then
      match ReadDelimited(s)
      case Fail => Fail
      case Done(_, tail) => Done((), tail)
    else if wireType == WT_32BIT then Drop(s, 4)
    else Fail
  }

  // ------------------------------------------------- what a varint denotes

  /** The sequence starts with a complete varint. */
  predicate HasVarint(s: seq<byte>) {
    s != [] && (s[0] >= 128 ==> HasVarint(s[1..]))
  }

  function VarintLength(s: seq<byte>): (n: nat)
    requires HasVarint(s)
    ensures 1 <= n <= |s|
  {
    if s[0] >= 128 then 1 + VarintLength(s[1..]) else 1
  }

  /** The unbounded number that the leading varint spells in base 128. */
  function VarintValue(s: seq<byte>): nat
    requires HasVarint(s)
  {
    s[0] % 128 + (if s[0] >= 128 then 128 * VarintValue(s[1..]) else 0)
  }

  lemma {:induction false} SkipVarintFrame(s: seq<byte>)
    ensures SkipVarint(s).Done? <==> HasVarint(s)
    ensures HasVarint(s) ==> SkipVarint(s).rest == s[VarintLength(s)..]
  {
    if s != [] && s[0] >= 128 { SkipVarintFrame(s[1..]); }
  }

  lemma {:induction false} EncVarintDenotes(v: nat, t: seq<byte>)
    ensures HasVarint(EncVarint(v) + t)
    ensures VarintLength(EncVarint(v) + t) == |EncVarint(v)|
    ensures VarintValue(EncVarint(v) + t) == v
  {
    var s := EncVarint(v) + t;
    if v >= 128 {
      assert s[1..] == EncVarint(v / 128) + t;
      EncVarintDenotes(v / 128, t);
    }
  }

  lemma {:induction false} EncVarintLength(v: nat, n: nat)
    requires v < Pow2(7 * n + 7)
    ensures |EncVarint(v)| <= n + 1
  {
    if n == 0 {
      Pow2At7();
    } else {
      Pow2Seven(7 * n);
      if v >= 128 { EncVarintLength(v / 128, n - 1); }
    }
  }

  // ------------------------------------------------------ varint agreement

  lemma OrShifted(acc: nat, y: nat, p: nat, q: nat)
    requires p <= q && acc < Pow2(p)
    ensures Or(acc, Shl(y, p) % Pow2(q)) == acc + Shl(y, p) % Pow2(q)
  {
    ShiftTruncated(y, p, q);
    OrDisjoint(acc, y % Pow2(q - p), p);
  }

  /** Below bit 63 nothing is lost: a step of the 64-bit reader adds the shifted group. */
  lemma Varint64Step(s: seq<byte>, k: nat, acc: nat)
    requires k <= 8 && acc < Pow2(7 * k) && s != []
    ensures var acc' := acc + Shl(s[0] % 128, 7 * k);
            && acc' < Pow2(7 * k + 7) <= TWO_63
            && Varint64From(s, 7 * k, acc)
               == if s[0] >= 128 then Varint64From(s[1..], 7 * k + 7, acc') else Done(acc', s[1..])
  {
    hide Or, Shl, Pow2;
    var y := s[0] % 128;
    Pow2Long();
    Pow2Sign();
    Pow2At7();
    OrShifted(acc, y, 7 * k, 64);
    ShlBound(y, 7, 7 * k);
    Pow2Monotone(7 * k + 7, 63);
  }

  /** The tenth byte contributes its lowest bit only, and must be the last. */
  lemma Varint64LastStep(s: seq<byte>, p: nat, acc: nat)
    requires p == 63 && acc < Pow2(p) && s != []
    ensures Varint64From(s, p, acc)
            == if s[0] >= 128 then Fail else Done((acc + Shl(s[0], p)) % TWO_64, s[1..])
  {
    hide Or, Shl, Pow2;
    var y := s[0] % 128;
    TopBit(y, p);
    OrShifted(acc, y, p, p + 1);
    Pow2Sign();
    Pow2Long();
    WrappedSum(acc, Shl(y, p), Pow2(p));
  }

  lemma TopBit(y: nat, p: nat)
    ensures Shl(y, p) % Pow2(p + 1) <= Pow2(p)
  {
    ShiftTruncated(y, p, p + 1);
    assert Pow2(1) == 2;
    ShlBound(y % 2, 1, p);
  }

  lemma WrappedSum(acc: nat, x: nat, half: nat)
    requires 2 * half == TWO_64 && acc < half && x % TWO_64 <= half
    ensures acc + x % TWO_64 == (acc + x) % TWO_64
  {
    AddMod(acc, x, TWO_64);
  }

  /** 64-bit reading accepts exactly the varints of at most ten bytes, and yields the
      denoted number modulo 2^64. */
  lemma {:induction false} Varint64FromDenotes(s: seq<byte>, k: nat, acc: nat)
    requires k <= 9 && acc < Pow2(7 * k)
    ensures var r := Varint64From(s, 7 * k, acc);
            && (r.Done? <==> HasVarint(s) && k + VarintLength(s) <= 10)
            && (r.Done? ==> && r.rest == s[VarintLength(s)..]
                            && r.val == (acc + Shl(VarintValue(s), 7 * k)) % TWO_64)
    decreases |s|
  {
    hide Or, Shl, Pow2;
    if s != [] {
      if k == 9 {
        Varint64LastStep(s, 7 * k, acc);
      } else {
        var y := s[0] % 128;
        Varint64Step(s, k, acc);
        if s[0] >= 128 {
          Varint64FromDenotes(s[1..], k + 1, acc + Shl(y, 7 * k));
          if HasVarint(s[1..]) { NextGroup(y, VarintValue(s[1..]), 7 * k); }
        }
      }
    }
  }

  lemma NextGroup(y: nat, v: nat, p: nat)
    ensures Shl(y + 128 * v, p) == Shl(y, p) + Shl(v, p + 7)
  {
    ShlAdd(y, 128 * v, p);
    ShlSeven(v, p);
  }

  lemma Varint64Denotes(s: seq<byte>)
    ensures var r := Varint64(s);
            && (r.Done? <==> HasVarint(s) && VarintLength(s) <= 10)
            && (r.Done? ==> && r.rest == s[VarintLength(s)..]
                            && r.val == VarintValue(s) % TWO_64)
  {
    PowersOfTwo();
    assert 7 * 0 == 0;
    Varint64FromDenotes(s, 0, 0);
  }

  /** Below bit 28 the 32-bit accumulator loses nothing; the fifth group keeps its low four bits. */
  lemma Shift32(acc: nat, b: byte, k: nat)
    requires 1 <= k <= 4 && acc < Pow2(7 * k)
    ensures k < 4 ==> Accumulate32(b, 7 * k, acc) == acc + Shl(b % 128, 7 * k) < Pow2(7 * k + 7)
    ensures Accumulate32(b, 7 * k, acc) == (acc + Shl(b % 128, 7 * k)) % TWO_32
  {
    hide Or, Shl, Pow2;
    var y, p := b % 128, 7 * k;
    Pow2Word();
    OrShifted(acc, y, p, 32);
    if k < 4 {
      Pow2At7();
      ShlBound(y, 7, p);
      Pow2Monotone(7 + p, 28);
      Pow2Monotone(28, 32);
    } else {
      FifthGroup(acc, y, p);
    }
  }

  lemma FifthGroup(acc: nat, y: nat, p: nat)
    requires p <= 32 && acc < Pow2(p)
    ensures acc + Shl(y, p) % TWO_32 == (acc + Shl(y, p)) % TWO_32
  {
    hide Or, Shl, Pow2;
    Pow2Word();
    ShiftTruncated(y, p, 32);
    ShlBound(y % Pow2(32 - p), 32 - p, p);
    AddMod(acc, Shl(y, p), TWO_32);
  }

  lemma HighGroupVanishes(v: nat, bitpos: nat)
    requires bitpos >= 32
    ensures Shl(v, bitpos) % TWO_32 == 0
  {
    Pow2Word();
    ShlProduct(v, bitpos);
    Pow2Sum(bitpos - 32, 32);
    var k := v * Pow2(bitpos - 32);
    MulAssoc(v, Pow2(bitpos - 32), TWO_32);
    ModShifted(0, k, TWO_32);
  }

  lemma MulAssoc(a: nat, b: nat, c: nat)
    ensures a * (b * c) == (a * b) * c
  {
  }

  /** 32-bit reading frames its input like skipping does, whatever the length. */
  lemma {:induction false} Varint32FromFrame(s: seq<byte>, bitpos: nat, acc: nat)
    requires Varint32From(s, bitpos, acc).Done?
    ensures HasVarint(s) && Varint32From(s, bitpos, acc).rest == s[VarintLength(s)..]
    decreases |s|
  {
    if s[0] >= 128 {
      Varint32FromFrame(s[1..], (bitpos + 7) % 256, Accumulate32(s[0], bitpos, acc));
    }
  }

  /** Above bit 31 the accumulator no longer changes. */
  lemma {:induction false} Varint32HighKeeps(s: seq<byte>, k: nat, acc: nat)
    requires 5 <= k && acc < TWO_32
    requires Varint32From(s, 7 * k, acc).Done?
    requires HasVarint(s) && k + VarintLength(s) <= 37
    ensures Varint32From(s, 7 * k, acc).val == acc
    decreases |s|
  {
    hide Or, Shl, Pow2, HighByteOk;
    if s[0] >= 128 { Varint32HighKeeps(s[1..], k + 1, acc); }
  }

  /** Up to 37 bytes, where the bit position has not wrapped yet, an accepted 32-bit read is the denoted
      number modulo 2^32. */
  lemma {:induction false} Varint32FromDenotes(s: seq<byte>, k: nat, acc: nat)
    requires 1 <= k <= 5 && acc < TWO_32
    requires k <= 4 ==> acc < Pow2(7 * k)
    requires Varint32From(s, 7 * k, acc).Done?
    requires HasVarint(s) && k + VarintLength(s) <= 37
    ensures Varint32From(s, 7 * k, acc).val == (acc + Shl(VarintValue(s), 7 * k)) % TWO_32
    decreases |s|
  {
    hide Or, Shl, Pow2, HighByteOk, Accumulate32;
    var y := s[0] % 128;
    if k == 5 {
      HighGroupVanishes(VarintValue(s), 7 * k);
      Varint32HighKeeps(s, k, acc);
    } else {
      Shift32(acc, s[0], k);
      if s[0] >= 128 {
        var acc' := Accumulate32(s[0], 7 * k, acc);
        var v' := VarintValue(s[1..]);
        Varint32FromDenotes(s[1..], k + 1, acc');
        NextGroup(y, v', 7 * k);
        AddMod(acc + Shl(y, 7 * k), Shl(v', 7 * k + 7), TWO_32);
      }
    }
  }

  lemma Varint32Denotes(s: seq<byte>)
    requires Varint32(s).Done?
    ensures HasVarint(s) && Varint32(s).rest == s[VarintLength(s)..]
    ensures VarintLength(s) <= 37 ==> Varint32(s).val == VarintValue(s) % TWO_32
  {
    hide Or, Pow2, HighByteOk, Accumulate32, Varint32From;
    Pow2At7();
    if s[0] >= 128 {
      Varint32FromFrame(s[1..], 7, s[0] % 128);
      if VarintLength(s) <= 37 {
        ShlSeven(VarintValue(s[1..]), 0);
        Varint32FromDenotes(s[1..], 1, s[0] % 128);
      }
    }
  }

  // ------------------------------------------------- overlong 32-bit varints

  function Padding(n: nat): (bs: seq<byte>)
    ensures |bs| == n
  {
    seq(n, _ => 128)
  }

  /** Padding bytes 0x80 only move the bit position on, around the wrap at 256. */
  lemma {:induction false} PaddingKeeps(n: nat, p: nat, t: seq<byte>)
    requires p < 256
    ensures Varint32From(Padding(n) + t, p, 0) == Varint32From(t, (p + 7 * n) % 256, 0)
    decreases n
  {
    hide Varint32From, Padding;
    if n == 0 {
      assert Padding(n) + t == t;
    } else {
      var s := Padding(n) + t;
      PaddingHead(n, t);
      PaddingByte(s, p);
      PaddingKeeps(n - 1, (p + 7) % 256, t);
      PositionStep(p, n - 1);
    }
  }

  lemma PositionStep(p: nat, n: nat)
    ensures ((p + 7) % 256 + 7 * n) % 256 == (p + 7 * (n + 1)) % 256
  {
    AddMod(p + 7, 7 * n, 256);
  }

  lemma PaddingHead(n: nat, t: seq<byte>)
    requires n > 0
    ensures var s := Padding(n) + t; s[0] == 128 && s[1..] == Padding(n - 1) + t
  {
  }

  lemma PaddingByte(s: seq<byte>, p: nat)
    requires s != [] && s[0] == 128
    ensures Varint32From(s, p, 0) == Varint32From(s[1..], (p + 7) % 256, 0)
  {
    hide Shl, Pow2, Or;
    ShlZero(p);
    OrZero(0);
  }

  /** The value of a final byte behind padding of a given length. */
  lemma PaddedByte(n: nat, b: byte, p: nat)
    requires n > 0 && p == (7 * n) % 256 && p < 32 && p != 28 && b < 128
    ensures Varint32(Padding(n) + [b]) == Done(Shl(b, p) % TWO_32, [])
  {
    hide Shl, Or, Varint32From;
    var s := Padding(n) + [b];
    assert s[1..] == Padding(n - 1) + [b];
    PaddingKeeps(n - 1, 7, [b]);
    OrZero(Shl(b, p) % TWO_32);
    LastByte(b, p);
  }

  lemma LastByte(b: byte, p: nat)
    requires p < 32 && p != 28 && b < 128
    ensures Varint32From([b], p, 0) == Done(Or(0, Shl(b, p) % TWO_32), [])
  {
    hide Or, Shl;
  }

  /** Beyond 37 bytes the bit position has wrapped: 37 bytes of padding and a 1 are read as 8, and
      41 bytes of padding and a 2 as 0. */
  lemma LongVarintsWrap()
    ensures Varint32(Padding(37) + [1]) == Done(8, [])
    ensures Varint32(Padding(41) + [2]) == Done(0, [])
  {
    hide Shl, Varint32, Padding;
    PaddedByte(37, 1, 3);
    PaddedByte(41, 2, 31);
    ShlProduct(1, 3);
    ShlProduct(2, 31);
    PowersOfTwo();
  }

  // -------------------------------------------------- zero keys, bad varints

  /** Once a bit is set the 32-bit reader does not lose it. */
  lemma {:induction false} BitsStay(s: seq<byte>, p: nat, acc: nat)
    requires Varint32From(s, p, acc).Done?
    ensures Varint32From(s, p, acc).val >= acc
    decreases |s|
  {
    hide Or, Shl, HighByteOk;
    OrAtLeast(acc, Shl(s[0] % 128, p) % TWO_32);
    if s[0] >= 128 { BitsStay(s[1..], (p + 7) % 256, Accumulate32(s[0], p, acc)); }
  }

  /** A zero that the 32-bit reader accepts ends in a zero byte, up to 37 bytes. */
  lemma {:induction false} ZeroFrom(s: seq<byte>, k: nat)
    requires 1 <= k && HasVarint(s) && k + VarintLength(s) <= 37
    requires Varint32From(s, 7 * k, 0).Done? && Varint32From(s, 7 * k, 0).val == 0
    ensures s[VarintLength(s) - 1] == 0
    decreases |s|
  {
    hide Or, Shl;
    var acc := Accumulate32(s[0], 7 * k, 0);
    if s[0] >= 128 {
      BitsStay(s[1..], 7 * k + 7, acc);
      ZeroFrom(s[1..], k + 1);
    } else if k < 5 {
      ZeroGroup(s[0], k);
    }
  }

  lemma ZeroGroup(b: byte, k: nat)
    requires 1 <= k < 5 && b < 128 && Accumulate32(b, 7 * k, 0) == 0
    requires k == 4 ==> (b / 16) % 8 == 0
    ensures b == 0
  {
    hide Or, Shl, Pow2;
    PowersOfTwo();
    OrZero(Shl(b, 7 * k) % TWO_32);
    ShlProduct(b, 7 * k);
  }

  lemma ZeroEndsInZero(s: seq<byte>)
    requires Varint32(s).Done? && Varint32(s).val == 0 && HasVarint(s) && VarintLength(s) <= 37
    ensures s[VarintLength(s) - 1] == 0
  {
    hide Or, Shl;
    if s[0] >= 128 {
      BitsStay(s[1..], 7, s[0] % 128);
      ZeroFrom(s[1..], 1);
    }
  }

  /** A complete varint that the 32-bit reader rejects stays rejected whatever follows. */
  lemma {:induction false} Varint32FromFails(s: seq<byte>, t: seq<byte>, p: nat, acc: nat)
    requires HasVarint(s) && Varint32From(s, p, acc).Fail?
    ensures Varint32From(s + t, p, acc).Fail?
    decreases |s|
  {
    hide Or, Shl, HighByteOk, Accumulate32;
    assert (s + t)[1..] == s[1..] + t;
    if s[0] >= 128 && (p < 32 || HighByteOk(s[0], p, acc)) {
      Varint32FromFails(s[1..], t, (p + 7) % 256, Accumulate32(s[0], p, acc));
    }
  }

  lemma Varint32Fails(s: seq<byte>, t: seq<byte>)
    requires HasVarint(s) && Varint32(s).Fail?
    ensures Varint32(s + t).Fail?
  {
    assert (s + t)[1..] == s[1..] + t;
    Varint32FromFails(s[1..], t, 7, s[0] % 128);
  }

  lemma {:induction false} VarintExtends(s: seq<byte>, t: seq<byte>)
    requires HasVarint(s)
    ensures HasVarint(s + t) && VarintLength(s + t) == VarintLength(s)
  {
    assert (s + t)[1..] == s[1..] + t;
    if s[0] >= 128 { VarintExtends(s[1..], t); }
  }

  lemma Varint64Fails(s: seq<byte>, t: seq<byte>)
    requires HasVarint(s) && Varint64(s).Fail?
    ensures Varint64(s + t).Fail?
  {
    hide Varint64, VarintValue;
    Varint64Denotes(s);
    VarintExtends(s, t);
    Varint64Denotes(s + t);
  }

  /** Where both readers accept, they consume the same bytes and agree modulo 2^32. */
  lemma VarintReadersAgree(s: seq<byte>)
    requires Varint64(s).Done? && Varint32(s).Done?
    ensures Varint32(s).rest == Varint64(s).rest
    ensures Varint32(s).val == Varint64(s).val % TWO_32
  {
    Varint64Denotes(s);
    Varint32Denotes(s);
    LowWord(VarintValue(s));
  }

  lemma LowWord(v: nat)
    ensures (v % TWO_64) % TWO_32 == v % TWO_32
  {
    ModShifted(v % TWO_64, (v / TWO_64) * TWO_32, TWO_32);
  }

  // ------------------------------------------------------------ round trips

  lemma Varint64RoundTrip(v: nat, t: seq<byte>)
    requires v < TWO_64
    ensures |EncVarint(v)| <= 10
    ensures Varint64(EncVarint(v) + t) == Done(v, t)
  {
    hide EncVarint, HasVarint, VarintLength, VarintValue, Varint64, Varint64From;
    EncVarintAtMostTen(v);
    EncVarintDenotes(v, t);
    var s := EncVarint(v) + t;
    Varint64Denotes(s);
    assert s[|EncVarint(v)|..] == t;
  }

  lemma EncVarintAtMostTen(v: nat)
    requires v < TWO_64
    ensures |EncVarint(v)| <= 10
  {
    Pow2Long();
    Pow2Monotone(64, 70);
    EncVarintLength(v, 9);
  }

  lemma {:induction false} Varint32FromAccepts(v: nat, bitpos: nat, acc: nat, t: seq<byte>)
    requires bitpos in {7, 14, 21, 28} && v < Pow2(32 - bitpos)
    ensures Varint32From(EncVarint(v) + t, bitpos, acc).Done?
    decreases 32 - bitpos
  {
    var s := EncVarint(v) + t;
    PowersOfTwo();
    if v >= 128 {
      assert s[1..] == EncVarint(v / 128) + t;
      Varint32FromAccepts(v / 128, bitpos + 7, Accumulate32(s[0], bitpos, acc), t);
    }
  }

  lemma Varint32Accepts(v: nat, t: seq<byte>)
    requires v < TWO_32
    ensures Varint32(EncVarint(v) + t).Done?
  {
    hide Or, Shl, Pow2, HighByteOk, Accumulate32, Varint32From;
    var s := EncVarint(v) + t;
    if v >= 128 {
      assert s[1..] == EncVarint(v / 128) + t;
      PowersOfTwo();
      Varint32FromAccepts(v / 128, 7, s[0] % 128, t);
    }
  }

  lemma Varint32RoundTrip(v: nat, t: seq<byte>)
    requires v < TWO_32
    ensures Varint32(EncVarint(v) + t) == Done(v, t)
  {
    hide EncVarint, Varint32, Varint64;
    Varint32Accepts(v, t);
    Varint64RoundTrip(v, t);
    VarintReadersAgree(EncVarint(v) + t);
  }

  lemma SignTail()
    ensures EncVarint(0x1FFF_FFFF) == [0xFF, 0xFF, 0xFF, 0xFF, 0x01]
  {
    assert EncVarint(0x1FFF_FFFF) == [0xFF] + EncVarint(0x3F_FFFF);
    assert EncVarint(0x3F_FFFF) == [0xFF] + EncVarint(0x7FFF);
    assert EncVarint(0x7FFF) == [0xFF] + EncVarint(0xFF);
    assert EncVarint(0xFF) == [0xFF] + EncVarint(0x1);
  }

  lemma SignByteAccepted(s: seq<byte>, k: nat, acc: nat)
    requires 5 <= k <= 9 && TWO_31 <= acc && s != []
    requires if k < 9 then s[0] == 0xFF && Varint32From(s[1..], 7 * k + 7, acc).Done? else s[0] == 0x01
    ensures Varint32From(s, 7 * k, acc).Done?
  {
    hide Or, Shl, Pow2;
  }

  lemma SignTailAccepted(acc: nat, t: seq<byte>)
    requires TWO_31 <= acc
    ensures Varint32From(EncVarint(0x1FFF_FFFF) + t, 35, acc).Done?
  {
    hide Varint32From;
    SignTail();
    var s := [0xFF, 0xFF, 0xFF, 0xFF, 0x01] + t;
    SignByteAccepted(s[4..], 9, acc);
    SignByteAccepted(s[3..], 8, acc);
    SignByteAccepted(s[2..], 7, acc);
    SignByteAccepted(s[1..], 6, acc);
    SignByteAccepted(s, 5, acc);
  }

  /** 2^(64 - 7k): one more than what remains of an all-ones 64-bit word after k groups. */
  function OnesTop(k: nat): nat {
    if k == 0 then 0x1_0000_0000_0000_0000
    else if k == 1 then 0x200_0000_0000_0000
    else if k == 2 then 0x4_0000_0000_0000
    else if k == 3 then 0x800_0000_0000
    else if k == 4 then 0x10_0000_0000
    else if k == 5 then 0x2000_0000
    else if k == 6 then 0x40_0000
    else if k == 7 then 0x8000
    else if k == 8 then 0x100
    else if k == 9 then 2
    else 1
  }

  /** 2^(31 - 7k): the magnitude left of a negative int32 after k groups. */
  function MagnitudeTop(k: nat): nat {
    if k == 0 then 0x8000_0000
    else if k == 1 then 0x100_0000
    else if k == 2 then 0x2_0000
    else if k == 3 then 0x400
    else if k == 4 then 8
    else 1
  }

  /** One group further: a sign-extended word is all ones minus its magnitude. */
  lemma NextSignedGroup(k: nat, q: nat)
    requires k <= 9 && q < MagnitudeTop(k)
    ensures q / 128 < MagnitudeTop(k + 1) <= OnesTop(k + 1)
    ensures q < OnesTop(k)
    ensures (OnesTop(k) - 1 - q) / 128 == OnesTop(k + 1) - 1 - q / 128
    ensures k < 9 ==> OnesTop(k) - 1 - q >= 128
    ensures k <= 4 ==> (OnesTop(k) - 1 - q) % 128 == 127 - q % 128
  {
  }

  lemma SignReachesBit31(acc: nat, q: nat, p: nat)
    requires p == 28 && q < 8
    ensures (acc + Shl(127 - q, p)) % TWO_32 >= TWO_31 || acc >= Pow2(p)
  {
    PowersOfTwo();
    ShlProduct(127 - q, p);
  }

  lemma ContinuedAccepted(s: seq<byte>, k: nat, acc: nat)
    requires 1 <= k <= 4 && s != [] && s[0] >= 128
    requires Varint32From(s[1..], 7 * k + 7, Accumulate32(s[0], 7 * k, acc)).Done?
    ensures Varint32From(s, 7 * k, acc).Done?
  {
    hide Or, Shl, Pow2, HighByteOk, Accumulate32;
  }

  lemma {:induction false} SignedFromAccepts(k: nat, q: nat, acc: nat, t: seq<byte>)
    requires 1 <= k <= 4 && q < MagnitudeTop(k) <= OnesTop(k) && acc < Pow2(7 * k)
    ensures Varint32From(EncVarint(OnesTop(k) - 1 - q) + t, 7 * k, acc).Done?
    decreases 4 - k
  {
    hide Or, Shl, Pow2, HighByteOk, Accumulate32, OnesTop, Varint32From;
    NextSignedGroup(k, q);
    var w := OnesTop(k) - 1 - q;
    var s := EncVarint(w) + t;
    assert s[1..] == EncVarint(w / 128) + t && s[0] >= 128;
    var acc' := Accumulate32(s[0], 7 * k, acc);
    Shift32(acc, s[0], k);
    if k == 4 {
      SignReachesBit31(acc, q, 7 * k);
      assert OnesTop(5) == 0x2000_0000 by { OnesTopFive(); }
      SignTailAccepted(acc', t);
    } else {
      SignedFromAccepts(k + 1, q / 128, acc', t);
    }
    ContinuedAccepted(s, k, acc);
  }

  lemma OnesTopFive()
    ensures OnesTop(5) == 0x2000_0000
  {
  }

  /** A negative int32 is sent sign-extended to 64 bits; the 32-bit reader gives back its word. */
  lemma NegativeInt32RoundTrip(n: int, t: seq<byte>)
    requires -TWO_31 <= n < 0
    ensures |EncVarint(AsUnsigned(n))| == 10
    ensures Varint32(EncVarint(AsUnsigned(n)) + t) == Done(n + TWO_32, t)
  {
    hide EncVarint, Varint32, Varint64, Pow2;
    var v := AsUnsigned(n);
    NegativeAccepted(-n - 1, t);
    Varint64RoundTrip(v, t);
    VarintReadersAgree(EncVarint(v) + t);
    Pow2Sign();
    LongVarint(v, 9);
  }

  lemma NegativeAccepted(q: nat, t: seq<byte>)
    requires q < TWO_31
    ensures Varint32(EncVarint(TWO_64 - 1 - q) + t).Done?
  {
    hide Or, Shl, Pow2, HighByteOk, Accumulate32;
    var v := TWO_64 - 1 - q;
    var s := EncVarint(v) + t;
    NextSignedGroup(0, q);
    assert s[1..] == EncVarint(v / 128) + t && s[0] >= 128;
    Pow2At7();
    SignedFromAccepts(1, q / 128, s[0] % 128, t);
  }

  lemma {:induction false} LongVarint(v: nat, n: nat)
    requires n <= 9 && v >= Pow2(7 * n)
    ensures |EncVarint(v)| >= n + 1
  {
    if n > 0 {
      Pow2Seven(7 * (n - 1));
      assert 7 * n == 7 * (n - 1) + 7;
      LongVarint(v / 128, n - 1);
    }
  }

  lemma ZigZagRoundTrip(n: int)
    requires -TWO_63 <= n < TWO_63
    ensures ZigZag(n) == (if n >= 0 then 2 * n else -2 * n - 1)
    ensures UnZigZag(ZigZag(n)) == n
  {
  }

  lemma {:induction false} LittleEndianRoundTrip(v: nat, n: nat)
    requires v < Pow2(8 * n)
    ensures FromLittleEndian(LittleEndian(v, n)) == v
    decreases n
  {
    if n > 0 {
      assert Pow2(8 * n) == 256 * Pow2(8 * (n - 1)) by {
        Pow2Sum(8, 8 * (n - 1));
        PowersOfTwo();
      }
      LittleEndianRoundTrip(v / 256, n - 1);
      assert LittleEndian(v, n)[1..] == LittleEndian(v / 256, n - 1);
    }
  }

  lemma FixedRoundTrip(v: nat, n: nat, t: seq<byte>)
    requires v < Pow2(8 * n)
    ensures ReadFixed(LittleEndian(v, n) + t, n) == Done(v, t)
  {
    LittleEndianRoundTrip(v, n);
    var s := LittleEndian(v, n) + t;
    assert s[..n] == LittleEndian(v, n) && s[n..] == t;
  }

  lemma DelimitedRoundTrip(body: seq<byte>, t: seq<byte>)
    requires |body| < TWO_32
    ensures ReadDelimited(Delimited(body) + t) == Done(body, t)
  {
    assert Delimited(body) + t == EncVarint(|body|) + (body + t);
    Varint32RoundTrip(|body|, body + t);
    assert (body + t)[..|body|] == body && (body + t)[|body|..] == t;
  }

  // ------------------------------------------ reading does not look further

  lemma {:induction false} Varint64FromExtends(s: seq<byte>, t: seq<byte>, bitpos: nat, acc: nat)
    requires Varint64From(s, bitpos, acc).Done?
    ensures var r := Varint64From(s, bitpos, acc);
            Varint64From(s + t, bitpos, acc) == Done(r.val, r.rest + t)
    decreases |s|
  {
    assert (s + t)[1..] == s[1..] + t;
    if s[0] >= 128 {
      Varint64FromExtends(s[1..], t, bitpos + 7, Or(acc, Shl(s[0] % 128, bitpos) % TWO_64));
    }
  }

  lemma {:induction false} Varint32FromExtends(s: seq<byte>, t: seq<byte>, bitpos: nat, acc: nat)
    requires Varint32From(s, bitpos, acc).Done?
    ensures var r := Varint32From(s, bitpos, acc);
            Varint32From(s + t, bitpos, acc) == Done(r.val, r.rest + t)
    decreases |s|
  {
    assert (s + t)[1..] == s[1..] + t;
    if s[0] >= 128 {
      Varint32FromExtends(s[1..], t, (bitpos + 7) % 256, Accumulate32(s[0], bitpos, acc));
    }
  }

  lemma Varint32Extends(s: seq<byte>, t: seq<byte>)
    requires Varint32(s).Done?
    ensures Varint32(s + t) == Done(Varint32(s).val, Varint32(s).rest + t)
  {
    assert (s + t)[1..] == s[1..] + t;
    if s[0] >= 128 { Varint32FromExtends(s[1..], t, 7, s[0] % 128); }
  }

  lemma {:induction false} SkipVarintExtends(s: seq<byte>, t: seq<byte>)
    requires SkipVarint(s).Done?
    ensures SkipVarint(s + t) == Done((), SkipVarint(s).rest + t)
  {
    assert (s + t)[1..] == s[1..] + t;
    if s[0] >= 128 { SkipVarintExtends(s[1..], t); }
  }

  lemma ReadDelimitedExtends(s: seq<byte>, t: seq<byte>)
    requires ReadDelimited(s).Done?
    ensures ReadDelimited(s + t) == Done(ReadDelimited(s).val, ReadDelimited(s).rest + t)
  {
    Varint32Extends(s, t);
    var n, tail := Varint32(s).val, Varint32(s).rest;
    assert (tail + t)[..n] == tail[..n] && (tail + t)[n..] == tail[n..] + t;
  }

  lemma SkipExtends(wireType: nat, s: seq<byte>, t: seq<byte>)
    requires Skip(wireType, s).Done?
    ensures Skip(wireType, s + t) == Done((), Skip(wireType, s).rest + t)
  {
    if wireType == WT_VARINT {
      SkipVarintExtends(s, t);
    } else if wireType == WT_64BIT {
      assert (s + t)[8..] == s[8..] + t;
    } else if wireType == WT_STRING {
      ReadDelimitedExtends(s, t);
    } else {
      assert (s + t)[4..] == s[4..] + t;
    }
  }

  lemma ReadFixedExtends(s: seq<byte>, t: seq<byte>, n: nat)
    requires ReadFixed(s, n).Done?
    ensures ReadFixed(s + t, n) == Done(ReadFixed(s, n).val, ReadFixed(s, n).rest + t)
  {
    assert (s + t)[..n] == s[..n] && (s + t)[n..] == s[n..] + t;
  }
}
