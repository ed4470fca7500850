/** The build without 64-bit integers: negative int32 values still go out as ten bytes. */
module Encode32 {
  import opened Bits
  import opened Wire
  import opened OutStreams

  /** The 32-bit variable of the loop after k groups: the low word of the sign-extended value. */
  function LowWordAt(k: nat, q: nat): int {
    (if k <= 4 then TWO_32 else OnesTop(k)) - 1 - q
  }

  /** Ones still to be supplied after k groups. */
  function CompensationAt(k: nat): nat {
    if k <= 4 then 32 - 7 * k else 0
  }

  /** The ones supplied after k groups. */
  function MaskAt(k: nat): nat {
    if k <= 3 then 0x7F else if k == 4 then 0xF else 0
  }

  /** Shifting right by seven and adding the supplied ones gives the next low word. */
  lemma WordStep(k: nat, q: nat)
    requires k <= 9 && q < MagnitudeTop(k)
    ensures LowWordAt(k, q) > 0
    ensures LowWordAt(k, q) % 128 == (OnesTop(k) - 1 - q) % 128
    ensures LowWordAt(k, q) / 128 < 0x200_0000
    ensures LowWordAt(k, q) / 128 + MaskAt(k) * 0x200_0000 == LowWordAt(k + 1, q / 128)
  {
  }

  lemma MaskSupplied(k: nat)
    ensures var bits := if CompensationAt(k) > 7 then 7 else CompensationAt(k);
            && CompensationAt(k) - bits == CompensationAt(k + 1)
            && (if bits != 0 then 0xFF / Pow2(8 - bits) == MaskAt(k) else MaskAt(k) == 0)
  {
    if k <= 3 {
      assert Pow2(1) == 2;
    } else if k == 4 {
      assert Pow2(4) == 16;
    }
  }

  lemma XorOnes(low: nat, ones: nat)
    requires low < 0x200_0000
    ensures Xor(low, Shl(ones, 25)) == low + ones * 0x200_0000
  {
    hide Pow2, Xor, Shl;
    PowersOfTwo();
    XorDisjoint(low, ones, 25);
    ShlProduct(ones, 25);
  }

  /** Moves on to the next group: shifts, and sets as many of the vacated bits as are still due. */
  method NextWord(word: nat, compensation: nat, ghost k: nat, ghost q: nat) returns (word': nat, compensation': nat)
    requires k <= 9 && q < MagnitudeTop(k)
    requires word == LowWordAt(k, q) && compensation == CompensationAt(k)
    ensures word' == LowWordAt(k + 1, q / 128) && compensation' == CompensationAt(k + 1)
  {
    hide Xor, Shl, Pow2, LowWordAt, CompensationAt, OnesTop, MagnitudeTop, MaskAt;
    WordStep(k, q);
    MaskSupplied(k);
    word' := word / 128;
    compensation' := compensation;
    if compensation != 0 {
      var bits := if compensation > 7 then 7 else compensation;
      XorOnes(word', MaskAt(k));
      word' := Xor(word', Shl(0xFF / Pow2(8 - bits), 25));
      compensation' := compensation - bits;
    }
  }

  /** The sign-extended word whose low part the loop holds after k groups; zero after ten. */
  function WideWordAt(k: nat, q: nat): int { OnesTop(k) - 1 - q }

  lemma WideStep(k: nat, q: nat)
    requires k <= 9 && q < MagnitudeTop(k)
    ensures LowWordAt(k, q) > 0 && WideWordAt(k, q) > 0
    ensures LowWordAt(k, q) % 128 == WideWordAt(k, q) % 128
    ensures WideWordAt(k + 1, q / 128) == WideWordAt(k, q) / 128
    ensures q / 128 < MagnitudeTop(k + 1)
  {
    hide OnesTop, MagnitudeTop, LowWordAt;
    WordStep(k, q);
    NextSignedGroup(k, q);
    if k == 9 { LastGroup(q); }
  }

  lemma LastGroup(q: nat)
    requires q < MagnitudeTop(9)
    ensures OnesTop(9) == 2 && q == 0
  {
  }

  lemma FirstWord(word: nat)
    requires TWO_31 <= word < TWO_32
    ensures var q := TWO_32 - 1 - word;
            && 0 <= q < MagnitudeTop(0) && word == LowWordAt(0, q)
            && WideWordAt(0, q) == AsUnsigned(word - TWO_32) > 0
            && CompensationAt(0) == 32
    ensures LowWordAt(10, 0) == WideWordAt(10, 0) == 0 && MagnitudeTop(10) == 1
  {
  }

  /** Encodes a negative int32, given as its 32-bit word: exactly the bytes of the value
      sign-extended to 64 bits. */
  method FillNegativeVarint(word: nat) returns (buffer: array<byte>, i: nat)
    requires TWO_31 <= word < TWO_32
    ensures fresh(buffer) && i == buffer.Length == 10
    ensures buffer[..i] == EncVarint(AsUnsigned(word - TWO_32))
  {
    hide EncVarint, Building, LowWordAt, WideWordAt, CompensationAt, MagnitudeTop;
    buffer := new byte[10];
    i := 0;
    var value, compensation := word, 32;
    ghost var q: nat, whole := TWO_32 - 1 - word, EncVarint(AsUnsigned(word - TWO_32));
    FirstWord(word);
    BuildingStart(AsUnsigned(word - TWO_32));
    while value != 0
      invariant i <= 10 && q < MagnitudeTop(i)
      invariant value == LowWordAt(i, q) && compensation == CompensationAt(i)
      invariant WideWordAt(i, q) >= 0 && Building(whole, buffer[..i], WideWordAt(i, q))
      decreases 10 - i
    {
      WideStep(i, q);
      BuildingStep(whole, buffer[..i], WideWordAt(i, q));
      buffer[i] := value % 128 + 128;
      assert buffer[..i + 1] == buffer[..i] + [value % 128 + 128];
      value, compensation := NextWord(value, compensation, i, q);
      q := q / 128;
      i := i + 1;
    }
    if i < 10 { WideStep(i, q); }
    BuildingEnd(whole, buffer[..i]);
    buffer[i - 1] := buffer[i - 1] % 128;
    assert buffer[..i] == buffer[..i - 1] + [buffer[i - 1]];
  }

  /** The 32-bit build writes what the 64-bit build writes, and its reader gives the word back. */
  method EncodeNegativeVarint(s: OutStream, word: nat) returns (ok: bool)
    requires s.Valid() && TWO_31 <= word < TWO_32
    modifies s, s.buf
    ensures s.Valid() && s.Untouched() && s.overrun == old(s.overrun)
    ensures ok <==> old(s.Fits(10))
    ensures s.output == if ok then old(s.output) + EncVarint(AsUnsigned(word - TWO_32)) else old(s.output)
    ensures Varint32(EncVarint(AsUnsigned(word - TWO_32))) == Done(word, [])
  {
    var buffer, i := FillNegativeVarint(word);
    ok := s.Write(buffer[..i]);
    NegativeInt32RoundTrip(word - TWO_32, []);
    assert EncVarint(AsUnsigned(word - TWO_32)) + [] == EncVarint(AsUnsigned(word - TWO_32));
  }
}
