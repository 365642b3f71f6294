/**
  The raw bitstrings of api/bitstring_status_list.py: bit i is bit 7 - i % 8 of byte i / 8
  (section 3.2 of Bitstring Status List v1.0 counts from the most significant bit).
 */
module Bitstring {
  import opened Common

  type Bit = v: int | 0 <= v < 2

  const MINIMUM_BITSTRING_SIZE: nat := 131_072

  // ----- One byte

  /** (byte >> offset) & 1 */
  function ByteBit(b: bv8, offset: nat): Bit
    requires offset < 8
  {
    if (b >> offset) & 1 == 1 then 1 else 0
  }

  /** byte | (1 << offset), or byte & ~(1 << offset) */
  function WithByteBit(b: bv8, offset: nat, value: Bit): bv8
    requires offset < 8
  {
    if value == 1 then b | ((1 as bv8) << offset) else b & !((1 as bv8) << offset)
  }

  /** 1 << offset, written out. */
  function Mask(offset: nat): bv8
    requires offset < 8
  {
    match offset
    case 0 => 1 case 1 => 2 case 2 => 4 case 3 => 8 case 4 => 16 case 5 => 32 case 6 => 64 case _ => 128
  }

  lemma ShiftedOne(offset: nat)
    requires offset < 8
    ensures (1 as bv8) << offset == Mask(offset)
  {
  }

  lemma ByteBitByMask(b: bv8, offset: nat)
    requires offset < 8
    ensures ByteBit(b, offset) == if b & Mask(offset) != 0 then 1 else 0
  {
    if offset == 0 {} else if offset == 1 {} else if offset == 2 {} else if offset == 3 {}
    else if offset == 4 {} else if offset == 5 {} else if offset == 6 {} else { assert offset == 7; }
  }

  lemma MasksDisjoint(j: nat, k: nat)
    requires j < 8 && k < 8 && j != k
    ensures Mask(j) & Mask(k) == 0 && Mask(j) & !Mask(k) == Mask(j)
  {
  }

  lemma WithByteBitByMask(b: bv8, offset: nat, value: Bit)
    requires offset < 8
    ensures WithByteBit(b, offset, value) == if value == 1 then b | Mask(offset) else b & !Mask(offset)
  {
    ShiftedOne(offset);
    hide Mask;
  }

  lemma MaskNotZero(offset: nat)
    requires offset < 8
    ensures Mask(offset) != 0
  {
  }

  /** Setting and clearing the bits of m, seen through m and through a mask without common bits. */
  lemma SetMask(b: bv8, m: bv8, other: bv8)
    requires m != 0
    ensures (b | m) & m != 0 && (b & !m) & m == 0
    ensures other & m == 0 ==> (b | m) & other == b & other && (b & !m) & other == b & other
  {
  }

  lemma WithByteBitAt(b: bv8, offset: nat, value: Bit, k: nat)
    requires offset < 8 && k < 8
    ensures ByteBit(WithByteBit(b, offset, value), k) == if k == offset then value else ByteBit(b, k)
  {
    ByteBitByMask(b, k);
    ByteBitByMask(WithByteBit(b, offset, value), k);
    WithByteBitByMask(b, offset, value);
    MaskNotZero(offset);
    SetMask(b, Mask(offset), Mask(k));
    if k != offset { MasksDisjoint(k, offset); }
    hide ByteBit, WithByteBit, Mask;
  }

  /** byte & (1 << offset), as a condition */
  predicate Selects(byte: bv8, offset: nat)
    requires offset < 8
  {
    byte & ((1 as bv8) << offset) != 0
  }

  lemma XorBit(a: bv8, b: bv8, offset: nat)
    requires offset < 8
    ensures Selects(a ^ b, offset) <==> ByteBit(a, offset) != ByteBit(b, offset)
  {
    ShiftedOne(offset);
    ByteBitByMask(a, offset);
    ByteBitByMask(b, offset);
  }

  lemma SameBitsSameByte(a: bv8, b: bv8)
    requires forall k :: 0 <= k < 8 ==> ByteBit(a, k) == ByteBit(b, k)
    ensures a == b
  {
    assert ByteBit(a, 0) == ByteBit(b, 0) && ByteBit(a, 1) == ByteBit(b, 1) && ByteBit(a, 2) == ByteBit(b, 2)
      && ByteBit(a, 3) == ByteBit(b, 3) && ByteBit(a, 4) == ByteBit(b, 4) && ByteBit(a, 5) == ByteBit(b, 5)
      && ByteBit(a, 6) == ByteBit(b, 6) && ByteBit(a, 7) == ByteBit(b, 7);
  }

  lemma ByteFromBits(b: bv8)
    ensures b as int == SpelledByte(b)
  {
  }

  // ----- One bit of a bitstring

  function BitAt(raw: seq<bv8>, index: nat): Bit
    requires index < 8 * |raw|
  {
    ByteBit(raw[index / 8], 7 - index % 8)
  }

  function SetBit(raw: seq<bv8>, index: nat, value: Bit): (r: seq<bv8>)
    requires index < 8 * |raw|
    ensures |r| == |raw|
  {
    raw[index / 8 := WithByteBit(raw[index / 8], 7 - index % 8, value)]
  }

  lemma BitOfByte(raw: seq<bv8>, n: nat, k: nat)
    requires n < |raw| && k < 8
    ensures BitAt(raw, 8 * n + k) == ByteBit(raw[n], 7 - k)
  {
    hide ByteBit;
    assert (8 * n + k) / 8 == n && (8 * n + k) % 8 == k;
  }

  /** The number that the eight bits of byte n spell, most significant first. */
  function SpelledBits(raw: seq<bv8>, n: nat): int
    requires n < |raw|
  {
    128 * BitAt(raw, 8 * n) + 64 * BitAt(raw, 8 * n + 1) + 32 * BitAt(raw, 8 * n + 2) + 16 * BitAt(raw, 8 * n + 3)
    + 8 * BitAt(raw, 8 * n + 4) + 4 * BitAt(raw, 8 * n + 5) + 2 * BitAt(raw, 8 * n + 6) + BitAt(raw, 8 * n + 7)
  }

  function SpelledByte(b: bv8): int {
    128 * ByteBit(b, 7) + 64 * ByteBit(b, 6) + 32 * ByteBit(b, 5) + 16 * ByteBit(b, 4)
    + 8 * ByteBit(b, 3) + 4 * ByteBit(b, 2) + 2 * ByteBit(b, 1) + ByteBit(b, 0)
  }

  lemma BitsOfByte(raw: seq<bv8>, n: nat)
    requires n < |raw|
    ensures SpelledBits(raw, n) == SpelledByte(raw[n])
  {
    hide BitAt, ByteBit;
    BitOfByte(raw, n, 0);
    BitOfByte(raw, n, 1);
    BitOfByte(raw, n, 2);
    BitOfByte(raw, n, 3);
    BitOfByte(raw, n, 4);
    BitOfByte(raw, n, 5);
    BitOfByte(raw, n, 6);
    BitOfByte(raw, n, 7);
  }

  /** Bit 0 of a byte is its most significant one: a byte is the number that its bits spell. */
  lemma BitsSpellByte(raw: seq<bv8>, n: nat)
    requires n < |raw|
    ensures raw[n] as int == SpelledBits(raw, n)
  {
    ByteFromBits(raw[n]);
    BitsOfByte(raw, n);
    hide SpelledBits, SpelledByte;
  }

  /** get_bit answers for the indices of the bitstring and for no others. */
  lemma GetBitIff(raw: seq<bv8>, index: int)
    ensures GetBit(raw, index).Some? <==> 0 <= index < 8 * |raw|
    ensures GetBit(raw, index).Some? ==> GetBit(raw, index).value == BitAt(raw, index)
  {
  }

  /** set_bit writes one bit and no other, not even in the same byte. */
  lemma SetBitAt(raw: seq<bv8>, index: nat, value: Bit, k: nat)
    requires index < 8 * |raw| && k < 8 * |raw|
    ensures BitAt(SetBit(raw, index, value), k) == if k == index then value else BitAt(raw, k)
  {
    hide ByteBit, WithByteBit;
    if k / 8 == index / 8 {
      WithByteBitAt(raw[index / 8], 7 - index % 8, value, 7 - k % 8);
    }
  }

  /** A bitstring is determined by its bits. */
  lemma SameBitsSame(a: seq<bv8>, b: seq<bv8>)
    requires |a| == |b| && forall i :: 0 <= i < 8 * |a| ==> BitAt(a, i) == BitAt(b, i)
    ensures a == b
  {
    hide ByteBit;
    forall n | 0 <= n < |a| ensures a[n] == b[n] {
      forall k | 0 <= k < 8 ensures ByteBit(a[n], k) == ByteBit(b[n], k) {
        var i := 8 * n + (7 - k);
        assert i / 8 == n && 7 - i % 8 == k;
        assert BitAt(a, i) == BitAt(b, i);
      }
      SameBitsSameByte(a[n], b[n]);
    }
  }

  /** get_bit; None stands for the IndexError. */
  function GetBit(raw: seq<bv8>, index: int): Option<Bit> {
    if index < 0 || index >= 8 * |raw| then None else Some(BitAt(raw, index))
  }

  datatype SetOutcome = Done | BadValue | BadIndex

  /** set_bit on a bytearray; BadValue and BadIndex stand for the ValueError and the IndexError. */
  method SetBitInPlace(raw: array<bv8>, index: int, value: int) returns (outcome: SetOutcome)
    modifies raw
    ensures outcome == if value != 0 && value != 1 then BadValue
                       else if index < 0 || index >= 8 * raw.Length then BadIndex else Done
    ensures raw[..] == if outcome == Done then SetBit(old(raw[..]), index, value) else old(raw[..])
  {
    if value != 0 && value != 1 {
      return BadValue;
    }
    if index < 0 || index >= 8 * raw.Length {
      return BadIndex;
    }
    var byteIdx := index / 8;
    var bitOffset := 7 - index % 8;
    if value != 0 {
      raw[byteIdx] := raw[byteIdx] | ((1 as bv8) << bitOffset);
    } else {
      raw[byteIdx] := raw[byteIdx] & !((1 as bv8) << bitOffset);
    }
    return Done;
  }

  /** create_bitstring; None stands for the ValueError below the minimum size. */
  function CreateBitstring(size: int): (raw: Option<seq<bv8>>)
    ensures raw.None? <==> size < MINIMUM_BITSTRING_SIZE
    ensures raw.Some? ==> size <= 8 * |raw.value| < size + 8
    ensures raw.Some? ==> forall i :: 0 <= i < 8 * |raw.value| ==> BitAt(raw.value, i) == 0
  {
    if size < MINIMUM_BITSTRING_SIZE then None
    else
      ZeroByte();
      Some(seq((size + 7) / 8, _ => 0 as bv8))
  }

  lemma ZeroByte()
    ensures forall k :: 0 <= k < 8 ==> ByteBit(0, k) == 0
  {
    forall k | 0 <= k < 8 ensures ByteBit(0, k) == 0 { ByteBitByMask(0, k); }
  }

  // ----- Differences

  type Changes = map<nat, (Bit, Bit)>

  /** The changed bits among the first n, with their old and new values. */
  function DiffUpTo(oldRaw: seq<bv8>, newRaw: seq<bv8>, n: nat): Changes
    requires |oldRaw| == |newRaw| && n <= 8 * |oldRaw|
  {
    map i: nat | 0 <= i < n && BitAt(oldRaw, i) != BitAt(newRaw, i) :: (BitAt(oldRaw, i), BitAt(newRaw, i))
  }

  function Diff(oldRaw: seq<bv8>, newRaw: seq<bv8>): Changes
    requires |oldRaw| == |newRaw|
  {
    DiffUpTo(oldRaw, newRaw, 8 * |oldRaw|)
  }

  /** The byte-wise XOR test of the inner loop, for the bit at `offset` from the left of byte n. */
  lemma XorFindsChange(oldRaw: seq<bv8>, newRaw: seq<bv8>, n: nat, offset: nat)
    requires |oldRaw| == |newRaw| && n < |oldRaw| && offset < 8
    ensures var i := 8 * n + offset;
            && BitAt(oldRaw, i) == ByteBit(oldRaw[n], 7 - offset) && BitAt(newRaw, i) == ByteBit(newRaw[n], 7 - offset)
            && (Selects(oldRaw[n] ^ newRaw[n], 7 - offset) <==> BitAt(oldRaw, i) != BitAt(newRaw, i))
  {
    hide ByteBit;
    XorBit(oldRaw[n], newRaw[n], 7 - offset);
    assert (8 * n + offset) / 8 == n && (8 * n + offset) % 8 == offset;
  }

  lemma SameByteNoChange(oldRaw: seq<bv8>, newRaw: seq<bv8>, n: nat)
    requires |oldRaw| == |newRaw| && n < |oldRaw| && oldRaw[n] == newRaw[n]
    ensures DiffUpTo(oldRaw, newRaw, 8 * (n + 1)) == DiffUpTo(oldRaw, newRaw, 8 * n)
  {
    hide ByteBit;
    forall i | 8 * n <= i < 8 * (n + 1) ensures BitAt(oldRaw, i) == BitAt(newRaw, i) {
      assert i / 8 == n;
    }
  }

  lemma DiffStep(oldRaw: seq<bv8>, newRaw: seq<bv8>, n: nat)
    requires |oldRaw| == |newRaw| && n < 8 * |oldRaw|
    ensures DiffUpTo(oldRaw, newRaw, n + 1) ==
              if BitAt(oldRaw, n) != BitAt(newRaw, n)
              then DiffUpTo(oldRaw, newRaw, n)[n := (BitAt(oldRaw, n), BitAt(newRaw, n))]
              else DiffUpTo(oldRaw, newRaw, n)
  {
    hide BitAt;
  }

  /** The body of the inner loop extends the differences by one bit. */
  lemma DiffRound(oldRaw: seq<bv8>, newRaw: seq<bv8>, n: nat, offset: nat)
    requires |oldRaw| == |newRaw| && n < |oldRaw| && offset < 8
    ensures var i := 8 * n + offset;
            DiffUpTo(oldRaw, newRaw, i + 1) ==
              if Selects(oldRaw[n] ^ newRaw[n], 7 - offset)
              then DiffUpTo(oldRaw, newRaw, i)[i := (ByteBit(oldRaw[n], 7 - offset), ByteBit(newRaw[n], 7 - offset))]
              else DiffUpTo(oldRaw, newRaw, i)
  {
    hide BitAt, ByteBit, DiffUpTo, Selects;
    XorFindsChange(oldRaw, newRaw, n, offset);
    DiffStep(oldRaw, newRaw, 8 * n + offset);
  }

  /** The inner loop: the eight bits of one byte. */
  method DiffByte(oldRaw: seq<bv8>, newRaw: seq<bv8>, byteIdx: nat, before: Changes) returns (changes: Changes)
    requires |oldRaw| == |newRaw| && byteIdx < |oldRaw|
    requires before == DiffUpTo(oldRaw, newRaw, 8 * byteIdx)
    ensures changes == DiffUpTo(oldRaw, newRaw, 8 * byteIdx + 8)
  {
    hide BitAt, ByteBit, DiffUpTo, Selects;
    changes := before;
    var xor := oldRaw[byteIdx] ^ newRaw[byteIdx];
    for bitOffset := 0 to 8
      invariant changes == DiffUpTo(oldRaw, newRaw, 8 * byteIdx + bitOffset)
    {
      DiffRound(oldRaw, newRaw, byteIdx, bitOffset);
      if Selects(xor, 7 - bitOffset) {
        var bitIndex := 8 * byteIdx + bitOffset;
        var oldVal := ByteBit(oldRaw[byteIdx], 7 - bitOffset);
        var newVal := ByteBit(newRaw[byteIdx], 7 - bitOffset);
        changes := changes[bitIndex := (oldVal, newVal)];
      }
    }
  }

  /** diff_bitstrings; None stands for the ValueError on different lengths. */
  method DiffBitstrings(oldRaw: seq<bv8>, newRaw: seq<bv8>) returns (result: Option<Changes>)
    ensures result == if |oldRaw| != |newRaw| then None else Some(Diff(oldRaw, newRaw))
  {
    if |oldRaw| != |newRaw| {
      return None;
    }
    var changes: Changes := map[];
    hide BitAt, ByteBit, DiffUpTo, Selects;
    DiffOfNothing(oldRaw, newRaw);
    for byteIdx := 0 to |oldRaw|
      invariant changes == DiffUpTo(oldRaw, newRaw, 8 * byteIdx)
    {
      if oldRaw[byteIdx] == newRaw[byteIdx] {
        SameByteNoChange(oldRaw, newRaw, byteIdx);
        continue;
      }
      changes := DiffByte(oldRaw, newRaw, byteIdx, changes);
    }
    return Some(changes);
  }

  lemma DiffOfNothing(oldRaw: seq<bv8>, newRaw: seq<bv8>)
    requires |oldRaw| == |newRaw|
    ensures DiffUpTo(oldRaw, newRaw, 0) == map[]
  {
  }

  /** Writes the new values of the changed bits in the given order. */
  function Patch(raw: seq<bv8>, changes: Changes, order: seq<nat>): (r: seq<bv8>)
    requires forall i :: i in order ==> i in changes && i < 8 * |raw|
    ensures |r| == |raw|
    decreases |order|
  {
    if order == [] then raw
    else Patch(SetBit(raw, order[0], changes[order[0]].1), changes, order[1..])
  }

  lemma {:induction false} PatchBit(raw: seq<bv8>, changes: Changes, order: seq<nat>, k: nat)
    requires forall i :: i in order ==> i in changes && i < 8 * |raw|
    requires k < 8 * |raw|
    ensures BitAt(Patch(raw, changes, order), k) == if k in order then changes[k].1 else BitAt(raw, k)
    decreases |order|
  {
    hide BitAt, SetBit;
    if order == [] {
    } else {
      var first := SetBit(raw, order[0], changes[order[0]].1);
      SetBitAt(raw, order[0], changes[order[0]].1, k);
      assert forall i :: i in order[1..] ==> i in order;
      PatchBit(first, changes, order[1..], k);
      assert order == [order[0]] + order[1..];
    }
  }

  /** Diff and patch: writing the differences, in any order that names each of them, turns old into new. */
  lemma DiffThenPatch(oldRaw: seq<bv8>, newRaw: seq<bv8>, order: seq<nat>)
    requires |oldRaw| == |newRaw|
    requires forall i :: i in order <==> i in Diff(oldRaw, newRaw)
    ensures Patch(oldRaw, Diff(oldRaw, newRaw), order) == newRaw
  {
    hide BitAt;
    var changes := Diff(oldRaw, newRaw);
    var patched := Patch(oldRaw, changes, order);
    forall k | 0 <= k < 8 * |oldRaw| ensures BitAt(patched, k) == BitAt(newRaw, k) {
      PatchBit(oldRaw, changes, order, k);
      assert k in order <==> k in changes;
    }
    SameBitsSame(patched, newRaw);
  }
}
