/** hweight32 of libdevmapper.h counts the set bits of a word. */
module PopCount {

  function Bit(w: bv32, k: nat): bv32
    requires k < 32
  {
    (w >> k) & 1
  }

  /** How many of the n bits from bit k on are set. */
  function Weight(w: bv32, k: nat, n: nat): nat
    requires k + n <= 32
    decreases n
  {
    if n == 0 then 0 else (if Bit(w, k) == 1 then 1 else 0) + Weight(w, k + 1, n - 1)
  }

  function HWeight32(i: bv32): bv32 {
    var r := Pairs(i);
    var r := Nibbles(r);
    var r := Bytes(r);
    var r := Halves(r);
    Plus(r & 0x0000_FFFF, (r >> 16) & 0x0000_FFFF)
  }

  function Pairs(i: bv32): bv32 { (i & 0x5555_5555) + ((i >> 1) & 0x5555_5555) }

  function Nibbles(r: bv32): bv32 { (r & 0x3333_3333) + ((r >> 2) & 0x3333_3333) }

  function Bytes(r: bv32): bv32 { (r & 0x0F0F_0F0F) + ((r >> 4) & 0x0F0F_0F0F) }

  function Halves(r: bv32): bv32 { (r & 0x00FF_00FF) + ((r >> 8) & 0x00FF_00FF) }

  function ToNat(w: bv32): nat { w as nat }

  lemma {:induction false} WeightSplit(w: bv32, k: nat, n: nat, m: nat)
    requires k + n + m <= 32
    ensures Weight(w, k, n + m) == Weight(w, k, n) + Weight(w, k + n, m)
    decreases n
  {
    hide Bit;
    if n > 0 {
      WeightSplit(w, k + 1, n - 1, m);
    }
  }

  lemma {:induction false} WeightBound(w: bv32, k: nat, n: nat)
    requires k + n <= 32
    ensures Weight(w, k, n) <= n
    decreases n
  {
    hide Bit;
    if n > 0 {
      WeightBound(w, k + 1, n - 1);
    }
  }

  lemma SmallWord(a: bv32)
    requires ToNat(a) <= 16
    ensures a <= 16
  {
  }

  lemma AddSmallWords(a: bv32, b: bv32)
    requires a <= 16 && b <= 16
    ensures ToNat(a + b) == ToNat(a) + ToNat(b)
  {
  }

  lemma AddSmall(a: bv32, b: bv32)
    requires ToNat(a) <= 16 && ToNat(b) <= 16
    ensures ToNat(a + b) == ToNat(a) + ToNat(b)
  {
    hide ToNat;
    SmallWord(a);
    SmallWord(b);
    AddSmallWords(a, b);
  }

  /** Two neighbouring fields that hold the weights of their bits add up. */
  lemma Join(w: bv32, k: nat, n: nat, a: bv32, b: bv32)
    requires n <= 16 && k + 2 * n <= 32
    requires ToNat(a) == Weight(w, k, n) && ToNat(b) == Weight(w, k + n, n)
    ensures ToNat(a + b) == Weight(w, k, 2 * n)
  {
    hide *;
    WeightBound(w, k, n);
    WeightBound(w, k + n, n);
    AddSmall(a, b);
    WeightSplit(w, k, n, n);
  }

  lemma BitWeight(w: bv32, k: nat)
    requires k < 32
    ensures ToNat(Bit(w, k)) == Weight(w, k, 1)
  {
  }

  // In each stage no sum spills over into the next field.

  lemma PairFields(i: bv32)
    ensures (Pairs(i) >> 0) & 3 == ((i >> 0) & 1) + ((i >> 1) & 1)
    ensures (Pairs(i) >> 2) & 3 == ((i >> 2) & 1) + ((i >> 3) & 1)
    ensures (Pairs(i) >> 4) & 3 == ((i >> 4) & 1) + ((i >> 5) & 1)
    ensures (Pairs(i) >> 6) & 3 == ((i >> 6) & 1) + ((i >> 7) & 1)
    ensures (Pairs(i) >> 8) & 3 == ((i >> 8) & 1) + ((i >> 9) & 1)
    ensures (Pairs(i) >> 10) & 3 == ((i >> 10) & 1) + ((i >> 11) & 1)
    ensures (Pairs(i) >> 12) & 3 == ((i >> 12) & 1) + ((i >> 13) & 1)
    ensures (Pairs(i) >> 14) & 3 == ((i >> 14) & 1) + ((i >> 15) & 1)
    ensures (Pairs(i) >> 16) & 3 == ((i >> 16) & 1) + ((i >> 17) & 1)
    ensures (Pairs(i) >> 18) & 3 == ((i >> 18) & 1) + ((i >> 19) & 1)
    ensures (Pairs(i) >> 20) & 3 == ((i >> 20) & 1) + ((i >> 21) & 1)
    ensures (Pairs(i) >> 22) & 3 == ((i >> 22) & 1) + ((i >> 23) & 1)
    ensures (Pairs(i) >> 24) & 3 == ((i >> 24) & 1) + ((i >> 25) & 1)
    ensures (Pairs(i) >> 26) & 3 == ((i >> 26) & 1) + ((i >> 27) & 1)
    ensures (Pairs(i) >> 28) & 3 == ((i >> 28) & 1) + ((i >> 29) & 1)
    ensures (Pairs(i) >> 30) & 3 == ((i >> 30) & 1) + ((i >> 31) & 1)
  {
  }

  lemma NibbleFields(r: bv32)
    ensures (Nibbles(r) >> 0) & 15 == ((r >> 0) & 3) + ((r >> 2) & 3)
    ensures (Nibbles(r) >> 4) & 15 == ((r >> 4) & 3) + ((r >> 6) & 3)
    ensures (Nibbles(r) >> 8) & 15 == ((r >> 8) & 3) + ((r >> 10) & 3)
    ensures (Nibbles(r) >> 12) & 15 == ((r >> 12) & 3) + ((r >> 14) & 3)
    ensures (Nibbles(r) >> 16) & 15 == ((r >> 16) & 3) + ((r >> 18) & 3)
    ensures (Nibbles(r) >> 20) & 15 == ((r >> 20) & 3) + ((r >> 22) & 3)
    ensures (Nibbles(r) >> 24) & 15 == ((r >> 24) & 3) + ((r >> 26) & 3)
    ensures (Nibbles(r) >> 28) & 15 == ((r >> 28) & 3) + ((r >> 30) & 3)
  {
  }

  lemma ByteFields(r: bv32)
    ensures (Bytes(r) >> 0) & 255 == ((r >> 0) & 15) + ((r >> 4) & 15)
    ensures (Bytes(r) >> 8) & 255 == ((r >> 8) & 15) + ((r >> 12) & 15)
    ensures (Bytes(r) >> 16) & 255 == ((r >> 16) & 15) + ((r >> 20) & 15)
    ensures (Bytes(r) >> 24) & 255 == ((r >> 24) & 15) + ((r >> 28) & 15)
  {
  }

  lemma HalfFields(r: bv32)
    ensures (Halves(r) >> 0) & 65535 == ((r >> 0) & 255) + ((r >> 8) & 255)
    ensures (Halves(r) >> 16) & 65535 == ((r >> 16) & 255) + ((r >> 24) & 255)
  {
  }

  /** The shifts with constant counts that the first stage uses. */
  lemma BitLiterals(w: bv32)
    ensures Bit(w, 0) == (w >> 0) & 1 && Bit(w, 1) == (w >> 1) & 1 && Bit(w, 2) == (w >> 2) & 1
    ensures Bit(w, 3) == (w >> 3) & 1 && Bit(w, 4) == (w >> 4) & 1 && Bit(w, 5) == (w >> 5) & 1
    ensures Bit(w, 6) == (w >> 6) & 1 && Bit(w, 7) == (w >> 7) & 1 && Bit(w, 8) == (w >> 8) & 1
    ensures Bit(w, 9) == (w >> 9) & 1 && Bit(w, 10) == (w >> 10) & 1 && Bit(w, 11) == (w >> 11) & 1
    ensures Bit(w, 12) == (w >> 12) & 1 && Bit(w, 13) == (w >> 13) & 1 && Bit(w, 14) == (w >> 14) & 1
    ensures Bit(w, 15) == (w >> 15) & 1 && Bit(w, 16) == (w >> 16) & 1 && Bit(w, 17) == (w >> 17) & 1
    ensures Bit(w, 18) == (w >> 18) & 1 && Bit(w, 19) == (w >> 19) & 1 && Bit(w, 20) == (w >> 20) & 1
    ensures Bit(w, 21) == (w >> 21) & 1 && Bit(w, 22) == (w >> 22) & 1 && Bit(w, 23) == (w >> 23) & 1
    ensures Bit(w, 24) == (w >> 24) & 1 && Bit(w, 25) == (w >> 25) & 1 && Bit(w, 26) == (w >> 26) & 1
    ensures Bit(w, 27) == (w >> 27) & 1 && Bit(w, 28) == (w >> 28) & 1 && Bit(w, 29) == (w >> 29) & 1
    ensures Bit(w, 30) == (w >> 30) & 1 && Bit(w, 31) == (w >> 31) & 1
  {
  }

  // After each stage every field holds the weight of its bits.

  lemma BitStage(i: bv32)
    ensures ToNat((i >> 0) & 1) == Weight(i, 0, 1) && ToNat((i >> 1) & 1) == Weight(i, 1, 1)
    ensures ToNat((i >> 2) & 1) == Weight(i, 2, 1) && ToNat((i >> 3) & 1) == Weight(i, 3, 1)
    ensures ToNat((i >> 4) & 1) == Weight(i, 4, 1) && ToNat((i >> 5) & 1) == Weight(i, 5, 1)
    ensures ToNat((i >> 6) & 1) == Weight(i, 6, 1) && ToNat((i >> 7) & 1) == Weight(i, 7, 1)
    ensures ToNat((i >> 8) & 1) == Weight(i, 8, 1) && ToNat((i >> 9) & 1) == Weight(i, 9, 1)
    ensures ToNat((i >> 10) & 1) == Weight(i, 10, 1) && ToNat((i >> 11) & 1) == Weight(i, 11, 1)
    ensures ToNat((i >> 12) & 1) == Weight(i, 12, 1) && ToNat((i >> 13) & 1) == Weight(i, 13, 1)
    ensures ToNat((i >> 14) & 1) == Weight(i, 14, 1) && ToNat((i >> 15) & 1) == Weight(i, 15, 1)
    ensures ToNat((i >> 16) & 1) == Weight(i, 16, 1) && ToNat((i >> 17) & 1) == Weight(i, 17, 1)
    ensures ToNat((i >> 18) & 1) == Weight(i, 18, 1) && ToNat((i >> 19) & 1) == Weight(i, 19, 1)
    ensures ToNat((i >> 20) & 1) == Weight(i, 20, 1) && ToNat((i >> 21) & 1) == Weight(i, 21, 1)
    ensures ToNat((i >> 22) & 1) == Weight(i, 22, 1) && ToNat((i >> 23) & 1) == Weight(i, 23, 1)
    ensures ToNat((i >> 24) & 1) == Weight(i, 24, 1) && ToNat((i >> 25) & 1) == Weight(i, 25, 1)
    ensures ToNat((i >> 26) & 1) == Weight(i, 26, 1) && ToNat((i >> 27) & 1) == Weight(i, 27, 1)
    ensures ToNat((i >> 28) & 1) == Weight(i, 28, 1) && ToNat((i >> 29) & 1) == Weight(i, 29, 1)
    ensures ToNat((i >> 30) & 1) == Weight(i, 30, 1) && ToNat((i >> 31) & 1) == Weight(i, 31, 1)
  {
    hide *;
    BitLiterals(i);
    BitWeight(i, 0); BitWeight(i, 1); BitWeight(i, 2); BitWeight(i, 3); BitWeight(i, 4); BitWeight(i, 5);
    BitWeight(i, 6); BitWeight(i, 7); BitWeight(i, 8); BitWeight(i, 9); BitWeight(i, 10); BitWeight(i, 11);
    BitWeight(i, 12); BitWeight(i, 13); BitWeight(i, 14); BitWeight(i, 15); BitWeight(i, 16); BitWeight(i, 17);
    BitWeight(i, 18); BitWeight(i, 19); BitWeight(i, 20); BitWeight(i, 21); BitWeight(i, 22); BitWeight(i, 23);
    BitWeight(i, 24); BitWeight(i, 25); BitWeight(i, 26); BitWeight(i, 27); BitWeight(i, 28); BitWeight(i, 29);
    BitWeight(i, 30); BitWeight(i, 31);
  }

  lemma PairStage(i: bv32, r: bv32)
    requires ToNat((r >> 0) & 1) == Weight(i, 0, 1) && ToNat((r >> 1) & 1) == Weight(i, 1, 1)
    requires ToNat((r >> 2) & 1) == Weight(i, 2, 1) && ToNat((r >> 3) & 1) == Weight(i, 3, 1)
    requires ToNat((r >> 4) & 1) == Weight(i, 4, 1) && ToNat((r >> 5) & 1) == Weight(i, 5, 1)
    requires ToNat((r >> 6) & 1) == Weight(i, 6, 1) && ToNat((r >> 7) & 1) == Weight(i, 7, 1)
    requires ToNat((r >> 8) & 1) == Weight(i, 8, 1) && ToNat((r >> 9) & 1) == Weight(i, 9, 1)
    requires ToNat((r >> 10) & 1) == Weight(i, 10, 1) && ToNat((r >> 11) & 1) == Weight(i, 11, 1)
    requires ToNat((r >> 12) & 1) == Weight(i, 12, 1) && ToNat((r >> 13) & 1) == Weight(i, 13, 1)
    requires ToNat((r >> 14) & 1) == Weight(i, 14, 1) && ToNat((r >> 15) & 1) == Weight(i, 15, 1)
    requires ToNat((r >> 16) & 1) == Weight(i, 16, 1) && ToNat((r >> 17) & 1) == Weight(i, 17, 1)
    requires ToNat((r >> 18) & 1) == Weight(i, 18, 1) && ToNat((r >> 19) & 1) == Weight(i, 19, 1)
    requires ToNat((r >> 20) & 1) == Weight(i, 20, 1) && ToNat((r >> 21) & 1) == Weight(i, 21, 1)
    requires ToNat((r >> 22) & 1) == Weight(i, 22, 1) && ToNat((r >> 23) & 1) == Weight(i, 23, 1)
    requires ToNat((r >> 24) & 1) == Weight(i, 24, 1) && ToNat((r >> 25) & 1) == Weight(i, 25, 1)
    requires ToNat((r >> 26) & 1) == Weight(i, 26, 1) && ToNat((r >> 27) & 1) == Weight(i, 27, 1)
    requires ToNat((r >> 28) & 1) == Weight(i, 28, 1) && ToNat((r >> 29) & 1) == Weight(i, 29, 1)
    requires ToNat((r >> 30) & 1) == Weight(i, 30, 1) && ToNat((r >> 31) & 1) == Weight(i, 31, 1)
    ensures ToNat((Pairs(r) >> 0) & 3) == Weight(i, 0, 2) && ToNat((Pairs(r) >> 2) & 3) == Weight(i, 2, 2)
    ensures ToNat((Pairs(r) >> 4) & 3) == Weight(i, 4, 2) && ToNat((Pairs(r) >> 6) & 3) == Weight(i, 6, 2)
    ensures ToNat((Pairs(r) >> 8) & 3) == Weight(i, 8, 2) && ToNat((Pairs(r) >> 10) & 3) == Weight(i, 10, 2)
    ensures ToNat((Pairs(r) >> 12) & 3) == Weight(i, 12, 2) && ToNat((Pairs(r) >> 14) & 3) == Weight(i, 14, 2)
    ensures ToNat((Pairs(r) >> 16) & 3) == Weight(i, 16, 2) && ToNat((Pairs(r) >> 18) & 3) == Weight(i, 18, 2)
    ensures ToNat((Pairs(r) >> 20) & 3) == Weight(i, 20, 2) && ToNat((Pairs(r) >> 22) & 3) == Weight(i, 22, 2)
    ensures ToNat((Pairs(r) >> 24) & 3) == Weight(i, 24, 2) && ToNat((Pairs(r) >> 26) & 3) == Weight(i, 26, 2)
    ensures ToNat((Pairs(r) >> 28) & 3) == Weight(i, 28, 2) && ToNat((Pairs(r) >> 30) & 3) == Weight(i, 30, 2)
  {
    hide *;
    PairFields(r);
    Join(i, 0, 1, (r >> 0) & 1, (r >> 1) & 1); Join(i, 2, 1, (r >> 2) & 1, (r >> 3) & 1);
    Join(i, 4, 1, (r >> 4) & 1, (r >> 5) & 1); Join(i, 6, 1, (r >> 6) & 1, (r >> 7) & 1);
    Join(i, 8, 1, (r >> 8) & 1, (r >> 9) & 1); Join(i, 10, 1, (r >> 10) & 1, (r >> 11) & 1);
    Join(i, 12, 1, (r >> 12) & 1, (r >> 13) & 1); Join(i, 14, 1, (r >> 14) & 1, (r >> 15) & 1);
    Join(i, 16, 1, (r >> 16) & 1, (r >> 17) & 1); Join(i, 18, 1, (r >> 18) & 1, (r >> 19) & 1);
    Join(i, 20, 1, (r >> 20) & 1, (r >> 21) & 1); Join(i, 22, 1, (r >> 22) & 1, (r >> 23) & 1);
    Join(i, 24, 1, (r >> 24) & 1, (r >> 25) & 1); Join(i, 26, 1, (r >> 26) & 1, (r >> 27) & 1);
    Join(i, 28, 1, (r >> 28) & 1, (r >> 29) & 1); Join(i, 30, 1, (r >> 30) & 1, (r >> 31) & 1);
  }

  lemma NibbleStage(i: bv32, r: bv32)
    requires ToNat((r >> 0) & 3) == Weight(i, 0, 2) && ToNat((r >> 2) & 3) == Weight(i, 2, 2)
    requires ToNat((r >> 4) & 3) == Weight(i, 4, 2) && ToNat((r >> 6) & 3) == Weight(i, 6, 2)
    requires ToNat((r >> 8) & 3) == Weight(i, 8, 2) && ToNat((r >> 10) & 3) == Weight(i, 10, 2)
    requires ToNat((r >> 12) & 3) == Weight(i, 12, 2) && ToNat((r >> 14) & 3) == Weight(i, 14, 2)
    requires ToNat((r >> 16) & 3) == Weight(i, 16, 2) && ToNat((r >> 18) & 3) == Weight(i, 18, 2)
    requires ToNat((r >> 20) & 3) == Weight(i, 20, 2) && ToNat((r >> 22) & 3) == Weight(i, 22, 2)
    requires ToNat((r >> 24) & 3) == Weight(i, 24, 2) && ToNat((r >> 26) & 3) == Weight(i, 26, 2)
    requires ToNat((r >> 28) & 3) == Weight(i, 28, 2) && ToNat((r >> 30) & 3) == Weight(i, 30, 2)
    ensures ToNat((Nibbles(r) >> 0) & 15) == Weight(i, 0, 4) && ToNat((Nibbles(r) >> 4) & 15) == Weight(i, 4, 4)
    ensures ToNat((Nibbles(r) >> 8) & 15) == Weight(i, 8, 4) && ToNat((Nibbles(r) >> 12) & 15) == Weight(i, 12, 4)
    ensures ToNat((Nibbles(r) >> 16) & 15) == Weight(i, 16, 4) && ToNat((Nibbles(r) >> 20) & 15) == Weight(i, 20, 4)
    ensures ToNat((Nibbles(r) >> 24) & 15) == Weight(i, 24, 4) && ToNat((Nibbles(r) >> 28) & 15) == Weight(i, 28, 4)
  {
    hide *;
    NibbleFields(r);
    Join(i, 0, 2, (r >> 0) & 3, (r >> 2) & 3); Join(i, 4, 2, (r >> 4) & 3, (r >> 6) & 3);
    Join(i, 8, 2, (r >> 8) & 3, (r >> 10) & 3); Join(i, 12, 2, (r >> 12) & 3, (r >> 14) & 3);
    Join(i, 16, 2, (r >> 16) & 3, (r >> 18) & 3); Join(i, 20, 2, (r >> 20) & 3, (r >> 22) & 3);
    Join(i, 24, 2, (r >> 24) & 3, (r >> 26) & 3); Join(i, 28, 2, (r >> 28) & 3, (r >> 30) & 3);
  }

  lemma ByteStage(i: bv32, r: bv32)
    requires ToNat((r >> 0) & 15) == Weight(i, 0, 4) && ToNat((r >> 4) & 15) == Weight(i, 4, 4)
    requires ToNat((r >> 8) & 15) == Weight(i, 8, 4) && ToNat((r >> 12) & 15) == Weight(i, 12, 4)
    requires ToNat((r >> 16) & 15) == Weight(i, 16, 4) && ToNat((r >> 20) & 15) == Weight(i, 20, 4)
    requires ToNat((r >> 24) & 15) == Weight(i, 24, 4) && ToNat((r >> 28) & 15) == Weight(i, 28, 4)
    ensures ToNat((Bytes(r) >> 0) & 255) == Weight(i, 0, 8) && ToNat((Bytes(r) >> 8) & 255) == Weight(i, 8, 8)
    ensures ToNat((Bytes(r) >> 16) & 255) == Weight(i, 16, 8) && ToNat((Bytes(r) >> 24) & 255) == Weight(i, 24, 8)
  {
    hide *;
    ByteFields(r);
    Join(i, 0, 4, (r >> 0) & 15, (r >> 4) & 15); Join(i, 8, 4, (r >> 8) & 15, (r >> 12) & 15);
    Join(i, 16, 4, (r >> 16) & 15, (r >> 20) & 15); Join(i, 24, 4, (r >> 24) & 15, (r >> 28) & 15);
  }

  lemma HalfStage(i: bv32, r: bv32)
    requires ToNat((r >> 0) & 255) == Weight(i, 0, 8) && ToNat((r >> 8) & 255) == Weight(i, 8, 8)
    requires ToNat((r >> 16) & 255) == Weight(i, 16, 8) && ToNat((r >> 24) & 255) == Weight(i, 24, 8)
    ensures ToNat((Halves(r) >> 0) & 65535) == Weight(i, 0, 16)
    ensures ToNat((Halves(r) >> 16) & 65535) == Weight(i, 16, 16)
  {
    hide *;
    HalfFields(r);
    Join(i, 0, 8, (r >> 0) & 255, (r >> 8) & 255); Join(i, 16, 8, (r >> 16) & 255, (r >> 24) & 255);
  }

  function Plus(a: bv32, b: bv32): bv32 { a + b }

  lemma NoShift(r: bv32)
    ensures r & 0x0000_FFFF == (r >> 0) & 65535
  {
  }

  lemma JoinLast(i: bv32, a: bv32, b: bv32)
    requires ToNat(a) == Weight(i, 0, 16) && ToNat(b) == Weight(i, 16, 16)
    ensures ToNat(Plus(a, b)) == Weight(i, 0, 32)
  {
    hide Weight, ToNat;
    Join(i, 0, 16, a, b);
  }

  /** hweight32 is the number of set bits. */
  lemma HWeightCounts(i: bv32)
    ensures ToNat(HWeight32(i)) == Weight(i, 0, 32)
  {
    hide Pairs, Nibbles, Bytes, Halves, Plus, Weight, ToNat;
    BitStage(i);
    PairStage(i, i);
    NibbleStage(i, Pairs(i));
    ByteStage(i, Nibbles(Pairs(i)));
    HalfStage(i, Bytes(Nibbles(Pairs(i))));
    var r := Halves(Bytes(Nibbles(Pairs(i))));
    NoShift(r);
    JoinLast(i, r & 0x0000_FFFF, (r >> 16) & 0x0000_FFFF);
  }
}
