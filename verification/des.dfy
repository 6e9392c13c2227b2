/** The DES data path and key schedule of crypto_algs/cpp/DES_encryption.cpp,
    over bit sequences: the table-driven permutations, the circular shift, the
    XOR, the S-box lookup, sixteen Feistel rounds, and decryption as the same
    rounds under the reversed round keys. */
module Des {
  import opened Arith
  import RotateString

  type Bits = seq<bool>

  /** The tables hold 1-based bit positions. */
  type Index64 = x: int | 1 <= x <= 64 witness 1
  type Index56 = x: int | 1 <= x <= 56 witness 1
  type Index32 = x: int | 1 <= x <= 32 witness 1
  type Nibble = x: int | 0 <= x < 16
  type ShiftAmount = x: int | 1 <= x <= 2 witness 1
  type SBoxRow = s: seq<Nibble> | |s| == 16 witness [0, 0, 0, 0, 0, 0, 0, 0, 0, 0, 0, 0, 0, 0, 0, 0]
  type SBox = s: seq<SBoxRow> | |s| == 4 witness [ZERO_ROW, ZERO_ROW, ZERO_ROW, ZERO_ROW]
  const ZERO_ROW: SBoxRow := [0, 0, 0, 0, 0, 0, 0, 0, 0, 0, 0, 0, 0, 0, 0, 0]

  // ---- tables ---------------------------------------------------------------

  /** Initial permutation. */
  const IP_TABLE: seq<Index64> :=
    [58, 50, 42, 34, 26, 18, 10, 2] +
    [60, 52, 44, 36, 28, 20, 12, 4] +
    [62, 54, 46, 38, 30, 22, 14, 6] +
    [64, 56, 48, 40, 32, 24, 16, 8] +
    [57, 49, 41, 33, 25, 17, 9, 1] +
    [59, 51, 43, 35, 27, 19, 11, 3] +
    [61, 53, 45, 37, 29, 21, 13, 5] +
    [63, 55, 47, 39, 31, 23, 15, 7]

  /** Expansion of a 32-bit half to 48 bits. */
  const E_TABLE: seq<Index32> :=
    [32, 1, 2, 3, 4, 5] +
    [4, 5, 6, 7, 8, 9] +
    [8, 9, 10, 11, 12, 13] +
    [12, 13, 14, 15, 16, 17] +
    [16, 17, 18, 19, 20, 21] +
    [20, 21, 22, 23, 24, 25] +
    [24, 25, 26, 27, 28, 29] +
    [28, 29, 30, 31, 32, 1]

  /** Permutation of the S-box output. */
  const P_TABLE: seq<Index32> :=
    [16, 7, 20, 21, 29, 12, 28, 17] +
    [1, 15, 23, 26, 5, 18, 31, 10] +
    [2, 8, 24, 14, 32, 27, 3, 9] +
    [19, 13, 30, 6, 22, 11, 4, 25]

  const S1: SBox := [
       [14, 4, 13, 1, 2, 15, 11, 8, 3, 10, 6, 12, 5, 9, 0, 7],
       [0, 15, 7, 4, 14, 2, 13, 1, 10, 6, 12, 11, 9, 5, 3, 8],
       [4, 1, 14, 8, 13, 6, 2, 11, 15, 12, 9, 7, 3, 10, 5, 0],
       [15, 12, 8, 2, 4, 9, 1, 7, 5, 11, 3, 14, 10, 0, 6, 13]
  ]
  const S2: SBox := [
       [15, 1, 8, 14, 6, 11, 3, 4, 9, 7, 2, 13, 12, 0, 5, 10],
       [3, 13, 4, 7, 15, 2, 8, 14, 12, 0, 1, 10, 6, 9, 11, 5],
       [0, 14, 7, 11, 10, 4, 13, 1, 5, 8, 12, 6, 9, 3, 2, 15],
       [13, 8, 10, 1, 3, 15, 4, 2, 11, 6, 7, 12, 0, 5, 14, 9]
  ]
  const S3: SBox := [
       [10, 0, 9, 14, 6, 3, 15, 5, 1, 13, 12, 7, 11, 4, 2, 8],
       [13, 7, 0, 9, 3, 4, 6, 10, 2, 8, 5, 14, 12, 11, 15, 1],
       [13, 6, 4, 9, 8, 15, 3, 0, 11, 1, 2, 12, 5, 10, 14, 7],
       [1, 10, 13, 0, 6, 9, 8, 7, 4, 15, 14, 3, 11, 5, 2, 12]
  ]
  const S4: SBox := [
       [7, 13, 14, 3, 0, 6, 9, 10, 1, 2, 8, 5, 11, 12, 4, 15],
       [13, 8, 11, 5, 6, 15, 0, 3, 4, 7, 2, 12, 1, 10, 14, 9],
       [10, 6, 9, 0, 12, 11, 7, 13, 15, 1, 3, 14, 5, 2, 8, 4],
       [3, 15, 0, 6, 10, 1, 13, 8, 9, 4, 5, 11, 12, 7, 2, 14]
  ]
  const S5: SBox := [
       [2, 12, 4, 1, 7, 10, 11, 6, 8, 5, 3, 15, 13, 0, 14, 9],
       [14, 11, 2, 12, 4, 7, 13, 1, 5, 0, 15, 10, 3, 9, 8, 6],
       [4, 2, 1, 11, 10, 13, 7, 8, 15, 9, 12, 5, 6, 3, 0, 14],
       [11, 8, 12, 7, 1, 14, 2, 13, 6, 15, 0, 9, 10, 4, 5, 3]
  ]
  const S6: SBox := [
       [12, 1, 10, 15, 9, 2, 6, 8, 0, 13, 3, 4, 14, 7, 5, 11],
       [10, 15, 4, 2, 7, 12, 9, 5, 6, 1, 13, 14, 0, 11, 3, 8],
       [9, 14, 15, 5, 2, 8, 12, 3, 7, 0, 4, 10, 1, 13, 11, 6],
       [4, 3, 2, 12, 9, 5, 15, 10, 11, 14, 1, 7, 6, 0, 8, 13]
  ]
  const S7: SBox := [
       [4, 11, 2, 14, 15, 0, 8, 13, 3, 12, 9, 7, 5, 10, 6, 1],
       [13, 0, 11, 7, 4, 9, 1, 10, 14, 3, 5, 12, 2, 15, 8, 6],
       [1, 4, 11, 13, 12, 3, 7, 14, 10, 15, 6, 8, 0, 5, 9, 2],
       [6, 11, 13, 8, 1, 4, 10, 7, 9, 5, 0, 15, 14, 2, 3, 12]
  ]
  const S8: SBox := [
       [13, 2, 8, 4, 6, 15, 11, 1, 10, 9, 3, 14, 5, 0, 12, 7],
       [1, 15, 13, 8, 10, 3, 7, 4, 12, 5, 6, 11, 0, 14, 9, 2],
       [7, 11, 4, 1, 9, 12, 14, 2, 0, 6, 10, 13, 15, 3, 5, 8],
       [2, 1, 14, 7, 4, 10, 8, 13, 15, 12, 9, 0, 3, 5, 6, 11]
  ]

  /** Eight S-boxes of four rows and sixteen columns. */
  const S_BOXES: seq<SBox> := [S1, S2, S3, S4, S5, S6, S7, S8]

  /** Permuted choice 1: 56 of the 64 key bits. */
  const PC1_TABLE: seq<Index64> :=
    [57, 49, 41, 33, 25, 17, 9, 1, 58, 50, 42, 34, 26, 18] +
    [10, 2, 59, 51, 43, 35, 27, 19, 11, 3, 60, 52, 44, 36] +
    [63, 55, 47, 39, 31, 23, 15, 7, 62, 54, 46, 38, 30, 22] +
    [14, 6, 61, 53, 45, 37, 29, 21, 13, 5, 28, 20, 12, 4]

  /** Permuted choice 2: the 48 round-key bits out of the shifted 56. */
  const PC2_TABLE: seq<Index56> :=
    [14, 17, 11, 24, 1, 5, 3, 28, 15, 6, 21, 10] +
    [23, 19, 12, 4, 26, 8, 16, 7, 27, 20, 13, 2] +
    [41, 52, 31, 37, 47, 55, 30, 40, 51, 45, 33, 48] +
    [44, 49, 39, 56, 34, 53, 46, 42, 50, 36, 29, 32]

  /** Left shifts of each key half, round by round. */
  const SHIFT_SCHEDULE: seq<ShiftAmount> := [1, 1, 2, 2, 2, 2, 2, 2, 1, 2, 2, 2, 2, 2, 2, 1]

  /** Inverse initial permutation. */
  const IP_INV_TABLE: seq<Index64> :=
    [40, 8, 48, 16, 56, 24, 64, 32, 39, 7, 47, 15, 55, 23, 63, 31] +
    [38, 6, 46, 14, 54, 22, 62, 30, 37, 5, 45, 13, 53, 21, 61, 29] +
    [36, 4, 44, 12, 52, 20, 60, 28, 35, 3, 43, 11, 51, 19, 59, 27] +
    [34, 2, 42, 10, 50, 18, 58, 26, 33, 1, 41, 9, 49, 17, 57, 25]

  // ---- apply_permutation ------------------------------------------------------

  /** Every entry of `table` names a bit of an `n`-bit input. */
  predicate FitsTable(table: seq<int>, n: nat) {
    forall i :: 0 <= i < |table| ==> 1 <= table[i] <= n
  }

  /** What `apply_permutation(input, table, |table|)` returns: output bit `i` is
      the input bit at the 1-based position `table[i]`. */
  function Permuted(input: Bits, table: seq<int>): (r: Bits)
    requires FitsTable(table, |input|)
    ensures |r| == |table|
  {
    seq(|table|, i requires 0 <= i < |table| => input[table[i] - 1])
  }

  /** Permuting twice is permuting once by the composed table. */
  lemma PermutedTwice(x: Bits, first: seq<int>, second: seq<int>)
    requires FitsTable(first, |x|) && FitsTable(second, |first|)
    ensures var composed := seq(|second|, i requires 0 <= i < |second| => first[second[i] - 1]);
      FitsTable(composed, |x|) && Permuted(Permuted(x, first), second) == Permuted(x, composed)
  {}

  /** `apply_permutation`: fills the output one table entry at a time. */
  method ApplyPermutation(input: Bits, table: seq<int>) returns (output: Bits)
    requires FitsTable(table, |input|)
    ensures output == Permuted(input, table)
  {
    var out := new bool[|table|];
    for i := 0 to |table|
      invariant forall j :: 0 <= j < i ==> out[j] == input[table[j] - 1]
    {
      out[i] := input[table[i] - 1];
    }
    output := out[..];
  }

  lemma InverseAfterIp0()
    ensures forall i :: 0 <= i < 8 ==> IP_INV_TABLE[IP_TABLE[i] - 1] == i + 1
  {
    forall i | 0 <= i < 8
      ensures IP_INV_TABLE[IP_TABLE[i] - 1] == i + 1
    {
      assert i == 0 || i == 1 || i == 2 || i == 3 || i == 4 || i == 5 || i == 6 || i == 7;
    }
  }

  lemma InverseAfterIp1()
    ensures forall i :: 8 <= i < 16 ==> IP_INV_TABLE[IP_TABLE[i] - 1] == i + 1
  {
    forall i | 8 <= i < 16
      ensures IP_INV_TABLE[IP_TABLE[i] - 1] == i + 1
    {
      assert i == 8 || i == 9 || i == 10 || i == 11 || i == 12 || i == 13 || i == 14 || i == 15;
    }
  }

  lemma InverseAfterIp2()
    ensures forall i :: 16 <= i < 24 ==> IP_INV_TABLE[IP_TABLE[i] - 1] == i + 1
  {
    forall i | 16 <= i < 24
      ensures IP_INV_TABLE[IP_TABLE[i] - 1] == i + 1
    {
      assert i == 16 || i == 17 || i == 18 || i == 19 || i == 20 || i == 21 || i == 22 || i == 23;
    }
  }

  lemma InverseAfterIp3()
    ensures forall i :: 24 <= i < 32 ==> IP_INV_TABLE[IP_TABLE[i] - 1] == i + 1
  {
    forall i | 24 <= i < 32
      ensures IP_INV_TABLE[IP_TABLE[i] - 1] == i + 1
    {
      assert i == 24 || i == 25 || i == 26 || i == 27 || i == 28 || i == 29 || i == 30 || i == 31;
    }
  }

  lemma InverseAfterIp4()
    ensures forall i :: 32 <= i < 40 ==> IP_INV_TABLE[IP_TABLE[i] - 1] == i + 1
  {
    forall i | 32 <= i < 40
      ensures IP_INV_TABLE[IP_TABLE[i] - 1] == i + 1
    {
      assert i == 32 || i == 33 || i == 34 || i == 35 || i == 36 || i == 37 || i == 38 || i == 39;
    }
  }

  lemma InverseAfterIp5()
    ensures forall i :: 40 <= i < 48 ==> IP_INV_TABLE[IP_TABLE[i] - 1] == i + 1
  {
    forall i | 40 <= i < 48
      ensures IP_INV_TABLE[IP_TABLE[i] - 1] == i + 1
    {
      assert i == 40 || i == 41 || i == 42 || i == 43 || i == 44 || i == 45 || i == 46 || i == 47;
    }
  }

  lemma InverseAfterIp6()
    ensures forall i :: 48 <= i < 56 ==> IP_INV_TABLE[IP_TABLE[i] - 1] == i + 1
  {
    forall i | 48 <= i < 56
      ensures IP_INV_TABLE[IP_TABLE[i] - 1] == i + 1
    {
      assert i == 48 || i == 49 || i == 50 || i == 51 || i == 52 || i == 53 || i == 54 || i == 55;
    }
  }

  lemma InverseAfterIp7()
    ensures forall i :: 56 <= i < 64 ==> IP_INV_TABLE[IP_TABLE[i] - 1] == i + 1
  {
    forall i | 56 <= i < 64
      ensures IP_INV_TABLE[IP_TABLE[i] - 1] == i + 1
    {
      assert i == 56 || i == 57 || i == 58 || i == 59 || i == 60 || i == 61 || i == 62 || i == 63;
    }
  }

  lemma IpAfterInverse0()
    ensures forall i :: 0 <= i < 8 ==> IP_TABLE[IP_INV_TABLE[i] - 1] == i + 1
  {
    forall i | 0 <= i < 8
      ensures IP_TABLE[IP_INV_TABLE[i] - 1] == i + 1
    {
      assert i == 0 || i == 1 || i == 2 || i == 3 || i == 4 || i == 5 || i == 6 || i == 7;
    }
  }

  lemma IpAfterInverse1()
    ensures forall i :: 8 <= i < 16 ==> IP_TABLE[IP_INV_TABLE[i] - 1] == i + 1
  {
    forall i | 8 <= i < 16
      ensures IP_TABLE[IP_INV_TABLE[i] - 1] == i + 1
    {
      assert i == 8 || i == 9 || i == 10 || i == 11 || i == 12 || i == 13 || i == 14 || i == 15;
    }
  }

  lemma IpAfterInverse2()
    ensures forall i :: 16 <= i < 24 ==> IP_TABLE[IP_INV_TABLE[i] - 1] == i + 1
  {
    forall i | 16 <= i < 24
      ensures IP_TABLE[IP_INV_TABLE[i] - 1] == i + 1
    {
      assert i == 16 || i == 17 || i == 18 || i == 19 || i == 20 || i == 21 || i == 22 || i == 23;
    }
  }

  lemma IpAfterInverse3()
    ensures forall i :: 24 <= i < 32 ==> IP_TABLE[IP_INV_TABLE[i] - 1] == i + 1
  {
    forall i | 24 <= i < 32
      ensures IP_TABLE[IP_INV_TABLE[i] - 1] == i + 1
    {
      assert i == 24 || i == 25 || i == 26 || i == 27 || i == 28 || i == 29 || i == 30 || i == 31;
    }
  }

  lemma IpAfterInverse4()
    ensures forall i :: 32 <= i < 40 ==> IP_TABLE[IP_INV_TABLE[i] - 1] == i + 1
  {
    forall i | 32 <= i < 40
      ensures IP_TABLE[IP_INV_TABLE[i] - 1] == i + 1
    {
      assert i == 32 || i == 33 || i == 34 || i == 35 || i == 36 || i == 37 || i == 38 || i == 39;
    }
  }

  lemma IpAfterInverse5()
    ensures forall i :: 40 <= i < 48 ==> IP_TABLE[IP_INV_TABLE[i] - 1] == i + 1
  {
    forall i | 40 <= i < 48
      ensures IP_TABLE[IP_INV_TABLE[i] - 1] == i + 1
    {
      assert i == 40 || i == 41 || i == 42 || i == 43 || i == 44 || i == 45 || i == 46 || i == 47;
    }
  }

  lemma IpAfterInverse6()
    ensures forall i :: 48 <= i < 56 ==> IP_TABLE[IP_INV_TABLE[i] - 1] == i + 1
  {
    forall i | 48 <= i < 56
      ensures IP_TABLE[IP_INV_TABLE[i] - 1] == i + 1
    {
      assert i == 48 || i == 49 || i == 50 || i == 51 || i == 52 || i == 53 || i == 54 || i == 55;
    }
  }

  lemma IpAfterInverse7()
    ensures forall i :: 56 <= i < 64 ==> IP_TABLE[IP_INV_TABLE[i] - 1] == i + 1
  {
    forall i | 56 <= i < 64
      ensures IP_TABLE[IP_INV_TABLE[i] - 1] == i + 1
    {
      assert i == 56 || i == 57 || i == 58 || i == 59 || i == 60 || i == 61 || i == 62 || i == 63;
    }
  }

  /** `IP_INV_TABLE` undoes `IP_TABLE` on 64-bit blocks. */
  lemma InverseUndoesInitialPermutation(x: Bits)
    requires |x| == 64
    ensures Permuted(Permuted(x, IP_TABLE), IP_INV_TABLE) == x
  {
    IpAfterInverse0(); IpAfterInverse1(); IpAfterInverse2(); IpAfterInverse3();
    IpAfterInverse4(); IpAfterInverse5(); IpAfterInverse6(); IpAfterInverse7();
    var y := Permuted(Permuted(x, IP_TABLE), IP_INV_TABLE);
    forall i | 0 <= i < 64
      ensures y[i] == x[i]
    {
      assert y[i] == x[IP_TABLE[IP_INV_TABLE[i] - 1] - 1];
    }
  }

  /** `IP_TABLE` undoes `IP_INV_TABLE` on 64-bit blocks. */
  lemma InitialPermutationUndoesInverse(x: Bits)
    requires |x| == 64
    ensures Permuted(Permuted(x, IP_INV_TABLE), IP_TABLE) == x
  {
    InverseAfterIp0(); InverseAfterIp1(); InverseAfterIp2(); InverseAfterIp3();
    InverseAfterIp4(); InverseAfterIp5(); InverseAfterIp6(); InverseAfterIp7();
    var z := Permuted(Permuted(x, IP_INV_TABLE), IP_TABLE);
    forall i | 0 <= i < 64
      ensures z[i] == x[i]
    {
      assert z[i] == x[IP_INV_TABLE[IP_TABLE[i] - 1] - 1];
    }
  }

  // ---- circular_left_shift ----------------------------------------------------

  /** `circular_left_shift(input, k)`: `std::rotate` around position `k`. */
  function CircularLeftShift(input: Bits, shiftAmount: int): (r: Bits)
    requires 0 <= shiftAmount <= |input|
    ensures |r| == |input|
  {
    input[shiftAmount..] + input[..shiftAmount]
  }

  /** The shift is a left rotation: output bit `i` is input bit `(i + k) mod n`. */
  lemma CircularLeftShiftAt(input: Bits, shiftAmount: int)
    requires 0 <= shiftAmount <= |input|
    ensures forall i :: 0 <= i < |input| ==>
      CircularLeftShift(input, shiftAmount)[i] == input[(i + shiftAmount) % |input|]
  {
    if |input| > 0 {
      var n, c := |input|, CircularLeftShift(input, shiftAmount);
      if shiftAmount == n {
        DivModUnique(shiftAmount, n, 1, 0);
        assert c == input == input[0..] + input[..0];
      } else {
        DivModUnique(shiftAmount, n, 0, shiftAmount);
      }
      assert c == RotateString.RotateLeft(input, shiftAmount).value;
      RotateString.RotateLeftAt(input, shiftAmount);
    }
  }

  /** A non-empty half rotated left by `k` positions in all. */
  function Rotated(half: Bits, k: nat): (r: Bits)
    requires |half| > 0
    ensures |r| == |half|
  {
    CircularLeftShift(half, k % |half|)
  }

  lemma ModShiftLeft(x: int, y: int, n: int)
    requires n > 0
    ensures (x % n + y) % n == (x + y) % n
  {
    ModAddMultiple(x / n, x % n + y, n);
  }

  /** Shifting a rotated half by `k` more rotates it by the sum. */
  lemma RotatedShift(half: Bits, total: nat, k: int)
    requires |half| > 0 && 0 <= k <= |half|
    ensures CircularLeftShift(Rotated(half, total), k) == Rotated(half, total + k)
  {
    var n := |half|;
    var r := Rotated(half, total);
    CircularLeftShiftAt(half, total % n);
    CircularLeftShiftAt(r, k);
    CircularLeftShiftAt(half, (total + k) % n);
    forall i | 0 <= i < n
      ensures CircularLeftShift(r, k)[i] == Rotated(half, total + k)[i]
    {
      var j := (i + k) % n;
      ModShiftLeft(j + 0, total % n, n);
      ModShiftLeft(i + k, total % n, n);
      ModShiftLeft(total, i + k, n);
      ModShiftLeft(total + k, i, n);
      assert (j + total % n) % n == (i + (total + k) % n) % n;
    }
  }

  // ---- xor_bits -----------------------------------------------------------------

  /** What `xor_bits(a, b)` returns: `a` bitwise XOR the first `|a|` bits of `b`. */
  function Xored(a: Bits, b: Bits): (r: Bits)
    requires |b| >= |a|
    ensures |r| == |a|
  {
    seq(|a|, i requires 0 <= i < |a| => a[i] != b[i])
  }

  /** XORing with the same bits twice gives back the original. */
  lemma XoredTwice(a: Bits, b: Bits)
    requires |b| >= |a|
    ensures Xored(Xored(a, b), b) == a
  {}

  /** `xor_bits`: one bit at a time. */
  method XorBits(a: Bits, b: Bits) returns (result: Bits)
    requires |b| >= |a|
    ensures result == Xored(a, b)
  {
    var out := new bool[|a|];
    for i := 0 to |a|
      invariant forall j :: 0 <= j < i ==> out[j] == (a[j] != b[j])
    {
      out[i] := a[i] != b[i];
    }
    result := out[..];
  }

  // ---- s_box_substitution -----------------------------------------------------

  function BitValue(b: bool): int {
    if b then 1 else 0
  }

  /** Row of S-box `i`: the first and the last of its six input bits. */
  function SBoxRowIndex(input: Bits, i: nat): (row: int)
    requires 6 * i + 6 <= |input|
    ensures 0 <= row < 4
  {
    2 * BitValue(input[6 * i]) + BitValue(input[6 * i + 5])
  }

  /** Column of S-box `i`: the four middle bits of its six input bits. */
  function SBoxColumnIndex(input: Bits, i: nat): (col: int)
    requires 6 * i + 6 <= |input|
    ensures 0 <= col < 16
  {
    8 * BitValue(input[6 * i + 1]) + 4 * BitValue(input[6 * i + 2])
      + 2 * BitValue(input[6 * i + 3]) + BitValue(input[6 * i + 4])
  }

  /** Bit `j` of a nibble, counting from the most significant. */
  function NibbleBit(value: Nibble, j: nat): bool
    requires j < 4
  {
    (value / Pow2(3 - j)) % 2 == 1
  }

  function Pow2(k: nat): (p: int)
    ensures p == Pow(2, k) && p > 0
  {
    PowNonNegative(2, k);
    Pow(2, k)
  }

  function SBoxValue(input: Bits, i: nat): Nibble
    requires i < 8 && |input| >= 48
  {
    S_BOXES[i][SBoxRowIndex(input, i)][SBoxColumnIndex(input, i)]
  }

  /** What `s_box_substitution` returns: 32 bits, four per S-box. */
  function Substituted(input: Bits): (r: Bits)
    requires |input| >= 48
    ensures |r| == 32
  {
    seq(32, k requires 0 <= k < 32 => NibbleBit(SBoxValue(input, k / 4), k % 4))
  }

  lemma NibbleBits(value: Nibble)
    ensures 8 * BitValue(NibbleBit(value, 0)) + 4 * BitValue(NibbleBit(value, 1))
      + 2 * BitValue(NibbleBit(value, 2)) + BitValue(NibbleBit(value, 3)) == value
  {
    assert Pow(2, 0) == 1 && Pow(2, 1) == 2 && Pow(2, 2) == 4 && Pow(2, 3) == 8;
  }

  /** Output bit `4i + j` is bit `j` of the entry S-box `i` selects. */
  lemma SubstitutedBit(input: Bits, i: nat, j: nat)
    requires |input| >= 48 && i < 8 && j < 4
    ensures Substituted(input)[4 * i + j] == NibbleBit(SBoxValue(input, i), j)
  {
    DivModUnique(4 * i + j, 4, i, j);
  }

  /** Output bits `4i .. 4i+4` are the bits of the entry S-box `i` selects. */
  lemma SubstitutedBits(input: Bits, i: nat)
    requires |input| >= 48 && i < 8
    ensures forall k :: 4 * i <= k < 4 * i + 4 ==>
      Substituted(input)[k] == NibbleBit(SBoxValue(input, i), k - 4 * i)
  {
    forall k | 4 * i <= k < 4 * i + 4
      ensures Substituted(input)[k] == NibbleBit(SBoxValue(input, i), k - 4 * i)
    {
      SubstitutedBit(input, i, k - 4 * i);
    }
  }

  /** Output nibble `i`, read most significant bit first, is the entry of S-box
      `i` at the row given by input bits `6i` and `6i+5` and the column given by
      input bits `6i+1 .. 6i+4`. */
  lemma SubstitutedNibble(input: Bits, i: nat)
    requires |input| >= 48 && i < 8
    ensures var r := Substituted(input);
      8 * BitValue(r[4 * i]) + 4 * BitValue(r[4 * i + 1]) + 2 * BitValue(r[4 * i + 2]) + BitValue(r[4 * i + 3])
        == SBoxValue(input, i)
  {
    var v := SBoxValue(input, i);
    SubstitutedBit(input, i, 0);
    SubstitutedBit(input, i, 1);
    SubstitutedBit(input, i, 2);
    SubstitutedBit(input, i, 3);
    NibbleBits(v);
  }

  /** Row and column read from the six-bit slice of S-box `i`. */
  lemma SBoxInputIndices(input: Bits, i: nat, sBoxInput: Bits)
    requires |input| >= 48 && i < 8 && sBoxInput == input[i * 6..(i + 1) * 6]
    ensures 2 * BitValue(sBoxInput[0]) + BitValue(sBoxInput[5]) == SBoxRowIndex(input, i)
    ensures 8 * BitValue(sBoxInput[1]) + 4 * BitValue(sBoxInput[2]) + 2 * BitValue(sBoxInput[3])
      + BitValue(sBoxInput[4]) == SBoxColumnIndex(input, i)
  {}

  /** The inner loop of `s_box_substitution`: the four bits of `value`, most
      significant first, written to `out[4i .. 4i+4]`. */
  method WriteNibble(out: array<bool>, i: nat, value: Nibble)
    requires out.Length == 32 && i < 8
    modifies out
    ensures forall j :: 0 <= j < 4 ==> out[4 * i + j] == NibbleBit(value, j)
    ensures forall k :: 0 <= k < 32 && !(4 * i <= k < 4 * i + 4) ==> out[k] == old(out[k])
  {
    for j := 0 to 4
      invariant forall j' :: 0 <= j' < j ==> out[4 * i + j'] == NibbleBit(value, j')
      invariant forall k :: 0 <= k < 32 && !(4 * i <= k < 4 * i + j) ==> out[k] == old(out[k])
    {
      out[i * 4 + j] := (value / Pow2(3 - j)) % 2 == 1;
    }
  }

  /** One pass of the outer loop of `s_box_substitution`: the six input bits
      of S-box `i` give a row and a column, and the entry there is written to
      `out[4i .. 4i+4]`. */
  method SubstituteBox(input: Bits, out: array<bool>, i: nat)
    requires |input| >= 48 && out.Length == 32 && i < 8
    modifies out
    ensures forall j :: 0 <= j < 4 ==> out[4 * i + j] == NibbleBit(SBoxValue(input, i), j)
    ensures forall k :: 0 <= k < 32 && !(4 * i <= k < 4 * i + 4) ==> out[k] == old(out[k])
  {
    var sBoxInput := input[i * 6..(i + 1) * 6];
    var row := 2 * BitValue(sBoxInput[0]) + BitValue(sBoxInput[5]);
    var col := 8 * BitValue(sBoxInput[1]) + 4 * BitValue(sBoxInput[2])
      + 2 * BitValue(sBoxInput[3]) + BitValue(sBoxInput[4]);
    SBoxInputIndices(input, i, sBoxInput);
    var value := S_BOXES[i][row][col];
    WriteNibble(out, i, value);
  }

  /** `s_box_substitution`: for each S-box, reads its six input bits, looks up
      the entry and writes it out most significant bit first. */
  method SBoxSubstitution(input: Bits) returns (output: Bits)
    requires |input| >= 48
    ensures output == Substituted(input)
  {
    var out := new bool[32];
    for i := 0 to 8
      invariant forall k :: 0 <= k < 4 * i ==> out[k] == Substituted(input)[k]
    {
      SubstituteBox(input, out, i);
      SubstitutedBits(input, i);
    }
    output := out[..];
  }

  // ---- generate_round_keys ----------------------------------------------------

  /** Total left shift of each key half after the first `rounds` rounds. */
  function ShiftTotal(rounds: nat): nat
    requires rounds <= 16
  {
    if rounds == 0 then 0 else ShiftTotal(rounds - 1) + SHIFT_SCHEDULE[rounds - 1]
  }

  /** The shift schedule adds up to 28, a full turn of each 28-bit half. */
  lemma ShiftScheduleTotal()
    ensures ShiftTotal(16) == 28
  {
    assert ShiftTotal(2) == 2;
    assert ShiftTotal(4) == 6;
    assert ShiftTotal(6) == 10;
    assert ShiftTotal(8) == 14;
    assert ShiftTotal(10) == 17;
    assert ShiftTotal(12) == 21;
    assert ShiftTotal(14) == 25;
  }

  /** The halves C and D of the PC-1 output after `rounds` rounds of the key schedule. */
  function ScheduleHalves(pc1: Bits, rounds: nat): (h: (Bits, Bits))
    requires |pc1| == 56 && rounds <= 16
    ensures |h.0| == 28 && |h.1| == 28
  {
    (Rotated(pc1[..28], ShiftTotal(rounds)), Rotated(pc1[28..], ShiftTotal(rounds)))
  }

  /** What `generate_round_keys` returns: sixteen 48-bit keys, key `i` being
      PC-2 of the halves after round `i + 1`. */
  function RoundKeys(key: Bits): (keys: seq<Bits>)
    requires |key| == 64
    ensures |keys| == 16 && RoundKeyShape(keys)
  {
    var pc1 := Permuted(key, PC1_TABLE);
    seq(16, i requires 0 <= i < 16 =>
      var h := ScheduleHalves(pc1, i + 1);
      Permuted(h.0 + h.1, PC2_TABLE))
  }

  predicate RoundKeyShape(keys: seq<Bits>) {
    forall i :: 0 <= i < |keys| ==> |keys[i]| == 48
  }

  /** After the sixteenth round C and D are back at their values after PC-1. */
  lemma ScheduleHalvesReturn(pc1: Bits)
    requires |pc1| == 56
    ensures ScheduleHalves(pc1, 16) == (pc1[..28], pc1[28..])
    ensures ScheduleHalves(pc1, 16) == ScheduleHalves(pc1, 0)
  {
    ShiftScheduleTotal();
    assert pc1[..28][0..] + pc1[..28][..0] == pc1[..28];
    assert pc1[28..][0..] + pc1[28..][..0] == pc1[28..];
  }

  /** Round `i` of the schedule: shifting the halves after round `i` gives
      the halves after round `i + 1`, and PC-2 of those is round key `i`. */
  lemma ScheduleRound(key: Bits, i: nat, c: Bits, d: Bits)
    requires |key| == 64 && i < 16
    requires (c, d) == ScheduleHalves(Permuted(key, PC1_TABLE), i)
    ensures var c', d' := CircularLeftShift(c, SHIFT_SCHEDULE[i]), CircularLeftShift(d, SHIFT_SCHEDULE[i]);
      && (c', d') == ScheduleHalves(Permuted(key, PC1_TABLE), i + 1)
      && FitsTable(PC2_TABLE, |c' + d'|)
      && Permuted(c' + d', PC2_TABLE) == RoundKeys(key)[i]
  {
    var pc1 := Permuted(key, PC1_TABLE);
    HalfStep(pc1[..28], i);
    HalfStep(pc1[28..], i);
  }

  /** One more round of the schedule shifts a half by that round's amount. */
  lemma HalfStep(half: Bits, i: nat)
    requires |half| == 28 && i < 16
    ensures CircularLeftShift(Rotated(half, ShiftTotal(i)), SHIFT_SCHEDULE[i]) == Rotated(half, ShiftTotal(i + 1))
  {
    RotatedShift(half, ShiftTotal(i), SHIFT_SCHEDULE[i]);
  }

  /** `generate_round_keys`: PC-1, then sixteen rounds of shifting both halves
      and applying PC-2 to their concatenation. */
  method GenerateRoundKeys(masterKey: Bits) returns (roundKeys: seq<Bits>)
    requires |masterKey| == 64
    ensures roundKeys == RoundKeys(masterKey)
  {
    var pc1Key := ApplyPermutation(masterKey, PC1_TABLE);
    var cHalf := pc1Key[..28];
    var dHalf := pc1Key[28..];
    assert (cHalf, dHalf) == ScheduleHalves(pc1Key, 0) by {
      assert cHalf[0..] + cHalf[..0] == cHalf && dHalf[0..] + dHalf[..0] == dHalf;
    }
    ghost var spec := RoundKeys(masterKey);
    var keys := new Bits[16];
    for i := 0 to 16
      invariant (cHalf, dHalf) == ScheduleHalves(pc1Key, i)
      invariant keys[..i] == spec[..i]
    {
      ScheduleRound(masterKey, i, cHalf, dHalf);
      cHalf := CircularLeftShift(cHalf, SHIFT_SCHEDULE[i]);
      dHalf := CircularLeftShift(dHalf, SHIFT_SCHEDULE[i]);
      var combinedKey := cHalf + dHalf;
      keys[i] := ApplyPermutation(combinedKey, PC2_TABLE);
      assert keys[..i + 1] == keys[..i] + [keys[i]];
      assert spec[..i + 1] == spec[..i] + [spec[i]];
    }
    roundKeys := keys[..];
    assert keys[..] == keys[..16];
  }

  // ---- the Feistel network ----------------------------------------------------

  /** The cipher function f: expansion, key XOR, S-boxes, P permutation. */
  function CipherF(right: Bits, roundKey: Bits): (r: Bits)
    requires |right| == 32 && |roundKey| == 48
    ensures |r| == 32
  {
    Permuted(Substituted(Xored(Permuted(right, E_TABLE), roundKey)), P_TABLE)
  }

  /** One round: the old right half becomes the new left half, and the new
      right half is the old left half XOR f; the old left half can be read back
      from the result. */
  function FeistelStep(halves: (Bits, Bits), roundKey: Bits): (r: (Bits, Bits))
    requires |halves.0| == 32 && |halves.1| == 32 && |roundKey| == 48
    ensures r.0 == halves.1 && |r.1| == 32
    ensures Xored(r.1, CipherF(r.0, roundKey)) == halves.0
  {
    XoredTwice(halves.0, CipherF(halves.1, roundKey));
    (halves.1, Xored(halves.0, CipherF(halves.1, roundKey)))
  }

  /** The rounds under `keys`, in order. */
  function Network(halves: (Bits, Bits), keys: seq<Bits>): (r: (Bits, Bits))
    requires |halves.0| == 32 && |halves.1| == 32 && RoundKeyShape(keys)
    ensures |r.0| == 32 && |r.1| == 32
    decreases |keys|
  {
    if keys == [] then halves
    else FeistelStep(Network(halves, keys[..|keys| - 1]), keys[|keys| - 1])
  }

  lemma {:induction false} NetworkPrepend(halves: (Bits, Bits), key: Bits, keys: seq<Bits>)
    requires |halves.0| == 32 && |halves.1| == 32 && |key| == 48 && RoundKeyShape(keys)
    ensures RoundKeyShape([key] + keys)
    ensures Network(halves, [key] + keys) == Network(FeistelStep(halves, key), keys)
    decreases |keys|
  {
    if keys == [] {
      assert ([key] + keys)[..0] == [];
    } else {
      var init := keys[..|keys| - 1];
      assert ([key] + keys)[..|keys|] == [key] + init;
      NetworkPrepend(halves, key, init);
    }
  }

  /** Running the rounds with the keys reversed on the swapped output gives
      back the swapped input. */
  lemma {:induction false} NetworkUndo(halves: (Bits, Bits), keys: seq<Bits>)
    requires |halves.0| == 32 && |halves.1| == 32 && RoundKeyShape(keys)
    ensures RoundKeyShape(RotateString.Reverse(keys))
    ensures var out := Network(halves, keys);
      Network((out.1, out.0), RotateString.Reverse(keys)) == (halves.1, halves.0)
    decreases |keys|
  {
    if keys != [] {
      var init, key := keys[..|keys| - 1], keys[|keys| - 1];
      var mid := Network(halves, init);
      var out := Network(halves, keys);
      assert RotateString.Reverse(keys) == [key] + RotateString.Reverse(init);
      NetworkUndo(halves, init);
      NetworkPrepend((out.1, out.0), key, RotateString.Reverse(init));
      assert FeistelStep((out.1, out.0), key) == (mid.1, mid.0);
    }
  }

  /** Steps 3 to 7 of `des_encrypt` and `des_decrypt`: initial permutation,
      sixteen rounds, the final swap of the halves and the inverse permutation. */
  function Enciphered(block: Bits, roundKeys: seq<Bits>): (r: Bits)
    requires |block| == 64 && |roundKeys| == 16 && RoundKeyShape(roundKeys)
    ensures |r| == 64
  {
    var b := Permuted(block, IP_TABLE);
    var out := Network((b[..32], b[32..]), roundKeys);
    Permuted(out.1 + out.0, IP_INV_TABLE)
  }

  /** Enciphering under the reversed round keys undoes enciphering. */
  lemma EncipheredReversed(block: Bits, roundKeys: seq<Bits>)
    requires |block| == 64 && |roundKeys| == 16 && RoundKeyShape(roundKeys)
    ensures |RotateString.Reverse(roundKeys)| == 16 && RoundKeyShape(RotateString.Reverse(roundKeys))
    ensures Enciphered(Enciphered(block, roundKeys), RotateString.Reverse(roundKeys)) == block
  {
    var b := Permuted(block, IP_TABLE);
    var out := Network((b[..32], b[32..]), roundKeys);
    var c := Enciphered(block, roundKeys);
    InitialPermutationUndoesInverse(out.1 + out.0);
    InverseUndoesInitialPermutation(block);
    var c2 := Permuted(c, IP_TABLE);
    assert c2 == out.1 + out.0;
    assert c2[..32] == out.1 && c2[32..] == out.0;
    NetworkUndo((b[..32], b[32..]), roundKeys);
    assert b[..32] + b[32..] == b;
  }

  /** Under the same key, `des_decrypt` undoes `des_encrypt`. */
  lemma DesDecryptEncrypt(block: Bits, key: Bits)
    requires |block| == 64 && |key| == 64
    ensures Enciphered(Enciphered(block, RoundKeys(key)), RotateString.Reverse(RoundKeys(key))) == block
  {
    EncipheredReversed(block, RoundKeys(key));
  }

  /** Steps 3 to 7, round by round on the two halves. */
  method RunRounds(block: Bits, roundKeys: seq<Bits>) returns (result: Bits)
    requires |block| == 64 && |roundKeys| == 16 && RoundKeyShape(roundKeys)
    ensures result == Enciphered(block, roundKeys)
  {
    var permuted := ApplyPermutation(block, IP_TABLE);
    var leftHalf, rightHalf := permuted[..32], permuted[32..];
    for i := 0 to 16
      invariant (leftHalf, rightHalf) == Network((permuted[..32], permuted[32..]), roundKeys[..i])
    {
      assert roundKeys[..i + 1][..i] == roundKeys[..i];
      var tempRightHalf := rightHalf;
      var expandedRight := ApplyPermutation(rightHalf, E_TABLE);
      var xoredExpanded := XorBits(expandedRight, roundKeys[i]);
      var sBoxOutput := SBoxSubstitution(xoredExpanded);
      var pBoxOutput := ApplyPermutation(sBoxOutput, P_TABLE);
      rightHalf := XorBits(leftHalf, pBoxOutput);
      leftHalf := tempRightHalf;
    }
    assert roundKeys[..16] == roundKeys;
    var combinedBlock := rightHalf + leftHalf;
    result := ApplyPermutation(combinedBlock, IP_INV_TABLE);
  }

  /** `std::reverse` on the round keys, in place. */
  method ReverseInPlace(a: array<Bits>)
    modifies a
    ensures a[..] == RotateString.Reverse(old(a[..]))
  {
    ghost var s := a[..];
    var n := a.Length;
    var i := 0;
    while i < n / 2
      invariant 0 <= i <= n / 2
      invariant forall j :: 0 <= j < i ==> a[j] == s[n - 1 - j] && a[n - 1 - j] == s[j]
      invariant forall j :: i <= j < n - i ==> a[j] == s[j]
    {
      a[i], a[n - 1 - i] := a[n - 1 - i], a[i];
      i := i + 1;
    }
  }

  /** `des_encrypt` on a 64-bit block and a 64-bit key. */
  method DesEncrypt(plaintext: Bits, key: Bits) returns (ciphertext: Bits)
    requires |plaintext| == 64 && |key| == 64
    ensures ciphertext == Enciphered(plaintext, RoundKeys(key))
  {
    var roundKeys := GenerateRoundKeys(key);
    ciphertext := RunRounds(plaintext, roundKeys);
  }

  /** `des_decrypt`: the same rounds with the round keys reversed in place. */
  method DesDecrypt(ciphertext: Bits, key: Bits) returns (plaintext: Bits)
    requires |ciphertext| == 64 && |key| == 64
    ensures plaintext == Enciphered(ciphertext, RotateString.Reverse(RoundKeys(key)))
  {
    var keys := GenerateRoundKeys(key);
    var roundKeys := new Bits[16](i requires 0 <= i < 16 => keys[i]);
    assert roundKeys[..] == keys;
    ReverseInPlace(roundKeys);
    plaintext := RunRounds(ciphertext, roundKeys[..]);
  }
}
