/** The Davies–Meyer hash of crypto_algs/davies_meyer.py: a toy block cipher
    (byte rotation, a Feistel round over byte pairs, key mixing and a position
    permutation, eight rounds), the feed-forward compression
    `H_i = E_{M_i}(H_{i-1}) XOR H_{i-1}`, the hash built on it, and the
    Merkle–Damgård hash the same file defines for comparison. */
module DaviesMeyer {
  import opened Arith
  import opened Outcomes
  import opened ByteCodec
  import MerkleDamgard

  // ---- SimpleBlockCipher: rotation and Feistel round ----------------------

  /** `_rotate_left(val, n)` with the default width of 8 bits: the amount is
      reduced modulo 8 first. */
  function RotateLeft(val: bv8, n: int): bv8 {
    Rotated(val, n % 8)
  }

  function Rotated(val: bv8, k: int): bv8
    requires 0 <= k < 8
  {
    (val << k) | (val >> (8 - k))
  }

  /** Rotating by a multiple of the width changes nothing. */
  lemma RotateLeftMultiple(val: bv8, n: int)
    requires n % 8 == 0
    ensures RotateLeft(val, n) == val
  {}

  /** Rotating by `n` and then by the rest of the width restores the byte. */
  lemma RotateLeftInverse(val: bv8, n: int)
    ensures RotateLeft(RotateLeft(val, n), 8 - n % 8) == val
  {
    var k := n % 8;
    if k == 0 { assert (8 - k) % 8 == 0; RotateBack0(val); }
    else if k == 1 { assert (8 - k) % 8 == 7; RotateBack1(val); }
    else if k == 2 { assert (8 - k) % 8 == 6; RotateBack2(val); }
    else if k == 3 { assert (8 - k) % 8 == 5; RotateBack3(val); }
    else if k == 4 { assert (8 - k) % 8 == 4; RotateBack4(val); }
    else if k == 5 { assert (8 - k) % 8 == 3; RotateBack5(val); }
    else if k == 6 { assert (8 - k) % 8 == 2; RotateBack6(val); }
    else { assert (8 - k) % 8 == 1; RotateBack7(val); }
  }

  lemma RotateBack0(v: bv8) ensures Rotated(Rotated(v, 0), 0) == v {}
  lemma RotateBack1(v: bv8) ensures Rotated(Rotated(v, 1), 7) == v {}
  lemma RotateBack2(v: bv8) ensures Rotated(Rotated(v, 2), 6) == v {}
  lemma RotateBack3(v: bv8) ensures Rotated(Rotated(v, 3), 5) == v {}
  lemma RotateBack4(v: bv8) ensures Rotated(Rotated(v, 4), 4) == v {}
  lemma RotateBack5(v: bv8) ensures Rotated(Rotated(v, 5), 3) == v {}
  lemma RotateBack6(v: bv8) ensures Rotated(Rotated(v, 6), 2) == v {}
  lemma RotateBack7(v: bv8) ensures Rotated(Rotated(v, 7), 1) == v {}

  /** The round function: key XOR, multiply by 31 and add 17 modulo 256, rotate by 3. */
  function RoundFunction(right: bv8, roundKey: bv8): bv8 {
    var temp := right ^ roundKey;
    RotateLeft(temp * 31 + 17, 3)
  }

  /** `_feistel_round(left, right, key)`: returns `(right, left XOR F(right, key))`. */
  function FeistelRound(left: bv8, right: bv8, roundKey: bv8): (r: (bv8, bv8))
    ensures r.0 == right
    ensures r.1 ^ RoundFunction(r.0, roundKey) == left
  {
    (right, left ^ RoundFunction(right, roundKey))
  }

  /** The round undone from its output and the key. */
  function FeistelUnround(out: (bv8, bv8), roundKey: bv8): (bv8, bv8) {
    (out.1 ^ RoundFunction(out.0, roundKey), out.0)
  }

  lemma FeistelRoundTrip(left: bv8, right: bv8, roundKey: bv8)
    ensures FeistelUnround(FeistelRound(left, right, roundKey), roundKey) == (left, right)
  {}

  // ---- SimpleBlockCipher.encrypt ------------------------------------------

  /** `(s * (n // len(s) + 1))[:n]`: `s` repeated past `n` bytes and cut at `n`. */
  function Cycle(s: seq<bv8>, n: nat): (r: seq<bv8>)
    requires |s| > 0
    ensures |r| == n
  {
    var k := n / |s| + 1;
    CycleLongEnough(|s|, n);
    Repeat(s, k)[..n]
  }

  lemma CycleLongEnough(len: nat, n: nat)
    requires len > 0
    ensures (n / len + 1) * len > n
  {
    assert n == len * (n / len) + n % len;
  }

  /** The cycled sequence holds `s` cyclically. */
  lemma CycleAt(s: seq<bv8>, n: nat)
    requires |s| > 0
    ensures forall i :: 0 <= i < n ==> Cycle(s, n)[i] == s[i % |s|]
  {
    forall i | 0 <= i < n
      ensures Cycle(s, n)[i] == s[i % |s|]
    {
      CycleLongEnough(|s|, n);
      RepeatAt(s, n / |s| + 1, i);
    }
  }

  const NUM_ROUNDS: nat := 8

  function SumBytes(s: seq<bv8>): nat {
    if s == [] then 0 else SumBytes(s[..|s| - 1]) + s[|s| - 1] as nat
  }

  /** The low byte of `sum(key_bytes) ^ round_num`; the round number is below 8,
      so it only touches the low byte of the sum. */
  function RoundKey(keyBytes: seq<bv8>, roundNum: nat): bv8
    requires roundNum < NUM_ROUNDS
  {
    ByteOf(SumBytes(keyBytes) % 256) ^ ByteOf(roundNum)
  }

  /** `(round_key + i) & 0xFF`, the key of the pair starting at `i`. */
  function PairKey(roundKey: bv8, i: nat): bv8 {
    roundKey + ByteOf(i % 256)
  }

  /** The pair loop: the Feistel round on positions `(0, 1), (2, 3), ...`; an
      odd-length state keeps its last byte. */
  function FeistelLayer(s: seq<bv8>, roundKey: bv8): (r: seq<bv8>)
    ensures |r| == |s|
  {
    seq(|s|, j requires 0 <= j < |s| =>
      if j % 2 == 0 && j + 1 < |s| then FeistelRound(s[j], s[j + 1], PairKey(roundKey, j)).0
      else if j % 2 == 1 then FeistelRound(s[j - 1], s[j], PairKey(roundKey, j - 1)).1
      else s[j])
  }

  /** The key loop: byte `i` XOR key byte `i`. */
  function KeyLayer(s: seq<bv8>, keyBytes: seq<bv8>): (r: seq<bv8>)
    requires |keyBytes| >= |s|
    ensures |r| == |s|
  {
    seq(|s|, j requires 0 <= j < |s| => s[j] ^ keyBytes[j])
  }

  /** The reindexing `state[(i * 5) % len(state)]`. */
  function Permute(s: seq<bv8>): (r: seq<bv8>)
    ensures |r| == |s|
  {
    seq(|s|, j requires 0 <= j < |s| => s[(j * 5) % |s|])
  }

  function Round(s: seq<bv8>, keyBytes: seq<bv8>, roundNum: nat): (r: seq<bv8>)
    requires |keyBytes| >= |s| && roundNum < NUM_ROUNDS
    ensures |r| == |s|
  {
    Permute(KeyLayer(FeistelLayer(s, RoundKey(keyBytes, roundNum)), keyBytes))
  }

  /** The state after the first `k` rounds. */
  function Rounds(s: seq<bv8>, keyBytes: seq<bv8>, k: nat): (r: seq<bv8>)
    requires |keyBytes| >= |s| && k <= NUM_ROUNDS
    ensures |r| == |s|
  {
    if k == 0 then s else Round(Rounds(s, keyBytes, k - 1), keyBytes, k - 1)
  }

  /** What `SimpleBlockCipher.encrypt` returns: `blockSize` bytes, or
      ZeroDivisionError when the key or the plaintext is empty. */
  function EncryptSpec(key: seq<bv8>, plaintext: seq<bv8>, blockSize: nat): (r: Result<seq<bv8>>)
    ensures r.Err? <==> |key| == 0 || |plaintext| == 0
    ensures r.Err? ==> r.error == ZeroDivisionError
    ensures r.Ok? ==> |r.value| == blockSize
  {
    if |key| == 0 || |plaintext| == 0 then Err(ZeroDivisionError)
    else Ok(Rounds(Cycle(plaintext, blockSize), Cycle(key, blockSize), NUM_ROUNDS))
  }

  /** The pair loop of `encrypt`, on the state in place. */
  method FeistelPairs(state: array<bv8>, roundKey: bv8)
    modifies state
    ensures state[..] == FeistelLayer(old(state[..]), roundKey)
  {
    ghost var s := state[..];
    var n := state.Length;
    var i := 0;
    while i < n - 1
      invariant i % 2 == 0 && 0 <= i <= n
      invariant forall j :: 0 <= j < i ==> state[j] == FeistelLayer(s, roundKey)[j]
      invariant forall j :: i <= j < n ==> state[j] == s[j]
      decreases n - i
    {
      FeistelLayerPair(s, roundKey, i);
      FeistelPair(state, i, PairKey(roundKey, i));
      DivModUnique(i + 2, 2, i / 2 + 1, 0);
      i := i + 2;
    }
    if i == n - 1 {
      assert FeistelLayer(s, roundKey)[i] == s[i];
    }
    assert state[..] == FeistelLayer(s, roundKey);
  }

  /** One pass of the pair loop: the Feistel round on `state[i]` and
      `state[i + 1]`, in place. */
  method FeistelPair(state: array<bv8>, i: nat, pairKey: bv8)
    requires i + 1 < state.Length
    modifies state
    ensures var pair := FeistelRound(old(state[i]), old(state[i + 1]), pairKey);
      state[i] == pair.0 && state[i + 1] == pair.1
    ensures forall j :: 0 <= j < state.Length && j != i && j != i + 1 ==> state[j] == old(state[j])
  {
    var pair := FeistelRound(state[i], state[i + 1], pairKey);
    state[i], state[i + 1] := pair.0, pair.1;
  }

  /** The pair at an even position `i` gets the two halves of one Feistel round. */
  lemma FeistelLayerPair(s: seq<bv8>, roundKey: bv8, i: nat)
    requires i % 2 == 0 && i + 1 < |s|
    ensures var pair := FeistelRound(s[i], s[i + 1], PairKey(roundKey, i));
      FeistelLayer(s, roundKey)[i] == pair.0 && FeistelLayer(s, roundKey)[i + 1] == pair.1
  {
    assert (i + 1) % 2 == 1;
  }

  /** The key loop of `encrypt`, on the state in place. */
  method AddKey(state: array<bv8>, keyBytes: seq<bv8>)
    requires |keyBytes| >= state.Length
    modifies state
    ensures state[..] == KeyLayer(old(state[..]), keyBytes)
  {
    ghost var s := state[..];
    for i := 0 to state.Length
      invariant forall j :: 0 <= j < i ==> state[j] == s[j] ^ keyBytes[j]
      invariant forall j :: i <= j < state.Length ==> state[j] == s[j]
    {
      state[i] := state[i] ^ keyBytes[i];
    }
  }

  /** `SimpleBlockCipher.encrypt(key, plaintext)`: the rounds run over a mutable
      state, pairs first, then key bytes, then the reindexing into a new list. */
  method Encrypt(key: seq<bv8>, plaintext: seq<bv8>, blockSize: nat) returns (r: Result<seq<bv8>>)
    ensures r == EncryptSpec(key, plaintext, blockSize)
  {
    if |key| == 0 || |plaintext| == 0 {
      return Err(ZeroDivisionError);
    }
    var keyBytes := Cycle(key, blockSize);
    var p := Cycle(plaintext, blockSize);
    var state := new bv8[blockSize](i requires 0 <= i < blockSize => p[i]);
    for roundNum := 0 to NUM_ROUNDS
      invariant state.Length == blockSize && fresh(state)
      invariant state[..] == Rounds(p, keyBytes, roundNum)
    {
      var roundKey := RoundKey(keyBytes, roundNum);
      FeistelPairs(state, roundKey);
      AddKey(state, keyBytes);
      var mixed := state[..];
      state := new bv8[blockSize](j requires 0 <= j < blockSize => mixed[(j * 5) % blockSize]);
    }
    return Ok(state[..]);
  }

  // ---- the reindexing is a permutation exactly when 5 does not divide the size

  /** Where the reindexing reads position `i` from. */
  function PermIndex(i: int, n: nat): int
    requires n > 0
  {
    (i * 5) % n
  }

  /** A multiplicative inverse of 5 modulo `n`, written out for each remainder of `n` by 5. */
  function InverseOfFive(n: nat): (x: nat)
    requires n > 0 && n % 5 != 0
    ensures (5 * x) % n == 1 % n
  {
    var q, r := n / 5, n % 5;
    assert n == 5 * q + r;
    if r == 1 then ModAddMultiple(4, 1, n); 4 * q + 1
    else if r == 2 then ModAddMultiple(2, 1, n); 2 * q + 1
    else if r == 3 then ModAddMultiple(3, 1, n); 3 * q + 2
    else ModAddMultiple(1, 1, n); q + 1
  }

  /** Multiplying by a number that is 1 modulo `n` changes no residue. */
  lemma MulByOneModulo(a: int, c: int, n: int)
    requires n > 0 && 0 <= a < n && c % n == 1 % n
    ensures (a * c) % n == a
  {
    MulMod(a, c, n);
    DivModUnique(a, n, 0, a);
    if n > 1 {
      DivModUnique(1, n, 0, 1);
      assert (a * c) % n == (a * 1) % n;
    }
  }

  /** `(a mod n) * b` and `a * b` agree modulo `n`. */
  lemma MulModLeft(a: int, b: int, n: int)
    requires n > 0
    ensures ((a % n) * b) % n == (a * b) % n
  {
    MulMod(a % n, b, n);
    MulMod(a, b, n);
    ModOfMod(a, n);
  }

  /** Multiplying by 5 and by `x` in either order. */
  lemma RegroupFive(i: int, x: int)
    ensures (i * 5) * x == i * (5 * x) && (i * x) * 5 == i * (5 * x)
  {}

  /** Reading back through the inverse of 5 lands on the starting position. */
  lemma PermIndexBack(n: nat, j: int)
    requires n > 0 && n % 5 != 0 && 0 <= j < n
    ensures PermIndex((j * InverseOfFive(n)) % n, n) == j
  {
    var x := InverseOfFive(n);
    var a, b := j * x, 5 * x;
    MulModLeft(a, 5, n);
    RegroupFive(j, x);
    MulByOneModulo(j, b, n);
  }

  /** Multiplying the read position by the inverse of 5 recovers the index. */
  lemma PermIndexForward(n: nat, i: int)
    requires n > 0 && n % 5 != 0 && 0 <= i < n
    ensures (PermIndex(i, n) * InverseOfFive(n)) % n == i
  {
    var x := InverseOfFive(n);
    var a, b := i * 5, 5 * x;
    assert PermIndex(i, n) == a % n;
    MulModLeft(a, x, n);
    RegroupFive(i, x);
    MulByOneModulo(i, b, n);
  }

  lemma PermutationWhenNotMultipleOfFive(n: nat)
    requires n > 0 && n % 5 != 0
    ensures forall i, j :: 0 <= i < n && 0 <= j < n && PermIndex(i, n) == PermIndex(j, n) ==> i == j
  {
    forall i, j | 0 <= i < n && 0 <= j < n && PermIndex(i, n) == PermIndex(j, n)
      ensures i == j
    {
      PermIndexForward(n, i);
      PermIndexForward(n, j);
    }
  }

  lemma CollisionWhenMultipleOfFive(n: nat)
    requires n > 0 && n % 5 == 0
    ensures PermIndex(0, n) == PermIndex(n / 5, n) && n / 5 != 0
  {
    var j := n / 5;
    assert n == 5 * j;
    DivModUnique(0, n, 0, 0);
    DivModUnique(j * 5, n, 1, 0);
  }

  /** `i -> (i * 5) mod n` is one-to-one on `0 .. n-1` exactly when `n` is not a
      multiple of 5; otherwise positions 0 and `n / 5` read the same byte. */
  lemma PermutationIffNotMultipleOfFive(n: nat)
    requires n > 0
    ensures (forall i, j :: 0 <= i < n && 0 <= j < n && PermIndex(i, n) == PermIndex(j, n) ==> i == j)
        <==> n % 5 != 0
  {
    if n % 5 != 0 {
      PermutationWhenNotMultipleOfFive(n);
    } else {
      CollisionWhenMultipleOfFive(n);
    }
  }

  // ---- the cipher can be run backwards when 5 does not divide the size -----

  /** Undoes `Permute`. */
  function Unpermute(t: seq<bv8>): (r: seq<bv8>)
    requires |t| % 5 != 0
    ensures |r| == |t|
  {
    var n := |t|;
    seq(n, j requires 0 <= j < n => t[(j * InverseOfFive(n)) % n])
  }

  lemma UnpermutePermute(s: seq<bv8>)
    requires |s| % 5 != 0
    ensures Unpermute(Permute(s)) == s
  {
    forall j | 0 <= j < |s|
      ensures Unpermute(Permute(s))[j] == s[j]
    {
      PermIndexBack(|s|, j);
    }
  }

  /** Undoes `FeistelLayer` pair by pair. */
  function UnFeistelLayer(t: seq<bv8>, roundKey: bv8): (r: seq<bv8>)
    ensures |r| == |t|
  {
    seq(|t|, j requires 0 <= j < |t| =>
      if j % 2 == 0 && j + 1 < |t| then FeistelUnround((t[j], t[j + 1]), PairKey(roundKey, j)).0
      else if j % 2 == 1 then FeistelUnround((t[j - 1], t[j]), PairKey(roundKey, j - 1)).1
      else t[j])
  }

  lemma UnFeistelFeistelLeft(s: seq<bv8>, roundKey: bv8, j: nat)
    requires j % 2 == 0 && j + 1 < |s|
    ensures UnFeistelLayer(FeistelLayer(s, roundKey), roundKey)[j] == s[j]
  {
    var t, k := FeistelLayer(s, roundKey), PairKey(roundKey, j);
    FeistelLayerPair(s, roundKey, j);
    UnFeistelLeftAt(t, roundKey, j);
    FeistelRoundTripParts(s[j], s[j + 1], k);
  }

  lemma UnFeistelFeistelRight(s: seq<bv8>, roundKey: bv8, j: nat)
    requires j % 2 == 1 && j < |s|
    ensures UnFeistelLayer(FeistelLayer(s, roundKey), roundKey)[j] == s[j]
  {
    var i := j - 1;
    var t, k := FeistelLayer(s, roundKey), PairKey(roundKey, i);
    DivModUnique(i, 2, j / 2, 0);
    FeistelLayerPair(s, roundKey, i);
    var pair := FeistelRound(s[i], s[j], k);
    assert t[i] == pair.0 && t[j] == pair.1;
    UnFeistelRightAt(t, roundKey, j);
    FeistelRoundTripParts(s[i], s[j], k);
  }

  /** The undone pair loop at an even position reads the pair starting there. */
  lemma UnFeistelLeftAt(t: seq<bv8>, roundKey: bv8, j: nat)
    requires j % 2 == 0 && j + 1 < |t|
    ensures UnFeistelLayer(t, roundKey)[j] == FeistelUnround((t[j], t[j + 1]), PairKey(roundKey, j)).0
  {}

  /** The undone pair loop at an odd position reads the pair ending there. */
  lemma UnFeistelRightAt(t: seq<bv8>, roundKey: bv8, j: nat)
    requires j % 2 == 1 && j < |t|
    ensures UnFeistelLayer(t, roundKey)[j] == FeistelUnround((t[j - 1], t[j]), PairKey(roundKey, j - 1)).1
  {}

  /** `FeistelRoundTrip` on the two halves of the round's output. */
  lemma FeistelRoundTripParts(left: bv8, right: bv8, roundKey: bv8)
    ensures var pair := FeistelRound(left, right, roundKey);
      FeistelUnround((pair.0, pair.1), roundKey) == (left, right)
  {
    FeistelRoundTrip(left, right, roundKey);
  }

  lemma UnFeistelFeistel(s: seq<bv8>, roundKey: bv8)
    ensures UnFeistelLayer(FeistelLayer(s, roundKey), roundKey) == s
  {
    forall j | 0 <= j < |s|
      ensures UnFeistelLayer(FeistelLayer(s, roundKey), roundKey)[j] == s[j]
    {
      if j % 2 == 0 && j + 1 < |s| {
        UnFeistelFeistelLeft(s, roundKey, j);
      } else if j % 2 == 1 {
        UnFeistelFeistelRight(s, roundKey, j);
      }
    }
  }

  lemma KeyLayerTwice(s: seq<bv8>, keyBytes: seq<bv8>)
    requires |keyBytes| >= |s|
    ensures KeyLayer(KeyLayer(s, keyBytes), keyBytes) == s
  {}

  function UnRound(t: seq<bv8>, keyBytes: seq<bv8>, roundNum: nat): (r: seq<bv8>)
    requires |keyBytes| >= |t| && |t| % 5 != 0 && roundNum < NUM_ROUNDS
    ensures |r| == |t|
  {
    UnFeistelLayer(KeyLayer(Unpermute(t), keyBytes), RoundKey(keyBytes, roundNum))
  }

  /** Undoes rounds `k - 1` down to 0. */
  function UnRounds(t: seq<bv8>, keyBytes: seq<bv8>, k: nat): (r: seq<bv8>)
    requires |keyBytes| >= |t| && |t| % 5 != 0 && k <= NUM_ROUNDS
    ensures |r| == |t|
    decreases k
  {
    if k == 0 then t else UnRounds(UnRound(t, keyBytes, k - 1), keyBytes, k - 1)
  }

  lemma {:induction false} UnRoundsRounds(s: seq<bv8>, keyBytes: seq<bv8>, k: nat)
    requires |keyBytes| >= |s| && |s| % 5 != 0 && k <= NUM_ROUNDS
    ensures UnRounds(Rounds(s, keyBytes, k), keyBytes, k) == s
  {
    if k > 0 {
      var prev := Rounds(s, keyBytes, k - 1);
      var rk := RoundKey(keyBytes, k - 1);
      UnpermutePermute(KeyLayer(FeistelLayer(prev, rk), keyBytes));
      KeyLayerTwice(FeistelLayer(prev, rk), keyBytes);
      UnFeistelFeistel(prev, rk);
      assert UnRound(Rounds(s, keyBytes, k), keyBytes, k - 1) == prev;
      UnRoundsRounds(s, keyBytes, k - 1);
    }
  }

  /** Decryption for `SimpleBlockCipher`, which the source does not define: the
      rounds undone in reverse order under the same cycled key. */
  function Decrypt(key: seq<bv8>, ciphertext: seq<bv8>): (r: seq<bv8>)
    requires |key| > 0 && |ciphertext| % 5 != 0
    ensures |r| == |ciphertext|
  {
    UnRounds(ciphertext, Cycle(key, |ciphertext|), NUM_ROUNDS)
  }

  /** With a block size that is not a multiple of 5, encryption loses nothing:
      decrypting gives back the plaintext as cycled to the block size. */
  lemma DecryptEncrypt(key: seq<bv8>, plaintext: seq<bv8>, blockSize: nat)
    requires |key| > 0 && |plaintext| > 0 && blockSize % 5 != 0
    ensures Decrypt(key, EncryptSpec(key, plaintext, blockSize).value) == Cycle(plaintext, blockSize)
  {
    UnRoundsRounds(Cycle(plaintext, blockSize), Cycle(key, blockSize), NUM_ROUNDS);
  }

  // ---- DaviesMeyerHash ----------------------------------------------------

  const IV_PATTERN: seq<bv8> := [0x01, 0x23, 0x45, 0x67, 0x89, 0xAB, 0xCD, 0xEF]

  /** `_generate_iv` (and the comparison hasher's initial value): the eight-byte
      pattern repeated `blockSize / 8` times. The source cuts it at `blockSize`,
      which never removes anything, so a block size that is not a multiple of 8
      gets a shorter initial value. */
  function GenerateIv(blockSize: nat): (iv: seq<bv8>)
    ensures |iv| == blockSize / 8 * 8
  {
    Repeat(IV_PATTERN, blockSize / 8)
  }

  /** `_davies_meyer_compress(state, block)`: the block is the key and the state
      the plaintext; the ciphertext is XORed back onto the state, as far as the
      shorter of the two reaches. */
  function DaviesMeyerCompress(state: seq<bv8>, block: seq<bv8>, blockSize: nat): (r: Result<seq<bv8>>)
    ensures r.Err? <==> |state| == 0 || |block| == 0
    ensures r.Err? ==> r.error == ZeroDivisionError
    ensures r.Ok? ==> |r.value| == (if blockSize <= |state| then blockSize else |state|)
    ensures r.Ok? ==> forall i :: 0 <= i < |r.value| ==>
      r.value[i] == EncryptSpec(block, state, blockSize).value[i] ^ state[i]
  {
    var encrypted :- EncryptSpec(block, state, blockSize);
    Ok(ZipXor(encrypted, state))
  }

  /** The block loop of `hash` and `hash_bytes`. */
  function DaviesMeyerChain(state: seq<bv8>, blocks: seq<seq<bv8>>, blockSize: nat): Result<seq<bv8>>
    decreases |blocks|
  {
    if blocks == [] then Ok(state)
    else
      var next :- DaviesMeyerCompress(state, blocks[0], blockSize);
      DaviesMeyerChain(next, blocks[1..], blockSize)
  }

  /** Over non-empty blocks, from a non-empty state no longer than a block, every
      compression succeeds and keeps the state's length. */
  lemma {:induction false} DaviesMeyerChainOk(state: seq<bv8>, blocks: seq<seq<bv8>>, blockSize: nat)
    requires forall j :: 0 <= j < |blocks| ==> |blocks[j]| > 0
    requires 0 < |state| <= blockSize
    ensures DaviesMeyerChain(state, blocks, blockSize).Ok?
    ensures |DaviesMeyerChain(state, blocks, blockSize).value| == |state|
    decreases |blocks|
  {
    if blocks != [] {
      DaviesMeyerChainOk(DaviesMeyerCompress(state, blocks[0], blockSize).value, blocks[1..], blockSize);
    }
  }

  /** What `DaviesMeyerHash.hash_bytes` returns. */
  function HashBytesSpec(message: MerkleDamgard.Message, blockSize: nat): Result<seq<bv8>> {
    var padded :- MerkleDamgard.Padded(MerkleDamgard.MessageBytes(message), blockSize);
    DaviesMeyerChain(GenerateIv(blockSize), MerkleDamgard.Blocks(padded, blockSize), blockSize)
  }

  /** `hash_bytes` fails with ZeroDivisionError for a zero block size, with
      OverflowError for a message of 2^61 bytes or more, and with
      ZeroDivisionError for a block size of 1 to 7 (the initial value is then
      empty); otherwise it returns `blockSize / 8 * 8` bytes, which is the block
      size only when that is a multiple of 8. */
  lemma HashBytesOutcome(message: MerkleDamgard.Message, blockSize: nat)
    ensures var m, r := MerkleDamgard.MessageBytes(message), HashBytesSpec(message, blockSize);
      && (blockSize == 0 ==> r == Err(ZeroDivisionError))
      && (blockSize > 0 && |m| * 8 >= MerkleDamgard.LENGTH_BOUND ==> r == Err(OverflowError))
      && (0 < blockSize < 8 && |m| * 8 < MerkleDamgard.LENGTH_BOUND ==> r == Err(ZeroDivisionError))
      && (blockSize >= 8 && |m| * 8 < MerkleDamgard.LENGTH_BOUND ==> r.Ok? && |r.value| == blockSize / 8 * 8)
  {
    var m := MerkleDamgard.MessageBytes(message);
    if blockSize > 0 && |m| * 8 < MerkleDamgard.LENGTH_BOUND {
      MerkleDamgard.PaddedBlocks(m, blockSize);
      var blocks := MerkleDamgard.Blocks(MerkleDamgard.Padded(m, blockSize).value, blockSize);
      if blockSize < 8 {
        assert GenerateIv(blockSize) == [];
      } else {
        DaviesMeyerChainOk(GenerateIv(blockSize), blocks, blockSize);
      }
    }
  }

  /** `DaviesMeyerHash.hash_bytes`: pads, then walks the padded message block by block. */
  method HashBytes(message: MerkleDamgard.Message, blockSize: nat) returns (r: Result<seq<bv8>>)
    ensures r == HashBytesSpec(message, blockSize)
  {
    var m := MerkleDamgard.MessageBytes(message);
    var padded :- MerkleDamgard.PadMessage(m, blockSize);
    var split := MerkleDamgard.SplitIntoBlocks(padded, blockSize);
    var blocks := split.value;
    r := DaviesMeyerBlocks(GenerateIv(blockSize), blocks, blockSize);
  }

  /** The block loop of `hash_bytes`: each block in turn is the key that
      encrypts the state, and the first failure ends the loop. */
  method DaviesMeyerBlocks(iv: seq<bv8>, blocks: seq<seq<bv8>>, blockSize: nat) returns (r: Result<seq<bv8>>)
    ensures r == DaviesMeyerChain(iv, blocks, blockSize)
  {
    var state := iv;
    for k := 0 to |blocks|
      invariant DaviesMeyerChain(state, blocks[k..], blockSize) == DaviesMeyerChain(iv, blocks, blockSize)
    {
      assert blocks[k..][1..] == blocks[k + 1..];
      state :- DaviesMeyerCompressed(state, blocks[k], blockSize);
    }
    return Ok(state);
  }

  /** `_davies_meyer_compress`, calling the cipher method. */
  method DaviesMeyerCompressed(state: seq<bv8>, block: seq<bv8>, blockSize: nat) returns (r: Result<seq<bv8>>)
    ensures r == DaviesMeyerCompress(state, block, blockSize)
  {
    var encrypted :- Encrypt(block, state, blockSize);
    return Ok(ZipXor(encrypted, state));
  }

  /** `DaviesMeyerHash.hash`: the digest of `hash_bytes` as lowercase hexadecimal. */
  method Hash(message: MerkleDamgard.Message, blockSize: nat) returns (r: Result<string>)
    ensures HashBytesSpec(message, blockSize).Err? ==> r == Err(HashBytesSpec(message, blockSize).error)
    ensures HashBytesSpec(message, blockSize).Ok? ==> r == Ok(Hex(HashBytesSpec(message, blockSize).value))
  {
    var digest :- HashBytes(message, blockSize);
    return Ok(Hex(digest));
  }

  // ---- the comparison MerkleDamgardHash in the same file -------------------

  /** What the comparison `_compression_function` returns. It reads `state[i]`
      without reduction, so a state shorter than the block size raises
      IndexError (at the first missing byte); an empty block raises
      ZeroDivisionError at byte 0, after `state[0]` has been read. */
  function ComparisonCompressSpec(state: seq<bv8>, block: seq<bv8>, blockSize: nat): (r: Result<seq<bv8>>)
    ensures r.Ok? <==> blockSize == 0 || (|block| > 0 && |state| >= blockSize)
    ensures r.Ok? ==> r == MerkleDamgard.CompressSpec(state, block, blockSize)
    ensures r.Ok? ==> |r.value| == blockSize
  {
    if blockSize > 0 && |state| == 0 then Err(IndexError)
    else if blockSize > 0 && |block| == 0 then Err(ZeroDivisionError)
    else if |state| < blockSize then Err(IndexError)
    else MerkleDamgard.CompressSpec(state, block, blockSize)
  }

  /** The comparison `_compression_function`: a first loop reading `state[i]`
      directly, then the same in-place second round as merkle_damgard.py. */
  method ComparisonCompress(state: seq<bv8>, block: seq<bv8>, blockSize: nat) returns (r: Result<seq<bv8>>)
    ensures r == ComparisonCompressSpec(state, block, blockSize)
  {
    var result := new bv8[blockSize];
    for i := 0 to blockSize
      invariant i > 0 ==> |block| > 0 && |state| >= i
      invariant forall j :: 0 <= j < i ==> result[j] == MerkleDamgard.MixByte(state[j], block[j % |block|])
    {
      if i >= |state| {
        return Err(IndexError);
      }
      var stateByte := state[i];
      if |block| == 0 {
        return Err(ZeroDivisionError);
      }
      var blockByte := block[i % |block|];
      result[i] := MerkleDamgard.MixByte(stateByte, blockByte);
    }
    if blockSize > 0 {
      forall j | 0 <= j < blockSize
        ensures state[j % |state|] == state[j]
      {
        DivModUnique(j, |state|, 0, j);
      }
      assert result[..] == MerkleDamgard.FirstRound(state, block, blockSize);
    }
    MerkleDamgard.Diffuse(result);
    return Ok(result[..]);
  }

  function ComparisonChain(state: seq<bv8>, blocks: seq<seq<bv8>>, blockSize: nat): Result<seq<bv8>>
    decreases |blocks|
  {
    if blocks == [] then Ok(state)
    else
      var next :- ComparisonCompressSpec(state, blocks[0], blockSize);
      ComparisonChain(next, blocks[1..], blockSize)
  }

  /** What the comparison `hash` returns. */
  function ComparisonHashSpec(message: MerkleDamgard.Message, blockSize: nat): Result<string> {
    var padded :- MerkleDamgard.Padded(MerkleDamgard.MessageBytes(message), blockSize);
    var digest :- ComparisonChain(GenerateIv(blockSize), MerkleDamgard.Blocks(padded, blockSize), blockSize);
    Ok(Hex(digest))
  }

  /** The chain keeps a full-block state over non-empty blocks. */
  lemma {:induction false} ComparisonChainOk(state: seq<bv8>, blocks: seq<seq<bv8>>, blockSize: nat)
    requires forall j :: 0 <= j < |blocks| ==> |blocks[j]| > 0
    requires |state| == blockSize
    ensures ComparisonChain(state, blocks, blockSize).Ok?
    ensures |ComparisonChain(state, blocks, blockSize).value| == blockSize
    decreases |blocks|
  {
    if blocks != [] {
      ComparisonChainOk(ComparisonCompressSpec(state, blocks[0], blockSize).value, blocks[1..], blockSize);
    }
  }

  /** The comparison hash fails like the others on a zero block size or an
      oversized message, raises IndexError whenever the block size is not a
      multiple of 8 (the initial value is then shorter than a block), and
      otherwise returns `2 * blockSize` hexadecimal digits. */
  lemma ComparisonHashOutcome(message: MerkleDamgard.Message, blockSize: nat)
    ensures var m, r := MerkleDamgard.MessageBytes(message), ComparisonHashSpec(message, blockSize);
      && (blockSize == 0 ==> r == Err(ZeroDivisionError))
      && (blockSize > 0 && |m| * 8 >= MerkleDamgard.LENGTH_BOUND ==> r == Err(OverflowError))
      && (blockSize % 8 != 0 && |m| * 8 < MerkleDamgard.LENGTH_BOUND ==> r == Err(IndexError))
      && (blockSize > 0 && blockSize % 8 == 0 && |m| * 8 < MerkleDamgard.LENGTH_BOUND ==>
            r.Ok? && |r.value| == 2 * blockSize)
  {
    var m := MerkleDamgard.MessageBytes(message);
    if blockSize > 0 && |m| * 8 < MerkleDamgard.LENGTH_BOUND {
      MerkleDamgard.PaddedBlocks(m, blockSize);
      var blocks := MerkleDamgard.Blocks(MerkleDamgard.Padded(m, blockSize).value, blockSize);
      var iv := GenerateIv(blockSize);
      if blockSize % 8 != 0 {
        assert blockSize == blockSize / 8 * 8 + blockSize % 8;
        assert |iv| < blockSize;
      } else {
        assert blockSize == blockSize / 8 * 8 + blockSize % 8;
        ComparisonChainOk(iv, blocks, blockSize);
      }
    }
  }

  /** The comparison `MerkleDamgardHash.hash`. */
  method ComparisonHash(message: MerkleDamgard.Message, blockSize: nat) returns (r: Result<string>)
    ensures r == ComparisonHashSpec(message, blockSize)
  {
    var m := MerkleDamgard.MessageBytes(message);
    var padded :- MerkleDamgard.PadMessage(m, blockSize);
    var split := MerkleDamgard.SplitIntoBlocks(padded, blockSize);
    var blocks := split.value;
    var digest :- ComparisonBlocks(GenerateIv(blockSize), blocks, blockSize);
    return Ok(Hex(digest));
  }

  /** The block loop of the comparison `hash`. */
  method ComparisonBlocks(iv: seq<bv8>, blocks: seq<seq<bv8>>, blockSize: nat) returns (r: Result<seq<bv8>>)
    ensures r == ComparisonChain(iv, blocks, blockSize)
  {
    var state := iv;
    for k := 0 to |blocks|
      invariant ComparisonChain(state, blocks[k..], blockSize) == ComparisonChain(iv, blocks, blockSize)
    {
      assert blocks[k..][1..] == blocks[k + 1..];
      var next := ComparisonCompress(state, blocks[k], blockSize);
      if next.Err? {
        return Err(next.error);
      }
      state := next.value;
    }
    return Ok(state);
  }
}
