/** The salted toy cipher of crypto_algs/notDES.py: bit reversal of every
    byte, a key stretched until it does not divide the message length, and
    one round per message byte of "XOR with the rotated key, then mirror
    swap". */
module NotDes {
  import opened Arith
  import opened Outcomes
  import opened ByteCodec
  import RotateString

  // ---- shuffle_bits_in_byte -----------------------------------------------------

  /** The permutation used when none is given: bit `i` goes to bit `7 - i`. */
  const DEFAULT_PERMUTATION: seq<int> := [7, 6, 5, 4, 3, 2, 1, 0]

  /** A permutation argument the model accepts: eight target positions inside
      a byte. */
  predicate ValidPermutation(permutation: seq<int>) {
    |permutation| >= 8 && forall i :: 0 <= i < 8 ==> 0 <= permutation[i] < 8
  }

  /** The byte after the first `i` iterations of the loop: bit `j` of the input
      OR-ed into bit `permutation[j]`, for every `j < i`. */
  function ShuffledPrefix(byteVal: bv8, permutation: seq<int>, i: nat): bv8
    requires ValidPermutation(permutation) && i <= 8
  {
    if i == 0 then 0
    else ShuffledPrefix(byteVal, permutation, i - 1) | (((byteVal >> (i - 1)) & 1) << permutation[i - 1])
  }

  /** The bits of a byte in the opposite order, mask by mask. */
  function ReversedByte(b: bv8): bv8 {
    ((b & 0x01) << 7) | ((b & 0x02) << 5) | ((b & 0x04) << 3) | ((b & 0x08) << 1)
      | ((b & 0x10) >> 1) | ((b & 0x20) >> 3) | ((b & 0x40) >> 5) | ((b & 0x80) >> 7)
  }

  /** Bit `j` of the reversed byte is bit `7 - j` of the original. */
  lemma ReversedByteBits(b: bv8)
    ensures (ReversedByte(b) & 0x01 == 0) == (b & 0x80 == 0)
    ensures (ReversedByte(b) & 0x02 == 0) == (b & 0x40 == 0)
    ensures (ReversedByte(b) & 0x04 == 0) == (b & 0x20 == 0)
    ensures (ReversedByte(b) & 0x08 == 0) == (b & 0x10 == 0)
    ensures (ReversedByte(b) & 0x10 == 0) == (b & 0x08 == 0)
    ensures (ReversedByte(b) & 0x20 == 0) == (b & 0x04 == 0)
    ensures (ReversedByte(b) & 0x40 == 0) == (b & 0x02 == 0)
    ensures (ReversedByte(b) & 0x80 == 0) == (b & 0x01 == 0)
  {}

  /** Reversing twice gives back the byte. */
  lemma ReversedByteInvolution(b: bv8)
    ensures ReversedByte(ReversedByte(b)) == b
  {}

  /** Reversal commutes with XOR. */
  lemma ReversedByteXor(a: bv8, b: bv8)
    ensures ReversedByte(a ^ b) == ReversedByte(a) ^ ReversedByte(b)
  {}

  /** With the default permutation the loop reverses the bits of the byte. */
  lemma ShuffledDefault(b: bv8)
    ensures ShuffledPrefix(b, DEFAULT_PERMUTATION, 8) == ReversedByte(b)
  {
    var p := DEFAULT_PERMUTATION;
    assert ValidPermutation(p);
    ShuffledDefaultStep(b, 1, 7);
    ShuffledDefaultStep(b, 2, 6);
    ShuffledDefaultStep(b, 3, 5);
    ShuffledDefaultStep(b, 4, 4);
    ShuffledDefaultStep(b, 5, 3);
    ShuffledDefaultStep(b, 6, 2);
    ShuffledDefaultStep(b, 7, 1);
    ShuffledDefaultStep(b, 8, 0);
    ReversedByteByBits(b);
  }

  /** Iteration `i - 1` of the loop under the default permutation moves bit
      `i - 1` to bit `8 - i`. */
  lemma ShuffledDefaultStep(b: bv8, i: nat, target: nat)
    requires 1 <= i <= 8 && target == 8 - i
    ensures ValidPermutation(DEFAULT_PERMUTATION)
    ensures ShuffledPrefix(b, DEFAULT_PERMUTATION, i)
      == ShuffledPrefix(b, DEFAULT_PERMUTATION, i - 1) | (((b >> (i - 1)) & 1) << target)
  {
    assert ValidPermutation(DEFAULT_PERMUTATION);
    assert DEFAULT_PERMUTATION[i - 1] == target;
  }

  /** The reversed byte as the OR of each input bit moved to its mirror place. */
  lemma ReversedByteByBits(b: bv8)
    ensures ReversedByte(b) == ((b & 1) << 7) | (((b >> 1) & 1) << 6) | (((b >> 2) & 1) << 5)
      | (((b >> 3) & 1) << 4) | (((b >> 4) & 1) << 3) | (((b >> 5) & 1) << 2)
      | (((b >> 6) & 1) << 1) | ((b >> 7) & 1)
  {}


  /** `shuffle_bits_in_byte(byte_val, permutation)`: `None` selects the default
      permutation. */
  method ShuffleBitsInByte(byteVal: bv8, permutation: Option<seq<int>>) returns (shuffled: bv8)
    requires permutation.Some? ==> ValidPermutation(permutation.value)
    ensures shuffled == ShuffledPrefix(byteVal, if permutation.None? then DEFAULT_PERMUTATION else permutation.value, 8)
    ensures permutation.None? ==> shuffled == ReversedByte(byteVal)
  {
    var table := if permutation.None? then DEFAULT_PERMUTATION else permutation.value;
    shuffled := 0;
    for i := 0 to 8
      invariant shuffled == ShuffledPrefix(byteVal, table, i)
    {
      var originalBit := (byteVal >> i) & 1;
      shuffled := shuffled | (originalBit << table[i]);
    }
    if permutation.None? {
      ShuffledDefault(byteVal);
    }
  }

  /** Every byte bit-reversed, as both list comprehensions of `des_like` do. */
  function ReversedBytes(s: seq<bv8>): (r: seq<bv8>)
    ensures |r| == |s|
    ensures forall i :: 0 <= i < |s| ==> r[i] == ReversedByte(s[i])
  {
    seq(|s|, i requires 0 <= i < |s| => ReversedByte(s[i]))
  }

  lemma ReversedBytesInvolution(s: seq<bv8>)
    ensures ReversedBytes(ReversedBytes(s)) == s
  {
    forall i | 0 <= i < |s|
      ensures ReversedBytes(ReversedBytes(s))[i] == s[i]
    {
      ReversedByteInvolution(s[i]);
    }
  }

  /** The comprehension over the message, one call per byte. */
  method ShuffleEachByte(message: seq<bv8>) returns (r: seq<bv8>)
    ensures r == ReversedBytes(message)
  {
    r := [];
    for i := 0 to |message|
      invariant r == ReversedBytes(message[..i])
    {
      var b := ShuffleBitsInByte(message[i], None);
      r := r + [b];
    }
    assert message[..|message|] == message;
  }

  // ---- the key of des_like ------------------------------------------------------

  /** `b'$3c'`, appended to every key. */
  const KEY_SUFFIX: seq<bv8> := [0x24, 0x33, 0x63]

  /** `b'$'`, appended while the key length divides the message length. */
  const DOLLAR: bv8 := 0x24

  /** How many `$` the loop appends to a key of length `keyLen`. */
  function PadCount(msgLen: nat, keyLen: nat): nat
    requires msgLen > 0 && keyLen > 0
    decreases msgLen + 1 - keyLen
  {
    if msgLen % keyLen != 0 then 0
    else
      assert keyLen <= msgLen by {
        if keyLen > msgLen { DivModUnique(msgLen, keyLen, 0, msgLen); }
      }
      1 + PadCount(msgLen, keyLen + 1)
  }

  /** The key after the `$` loop. */
  function ExtendedKey(key: seq<bv8>, msgLen: nat): (k: seq<bv8>)
    requires msgLen > 0
  {
    key + KEY_SUFFIX + Repeat([DOLLAR], PadCount(msgLen, |key| + 3))
  }

  /** The key length counted by the loop stops at the first length that does
      not divide the message length. */
  lemma {:induction false} PadCountStops(msgLen: nat, keyLen: nat)
    requires msgLen > 0 && keyLen > 0
    ensures msgLen % (keyLen + PadCount(msgLen, keyLen)) != 0
    ensures forall j :: keyLen <= j < keyLen + PadCount(msgLen, keyLen) ==> msgLen % j == 0
    decreases msgLen + 1 - keyLen
  {
    if msgLen % keyLen == 0 {
      assert keyLen <= msgLen by {
        if keyLen > msgLen { DivModUnique(msgLen, keyLen, 0, msgLen); }
      }
      PadCountStops(msgLen, keyLen + 1);
    }
  }

  /** The extended key is the key, then `$3c`, then only `$`; its length is the
      first one from `|key| + 3` on that does not divide the message length. */
  lemma ExtendedKeyShape(key: seq<bv8>, msgLen: nat)
    requires msgLen > 0
    ensures var k := ExtendedKey(key, msgLen);
      && k[..|key| + 3] == key + KEY_SUFFIX
      && (forall i :: |key| + 3 <= i < |k| ==> k[i] == DOLLAR)
      && msgLen % |k| != 0
      && (forall j :: |key| + 3 <= j < |k| ==> msgLen % j == 0)
  {
    var k := ExtendedKey(key, msgLen);
    var n := PadCount(msgLen, |key| + 3);
    PadCountStops(msgLen, |key| + 3);
    forall i | |key| + 3 <= i < |k|
      ensures k[i] == DOLLAR
    {
      RepeatAt([DOLLAR], n, i - |key| - 3);
    }
  }

  // ---- the rounds of des_like -----------------------------------------------------

  /** `zip(message, cycle(k))` when the message is the longer one and
      `zip(cycle(message), k)` otherwise, each pair XORed: as long as the
      longer of the two, with the shorter one repeated. */
  function CycledXor(message: seq<bv8>, k: seq<bv8>): (r: seq<bv8>)
    requires |message| > 0 && |k| > 0
    ensures |r| == if |message| > |k| then |message| else |k|
  {
    if |message| > |k| then seq(|message|, i requires 0 <= i < |message| => message[i] ^ k[i % |k|])
    else seq(|k|, i requires 0 <= i < |k| => message[i % |message|] ^ k[i])
  }

  /** Round `n`: the message XOR the key rotated left by `n`, the shorter of the
      two cycled, then mirror-swapped. */
  function KeyedRound(message: seq<bv8>, key: seq<bv8>, n: nat): (r: seq<bv8>)
    requires |message| > 0 && |key| > 0
    ensures |r| == if |message| > |key| then |message| else |key|
  {
    RotateString.MirrorSwapped(CycledXor(message, RotateString.RotateLeft(key, n).value))
  }

  /** The first `n` rounds. */
  function Rounds(message: seq<bv8>, key: seq<bv8>, n: nat): (r: seq<bv8>)
    requires |message| > 0 && |key| > 0
    ensures |r| > 0
    ensures |message| > |key| ==> |r| == |message|
  {
    if n == 0 then message else KeyedRound(Rounds(message, key, n - 1), key, n - 1)
  }

  /** What `des_like(message, key)` returns for a non-empty message. */
  function DesLikeSpec(message: seq<bv8>, key: seq<bv8>): (r: seq<bv8>)
    requires |message| > 0
  {
    var k := ExtendedKey(key, |message|);
    ReversedBytes(Rounds(ReversedBytes(message), k, |message|))
  }

  /** The `$` loop of `des_like`: `key += b'$'` while the key length divides
      the message length. */
  method PadKey(key: seq<bv8>, msgLen: nat) returns (k: seq<bv8>)
    requires msgLen > 0
    ensures k == ExtendedKey(key, msgLen)
  {
    k := key + KEY_SUFFIX;
    while msgLen % |k| == 0
      invariant |key| + 3 <= |k| && k == key + KEY_SUFFIX + Repeat([DOLLAR], |k| - |key| - 3)
      invariant PadCount(msgLen, |k|) + |k| == PadCount(msgLen, |key| + 3) + |key| + 3
      decreases msgLen + 1 - |k|
    {
      assert |k| <= msgLen by {
        if |k| > msgLen { DivModUnique(msgLen, |k|, 0, msgLen); }
      }
      RepeatSnoc([DOLLAR], |k| - |key| - 3);
      k := k + [DOLLAR];
    }
  }

  /** The round loop of `des_like`: for `n` in `range(rounds)`, XOR with the
      key rotated left by `n`, the shorter of the two cycled, then mirror swap. */
  method KeyedRounds(message: seq<bv8>, key: seq<bv8>, rounds: nat) returns (msg: seq<bv8>)
    requires |message| > 0 && |key| > 0
    ensures msg == Rounds(message, key, rounds)
  {
    msg := message;
    for n := 0 to rounds
      invariant msg == Rounds(message, key, n)
    {
      var k := RotateString.RotateLeft(key, n).value;
      var mixed := CycledXor(msg, k);
      msg := RotateString.MirrorSwap(mixed);
    }
  }

  /** `des_like(message, key)`. An empty message is excluded: the key loop would
      then run forever, since `0 % len(key) == 0` for every key. */
  method DesLike(message: seq<bv8>, key: seq<bv8>) returns (result: seq<bv8>)
    requires |message| > 0
    ensures result == DesLikeSpec(message, key)
  {
    var k := PadKey(key, |message|);
    var msg := ShuffleEachByte(message);
    msg := KeyedRounds(msg, k, |message|);
    result := ShuffleEachByte(msg);
  }

  // ---- why decrypt works ----------------------------------------------------------

  /** Mirror swapping moves bytes without looking at them, so it commutes with XOR. */
  lemma MirrorSwapXor(a: seq<bv8>, b: seq<bv8>)
    requires |a| == |b|
    ensures RotateString.MirrorSwapped(ZipXor(a, b))
      == ZipXor(RotateString.MirrorSwapped(a), RotateString.MirrorSwapped(b))
  {
    var x := ZipXor(a, b);
    var n, h := |a|, |a| / 2;
    var l, r := RotateString.MirrorSwapped(x), ZipXor(RotateString.MirrorSwapped(a), RotateString.MirrorSwapped(b));
    forall i | 0 <= i < n
      ensures l[i] == r[i]
    {
      if i < h {
        assert l[i] == x[h - 1 - i];
      } else if i < n - h {
        assert l[i] == x[2 * h];
      } else {
        assert l[i] == x[n + h - 1 - i];
      }
    }
  }

  /** A message longer than the key: two messages that go through the same
      round differ afterwards by their mirror-swapped difference. */
  lemma KeyedRoundDifference(a: seq<bv8>, b: seq<bv8>, key: seq<bv8>, n: nat)
    requires |a| == |b| > |key| > 0
    ensures ZipXor(KeyedRound(a, key, n), KeyedRound(b, key, n)) == RotateString.MirrorSwapped(ZipXor(a, b))
  {
    var k := RotateString.RotateLeft(key, n).value;
    var ma, mb := CycledXor(a, k), CycledXor(b, k);
    forall i | 0 <= i < |a|
      ensures ZipXor(ma, mb)[i] == ZipXor(a, b)[i]
    {}
    MirrorSwapXor(ma, mb);
  }

  /** Mirror swapping applied `n` times. */
  function MirrorSwappedTimes(s: seq<bv8>, n: nat): (r: seq<bv8>)
    ensures |r| == |s|
  {
    if n == 0 then s else RotateString.MirrorSwapped(MirrorSwappedTimes(s, n - 1))
  }

  /** An even number of mirror swaps cancels out. */
  lemma {:induction false} MirrorSwappedEvenTimes(s: seq<bv8>, n: nat)
    requires n % 2 == 0
    ensures MirrorSwappedTimes(s, n) == s
  {
    if n > 0 {
      MirrorSwappedEvenTimes(s, n - 2);
      RotateString.MirrorSwapInvolution(s);
    }
  }

  /** After `n` rounds two messages differ by their difference mirror-swapped
      `n` times: the key drops out. */
  lemma RoundsDifference(a: seq<bv8>, b: seq<bv8>, key: seq<bv8>, n: nat)
    requires |a| == |b| > |key| > 0
    ensures ZipXor(Rounds(a, key, n), Rounds(b, key, n)) == MirrorSwappedTimes(ZipXor(a, b), n)
  {
    var k := 0;
    while k < n
      invariant k <= n
      invariant ZipXor(Rounds(a, key, k), Rounds(b, key, k)) == MirrorSwappedTimes(ZipXor(a, b), k)
    {
      var ra, rb, d := Rounds(a, key, k), Rounds(b, key, k), MirrorSwappedTimes(ZipXor(a, b), k);
      KeyedRoundDifference(ra, rb, key, k);
      RoundsNext(a, key, k);
      RoundsNext(b, key, k);
      MirrorSwappedTimesNext(ZipXor(a, b), k);
      k := k + 1;
    }
  }

  lemma RoundsNext(m: seq<bv8>, key: seq<bv8>, n: nat)
    requires |m| > 0 && |key| > 0
    ensures Rounds(m, key, n + 1) == KeyedRound(Rounds(m, key, n), key, n)
  {}

  lemma MirrorSwappedTimesNext(s: seq<bv8>, n: nat)
    ensures MirrorSwappedTimes(s, n + 1) == RotateString.MirrorSwapped(MirrorSwappedTimes(s, n))
  {}

  /** If `p XOR q == q XOR u`, byte for byte, then `p == u`. */
  lemma XorCancel(p: seq<bv8>, q: seq<bv8>, u: seq<bv8>)
    requires |p| == |q| == |u| && ZipXor(p, q) == ZipXor(q, u)
    ensures p == u
  {
    forall i | 0 <= i < |p|
      ensures p[i] == u[i]
    {
      assert ZipXor(p, q)[i] == ZipXor(q, u)[i];
    }
  }

  /** For an even length longer than the key, the rounds undo themselves: the
      even number of mirror swaps cancels and the key stream is XORed twice. */
  lemma RoundsInvolution(u: seq<bv8>, key: seq<bv8>)
    requires |u| % 2 == 0 && |u| > |key| > 0
    ensures Rounds(Rounds(u, key, |u|), key, |u|) == u
  {
    var once := Rounds(u, key, |u|);
    RoundsDifference(once, u, key, |u|);
    MirrorSwappedEvenTimes(ZipXor(once, u), |u|);
    XorCancel(Rounds(once, key, |u|), once, u);
  }

  /** `des_like` keeps the length of a message longer than its extended key;
      a shorter one comes out as long as the extended key. */
  lemma DesLikeLength(message: seq<bv8>, key: seq<bv8>)
    requires |message| > 0
    ensures var k := ExtendedKey(key, |message|);
      |DesLikeSpec(message, key)| == if |message| > |k| then |message| else |k|
  {
    var k := ExtendedKey(key, |message|);
    ExtendedKeyShape(key, |message|);
    if |message| <= |k| {
      if |message| == |k| {
        DivModUnique(|message|, |k|, 1, 0);
      }
      KeyedRoundLengthFirst(ReversedBytes(message), k, |message|);
    }
  }

  /** A message shorter than the key is stretched to the key length by the
      first round and keeps that length. */
  lemma {:induction false} KeyedRoundLengthFirst(message: seq<bv8>, key: seq<bv8>, n: nat)
    requires 0 < |message| < |key|
    ensures n > 0 ==> |Rounds(message, key, n)| == |key|
  {
    if n > 1 {
      KeyedRoundLengthFirst(message, key, n - 1);
    }
  }

  /** `des_like` is its own inverse on even-length messages longer than the
      extended key; `decrypt` rests on this. */
  lemma DesLikeInvolution(message: seq<bv8>, key: seq<bv8>)
    requires |message| > 0 && |message| % 2 == 0 && |message| > |ExtendedKey(key, |message|)|
    ensures DesLikeSpec(DesLikeSpec(message, key), key) == message
  {
    var k := ExtendedKey(key, |message|);
    var u := ReversedBytes(message);
    var once := DesLikeSpec(message, key);
    assert |once| == |message|;
    ReversedBytesInvolution(Rounds(u, k, |u|));
    RoundsInvolution(u, k);
    ReversedBytesInvolution(message);
  }

  // ---- encrypt and decrypt ------------------------------------------------------------

  /** The salted input of `encrypt`: the message XOR the salt, then the salt. */
  function Salted(message: seq<bv8>, salt: seq<bv8>): (r: seq<bv8>)
    requires |salt| == |message|
    ensures |r| == 2 * |message|
  {
    ZipXor(message, salt) + salt
  }

  /** The halving XOR of `decrypt`, on whatever `des_like` gave back. */
  function Unsalted(plaintext: seq<bv8>): (r: seq<bv8>)
    ensures |r| == |plaintext| / 2
  {
    var halfN := |plaintext| / 2;
    ZipXor(plaintext[0..halfN], plaintext[halfN..])
  }

  /** The halving XOR removes the salt. */
  lemma UnsaltedSalted(message: seq<bv8>, salt: seq<bv8>)
    requires |salt| == |message|
    ensures Unsalted(Salted(message, salt)) == message
  {
    var s := Salted(message, salt);
    assert s[0..|message|] == ZipXor(message, salt) && s[|message|..] == salt;
    ZipXorTwice(message, salt);
  }

  /** `encrypt(message, key)`, with the bytes `random.randbytes` would return
      passed in as `salt`. */
  method Encrypt(message: seq<bv8>, key: seq<bv8>, salt: seq<bv8>) returns (ciphertext: seq<bv8>)
    requires |message| > 0 && |salt| == |message|
    ensures ciphertext == DesLikeSpec(Salted(message, salt), key)
  {
    var salted := ZipXor(message, salt) + salt;
    ciphertext := DesLike(salted, key);
  }

  /** `decrypt(ciphertext, key)`. */
  method Decrypt(ciphertext: seq<bv8>, key: seq<bv8>) returns (plaintext: seq<bv8>)
    requires |ciphertext| > 0
    ensures plaintext == Unsalted(DesLikeSpec(ciphertext, key))
  {
    var restored := DesLike(ciphertext, key);
    var halfN := |restored| / 2;
    plaintext := ZipXor(restored[0..halfN], restored[halfN..]);
  }

  /** Decrypting an encryption gives the message back whenever the salted
      message (twice the message length) is longer than its extended key. */
  lemma DecryptEncrypt(message: seq<bv8>, key: seq<bv8>, salt: seq<bv8>)
    requires |message| > 0 && |salt| == |message|
    requires 2 * |message| > |ExtendedKey(key, 2 * |message|)|
    ensures Unsalted(DesLikeSpec(DesLikeSpec(Salted(message, salt), key), key)) == message
  {
    var s := Salted(message, salt);
    var n := |s|;
    assert n == 2 * |message|;
    DivModUnique(n, 2, |message|, 0);
    assert n > |ExtendedKey(key, n)|;
    DesLikeInvolution(s, key);
    UnsaltedSalted(message, salt);
  }
}
