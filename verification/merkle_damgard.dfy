/** The Merkle–Damgård hash of crypto_algs/merkle_damgard.py: strengthening
    padding, block splitting, a byte-mixing compression function that updates
    its buffer in place, and the chaining of compressions from a fixed initial
    value. The block and output sizes are the two parameters the hasher is
    built with. */
module MerkleDamgard {
  import opened Arith
  import opened Outcomes
  import opened ByteCodec

  /** What `hash` accepts: a `str`, hashed as its UTF-8 encoding, or `bytes`. */
  datatype Message = Text(text: string) | Bytes(bytes: seq<bv8>)

  function MessageBytes(m: Message): seq<bv8> {
    match m
    case Text(s) => Utf8(s)
    case Bytes(b) => b
  }

  // ---- initial value ------------------------------------------------------

  const IV_PATTERN: seq<bv8> := [0x67, 0x45, 0x23, 0x01]

  /** `_generate_iv`: the four-byte pattern repeated `outputSize / 4` times.
      The source then cuts the result at `outputSize`, which never removes
      anything, so an output size that is not a multiple of 4 gets a shorter
      initial value. */
  function GenerateIv(outputSize: nat): (iv: seq<bv8>)
    ensures |iv| == outputSize / 4 * 4
  {
    Repeat(IV_PATTERN, outputSize / 4)
  }

  /** The initial value cycles through the pattern, and is never longer than the output. */
  lemma GenerateIvAt(outputSize: nat)
    ensures |GenerateIv(outputSize)| <= outputSize
    ensures forall i :: 0 <= i < |GenerateIv(outputSize)| ==> GenerateIv(outputSize)[i] == IV_PATTERN[i % 4]
  {
    forall i | 0 <= i < |GenerateIv(outputSize)|
      ensures GenerateIv(outputSize)[i] == IV_PATTERN[i % 4]
    {
      RepeatAt(IV_PATTERN, outputSize / 4, i);
    }
  }

  // ---- strengthening padding ----------------------------------------------

  /** Messages whose bit length reaches this bound make `to_bytes(8, 'big')` overflow. */
  const LENGTH_BOUND: int := Pow(256, 8)

  function Zeros(n: nat): (z: seq<bv8>)
    ensures |z| == n && forall i :: 0 <= i < n ==> z[i] == 0
  {
    seq(n, _ => 0)
  }

  /** The zero bytes `_pad_message` inserts after the 0x80 marker. */
  function ZeroCount(msgLen: nat, blockSize: nat): nat
    requires blockSize > 0
  {
    (blockSize - (msgLen + 1 + 8) % blockSize) % blockSize
  }

  /** What `_pad_message` returns: the message, the marker byte 0x80, zero bytes,
      and the message length in bits as 8 big-endian bytes. A zero block size
      raises ZeroDivisionError (at the modulo), a bit length of 2^64 or more
      raises OverflowError (at `to_bytes`). */
  function Padded(message: seq<bv8>, blockSize: nat): (r: Result<seq<bv8>>)
    ensures blockSize == 0 ==> r == Err(ZeroDivisionError)
    ensures blockSize > 0 && |message| * 8 >= LENGTH_BOUND ==> r == Err(OverflowError)
    ensures r.Ok? <==> blockSize > 0 && |message| * 8 < LENGTH_BOUND
  {
    if blockSize == 0 then Err(ZeroDivisionError)
    else
      var lengthField :- ToBigEndian(|message| * 8, 8);
      Ok(message + [0x80] + Zeros(ZeroCount(|message|, blockSize)) + lengthField)
  }

  /** Merkle–Damgård strengthening, stated without reference to how it is built:
      a whole number of blocks, at least 9 and at most `blockSize + 8` bytes
      added, the message first, then 0x80, then zeros, then the 64-bit bit length. */
  ghost predicate IsStrengthenedPadding(m: seq<bv8>, p: seq<bv8>, blockSize: nat) {
    && blockSize > 0
    && |p| % blockSize == 0
    && |m| + 9 <= |p| <= |m| + blockSize + 8
    && p[..|m|] == m
    && p[|m|] == 0x80
    && (forall i :: |m| < i < |p| - 8 ==> p[i] == 0)
    && FromBigEndian(p[|p| - 8..]) == |m| * 8
  }

  /** The zero count brings the padded length to a multiple of the block size. */
  lemma ZeroCountFits(msgLen: nat, blockSize: nat)
    requires blockSize > 0
    ensures ZeroCount(msgLen, blockSize) < blockSize
    ensures (msgLen + 9 + ZeroCount(msgLen, blockSize)) % blockSize == 0
  {
    var x := msgLen + 9;
    var q, r := x / blockSize, x % blockSize;
    if r == 0 {
      DivModUnique(blockSize, blockSize, 1, 0);
    } else {
      DivModUnique(blockSize - r, blockSize, 0, blockSize - r);
      DivModUnique(x + blockSize - r, blockSize, q + 1, 0);
    }
  }

  /** Whenever the length fits, `Padded` is the strengthening padding of the message. */
  lemma PaddedIsStrengthened(m: seq<bv8>, blockSize: nat)
    requires blockSize > 0 && |m| * 8 < LENGTH_BOUND
    ensures Padded(m, blockSize).Ok?
    ensures IsStrengthenedPadding(m, Padded(m, blockSize).value, blockSize)
  {
    var p := Padded(m, blockSize).value;
    var z := ZeroCount(|m|, blockSize);
    var lengthField := ToBigEndian(|m| * 8, 8).value;
    ZeroCountFits(|m|, blockSize);
    assert p == m + [0x80] + Zeros(z) + lengthField;
    PaddingLayout(m, z, lengthField);
  }

  /** Where the parts of `m + [0x80] + zeros + lengthField` sit. */
  lemma PaddingLayout(m: seq<bv8>, z: nat, lengthField: seq<bv8>)
    requires |lengthField| == 8
    ensures var p := m + [0x80] + Zeros(z) + lengthField;
      && |p| == |m| + 9 + z
      && p[..|m|] == m
      && p[|m|] == 0x80
      && (forall i :: |m| < i < |p| - 8 ==> p[i] == 0)
      && p[|p| - 8..] == lengthField
  {
    var p := m + [0x80] + Zeros(z) + lengthField;
    assert p[..|m|] == m;
    assert forall i :: |m| < i < |p| - 8 ==> p[i] == Zeros(z)[i - |m| - 1];
    assert p[|p| - 8..] == lengthField;
  }

  /** The padding is determined by the message and the block size. */
  lemma PaddingUnique(m: seq<bv8>, p: seq<bv8>, q: seq<bv8>, blockSize: nat)
    requires IsStrengthenedPadding(m, p, blockSize) && IsStrengthenedPadding(m, q, blockSize)
    ensures p == q
  {
    OneMultipleInWindow(|m| + 9, |p|, |q|, blockSize);
    var n := |p|;
    FromBigEndianInjective(p[n - 8..], q[n - 8..]);
    forall i | 0 <= i < n
      ensures p[i] == q[i]
    {
      if i < |m| {
        assert p[i] == p[..|m|][i] && q[i] == q[..|m|][i];
      } else if i >= n - 8 {
        assert p[i] == p[n - 8..][i - (n - 8)] && q[i] == q[n - 8..][i - (n - 8)];
      }
    }
  }

  /** A window of `k` consecutive integers holds at most one multiple of `k`. */
  lemma OneMultipleInWindow(lo: int, a: int, b: int, k: int)
    requires k > 0 && lo <= a < lo + k && lo <= b < lo + k
    requires a % k == 0 && b % k == 0
    ensures a == b
  {
    var qa, qb := a / k, b / k;
    assert a == k * qa && b == k * qb;
    assert k * (qa - qb) == k * qa - k * qb;
    MulBetween(k, qa - qb);
  }

  /** `_pad_message`: appends the marker, the zero bytes and the length field to a
      `bytearray` copy of the message. */
  method PadMessage(message: seq<bv8>, blockSize: nat) returns (r: Result<seq<bv8>>)
    ensures r == Padded(message, blockSize)
  {
    var msgLen := |message|;
    var buffer := message;
    buffer := buffer + [0x80];
    if blockSize == 0 {
      return Err(ZeroDivisionError);
    }
    var currentLen := |buffer|;
    var paddingNeeded := (blockSize - (currentLen + 8) % blockSize) % blockSize;
    buffer := buffer + Zeros(paddingNeeded);
    var lengthField := ToBigEndian(msgLen * 8, 8);
    if lengthField.Err? {
      return Err(OverflowError);
    }
    buffer := buffer + lengthField.value;
    return Ok(buffer);
  }

  // ---- block splitting ----------------------------------------------------

  /** The slices `data[i:i + blockSize]` for `i = 0, blockSize, 2*blockSize, ...`
      below `|data|`. */
  function Blocks(data: seq<bv8>, blockSize: nat): (r: seq<seq<bv8>>)
    requires blockSize > 0
    decreases |data|
  {
    if |data| == 0 then []
    else if |data| <= blockSize then [data]
    else [data[..blockSize]] + Blocks(data[blockSize..], blockSize)
  }

  function Concat(blocks: seq<seq<bv8>>): seq<bv8>
    decreases |blocks|
  {
    if blocks == [] then [] else blocks[0] + Concat(blocks[1..])
  }

  /** The blocks put back together are the data; none is empty, none is longer
      than a block, only the last may be short, and there are `ceil(|data| / blockSize)`. */
  lemma {:induction false} BlocksPartition(data: seq<bv8>, blockSize: nat)
    requires blockSize > 0
    ensures Concat(Blocks(data, blockSize)) == data
    ensures |Blocks(data, blockSize)| == (|data| + blockSize - 1) / blockSize
    ensures forall j :: 0 <= j < |Blocks(data, blockSize)| ==> 0 < |Blocks(data, blockSize)[j]| <= blockSize
    ensures forall j :: 0 <= j < |Blocks(data, blockSize)| - 1 ==> |Blocks(data, blockSize)[j]| == blockSize
    decreases |data|
  {
    var b := Blocks(data, blockSize);
    if |data| == 0 {
      DivModUnique(blockSize - 1, blockSize, 0, blockSize - 1);
    } else if |data| <= blockSize {
      assert Concat(b) == data + Concat([]);
      DivModUnique(|data| + blockSize - 1, blockSize, 1, |data| - 1);
    } else {
      var rest := data[blockSize..];
      BlocksPartition(rest, blockSize);
      assert b[1..] == Blocks(rest, blockSize);
      assert data == data[..blockSize] + rest;
      CeilingStep(|rest|, blockSize);
    }
  }

  /** One more block's worth of bytes is one more block. */
  lemma CeilingStep(n: nat, blockSize: nat)
    requires blockSize > 0
    ensures (n + blockSize + blockSize - 1) / blockSize == (n + blockSize - 1) / blockSize + 1
  {
    var k := (n + blockSize - 1) / blockSize;
    var r := (n + blockSize - 1) % blockSize;
    DivModUnique(n + blockSize + blockSize - 1, blockSize, k + 1, r);
  }

  /** When the length is a whole number of blocks, every block is full. */
  lemma BlocksFull(data: seq<bv8>, blockSize: nat)
    requires blockSize > 0 && |data| % blockSize == 0
    ensures forall j :: 0 <= j < |Blocks(data, blockSize)| ==> |Blocks(data, blockSize)[j]| == blockSize
  {
    BlocksPartition(data, blockSize);
    var b := Blocks(data, blockSize);
    if |b| > 0 {
      BlocksLast(data, blockSize);
    }
  }

  /** With a whole number of blocks, the last block is full too. */
  lemma {:induction false} BlocksLast(data: seq<bv8>, blockSize: nat)
    requires blockSize > 0 && |data| % blockSize == 0 && |data| > 0
    ensures |Blocks(data, blockSize)| > 0
    ensures |Blocks(data, blockSize)[|Blocks(data, blockSize)| - 1]| == blockSize
    decreases |data|
  {
    if |data| < blockSize {
      DivModUnique(|data|, blockSize, 0, |data|);
    } else if |data| > blockSize {
      var rest := data[blockSize..];
      ModAddMultiple(-1, |data|, blockSize);
      assert |rest| == blockSize * -1 + |data|;
      BlocksLast(rest, blockSize);
    }
  }

  /** Taking the slice at `i` leaves the blocks from its end onwards. */
  lemma BlocksUnfold(data: seq<bv8>, i: nat, blockSize: nat)
    requires blockSize > 0 && i < |data|
    ensures var end := if i + blockSize <= |data| then i + blockSize else |data|;
      Blocks(data[i..], blockSize) == [data[i..end]] + Blocks(data[end..], blockSize)
  {
    var end := if i + blockSize <= |data| then i + blockSize else |data|;
    var rest := data[i..];
    if |rest| <= blockSize {
      assert rest == data[i..end];
      assert data[end..] == [];
    } else {
      assert rest[..blockSize] == data[i..end];
      assert rest[blockSize..] == data[end..];
    }
  }

  /** `_split_into_blocks`: `range` with step 0 raises ValueError. */
  method SplitIntoBlocks(padded: seq<bv8>, blockSize: nat) returns (r: Result<seq<seq<bv8>>>)
    ensures blockSize == 0 ==> r == Err(ValueError)
    ensures blockSize > 0 ==> r == Ok(Blocks(padded, blockSize))
  {
    if blockSize == 0 {
      return Err(ValueError);
    }
    var blocks := [];
    var i := 0;
    while i < |padded|
      invariant blocks + Blocks(padded[if i <= |padded| then i else |padded|..], blockSize) == Blocks(padded, blockSize)
      decreases |padded| - i
    {
      var end := if i + blockSize <= |padded| then i + blockSize else |padded|;
      BlocksUnfold(padded, i, blockSize);
      blocks := blocks + [padded[i..end]];
      i := i + blockSize;
    }
    assert Blocks(padded[|padded|..], blockSize) == [];
    assert blocks + [] == blocks;
    return Ok(blocks);
  }

  // ---- compression --------------------------------------------------------

  /** One byte of the first mixing round: XOR, rotate left by 3, then add both
      inputs, all modulo 256. */
  function MixByte(stateByte: bv8, blockByte: bv8): bv8 {
    var mixed := stateByte ^ blockByte;
    var rotated := (mixed << 3) | (mixed >> 5);
    rotated + stateByte + blockByte
  }

  /** The buffer after the first loop of `_compression_function`: byte `i` mixes
      the state and block bytes at `i`, each index taken modulo its length. */
  function FirstRound(state: seq<bv8>, block: seq<bv8>, outputSize: nat): (r: seq<bv8>)
    requires outputSize == 0 || (|state| > 0 && |block| > 0)
    ensures |r| == outputSize
  {
    seq(outputSize, i requires 0 <= i < outputSize => MixByte(state[i % |state|], block[i % |block|]))
  }

  /** Iteration `i` of the second loop: byte `i` becomes the XOR of its current
      neighbours (cyclically) and itself. */
  function DiffuseStep(t: seq<bv8>, i: nat): (r: seq<bv8>)
    requires i < |t|
    ensures |r| == |t|
  {
    var n := |t|;
    t[i := t[(i - 1) % n] ^ t[i] ^ t[(i + 1) % n]]
  }

  /** The buffer after the first `k` iterations of the second loop. */
  function DiffusedPrefix(s: seq<bv8>, k: nat): (r: seq<bv8>)
    requires k <= |s|
    ensures |r| == |s|
    decreases k
  {
    if k == 0 then s else DiffuseStep(DiffusedPrefix(s, k - 1), k - 1)
  }

  function Diffused(s: seq<bv8>): (r: seq<bv8>)
    ensures |r| == |s|
  {
    DiffusedPrefix(s, |s|)
  }

  /** The first `k` iterations leave bytes `k..` untouched, and byte `j < k`
      keeps the value iteration `j` gave it. */
  lemma {:induction false} DiffusedPrefixFrame(s: seq<bv8>, k: nat)
    requires k <= |s|
    ensures forall j :: k <= j < |s| ==> DiffusedPrefix(s, k)[j] == s[j]
    ensures forall j :: 0 <= j < k ==> DiffusedPrefix(s, k)[j] == DiffusedPrefix(s, j + 1)[j]
    decreases k
  {
    if k > 0 {
      DiffusedPrefixFrame(s, k - 1);
    }
  }

  /** The second round works left to right in place: byte 0 reads the original
      last byte, each middle byte reads the already updated byte before it and
      the original byte after it, and the last byte reads the updated bytes
      before it and at 0. */
  lemma DiffusedAt(s: seq<bv8>)
    requires |s| > 0
    ensures var r, n := Diffused(s), |s|;
      && r[0] == s[n - 1] ^ s[0] ^ s[1 % n]
      && (forall i :: 0 < i < n - 1 ==> r[i] == r[i - 1] ^ s[i] ^ s[i + 1])
      && (n >= 2 ==> r[n - 1] == r[n - 2] ^ s[n - 1] ^ r[0])
  {
    var n := |s|;
    DiffusedFirst(s);
    forall i | 0 < i < n - 1
      ensures Diffused(s)[i] == Diffused(s)[i - 1] ^ s[i] ^ s[i + 1]
    {
      DiffusedMiddle(s, i);
    }
    if n >= 2 {
      DiffusedLast(s);
    }
  }

  /** Byte `i` of the result is what iteration `i` computed from the buffer it saw. */
  lemma DiffusedSettled(s: seq<bv8>, i: nat)
    requires i < |s|
    ensures var n := |s|;
      Diffused(s)[i] == DiffusedPrefix(s, i)[(i - 1) % n] ^ s[i] ^ DiffusedPrefix(s, i)[(i + 1) % n]
  {
    DiffusedPrefixFrame(s, |s|);
    DiffusedPrefixFrame(s, i);
  }

  lemma DiffusedFirst(s: seq<bv8>)
    requires |s| > 0
    ensures Diffused(s)[0] == s[|s| - 1] ^ s[0] ^ s[1 % |s|]
  {
    DiffusedSettled(s, 0);
    DivModUnique(-1, |s|, -1, |s| - 1);
  }

  lemma DiffusedMiddle(s: seq<bv8>, i: nat)
    requires 0 < i < |s| - 1
    ensures Diffused(s)[i] == Diffused(s)[i - 1] ^ s[i] ^ s[i + 1]
  {
    var n := |s|;
    DiffusedSettled(s, i);
    DiffusedPrefixFrame(s, i);
    DiffusedPrefixFrame(s, n);
    DivModUnique(i - 1, n, 0, i - 1);
    DivModUnique(i + 1, n, 0, i + 1);
  }

  lemma DiffusedLast(s: seq<bv8>)
    requires |s| >= 2
    ensures var n := |s|; Diffused(s)[n - 1] == Diffused(s)[n - 2] ^ s[n - 1] ^ Diffused(s)[0]
  {
    var n := |s|;
    DiffusedSettled(s, n - 1);
    DiffusedPrefixFrame(s, n - 1);
    DiffusedPrefixFrame(s, n);
    DivModUnique(n - 2, n, 0, n - 2);
    DivModUnique(n, n, 1, 0);
  }

  /** Buffers of one or two bytes come out of the second round unchanged. */
  lemma DiffusedShort(s: seq<bv8>)
    requires |s| <= 2
    ensures Diffused(s) == s
  {
    if |s| > 0 {
      DiffusedAt(s);
    }
  }

  /** The second loop of `_compression_function`, on the buffer in place. */
  method Diffuse(a: array<bv8>)
    modifies a
    ensures a[..] == Diffused(old(a[..]))
  {
    var n := a.Length;
    for i := 0 to n
      invariant a[..] == DiffusedPrefix(old(a[..]), i)
    {
      var prev := a[(i - 1) % n];
      var curr := a[i];
      var nextVal := a[(i + 1) % n];
      a[i] := curr ^ prev ^ nextVal;
    }
  }

  /** What `_compression_function` returns: `outputSize` bytes, or
      ZeroDivisionError when there is a byte to produce but the state or the
      block is empty. */
  function CompressSpec(state: seq<bv8>, block: seq<bv8>, outputSize: nat): (r: Result<seq<bv8>>)
    ensures r.Ok? <==> outputSize == 0 || (|state| > 0 && |block| > 0)
    ensures r.Err? ==> r.error == ZeroDivisionError
    ensures r.Ok? ==> |r.value| == outputSize
  {
    if outputSize > 0 && (|state| == 0 || |block| == 0) then Err(ZeroDivisionError)
    else Ok(Diffused(FirstRound(state, block, outputSize)))
  }

  /** `_compression_function`: fills a fresh buffer with the first round, then
      runs the second round over it in place. */
  method Compress(state: seq<bv8>, block: seq<bv8>, outputSize: nat) returns (r: Result<seq<bv8>>)
    ensures r == CompressSpec(state, block, outputSize)
  {
    var result := new bv8[outputSize];
    for i := 0 to outputSize
      invariant (|state| > 0 && |block| > 0) || i == 0
      invariant forall j :: 0 <= j < i ==> result[j] == MixByte(state[j % |state|], block[j % |block|])
    {
      if |state| == 0 || |block| == 0 {
        return Err(ZeroDivisionError);
      }
      var stateByte := state[i % |state|];
      var blockByte := block[i % |block|];
      result[i] := MixByte(stateByte, blockByte);
    }
    if outputSize > 0 {
      assert result[..] == FirstRound(state, block, outputSize);
    }
    Diffuse(result);
    return Ok(result[..]);
  }

  // ---- chaining -----------------------------------------------------------

  /** The loop `for block in blocks: state = compress(state, block)`. */
  function Chain(state: seq<bv8>, blocks: seq<seq<bv8>>, outputSize: nat): Result<seq<bv8>>
    decreases |blocks|
  {
    if blocks == [] then Ok(state)
    else
      var next :- CompressSpec(state, blocks[0], outputSize);
      Chain(next, blocks[1..], outputSize)
  }

  /** Chaining over two runs of blocks is chaining over the first run, then
      continuing from its result over the second. */
  lemma {:induction false} ChainAppend(state: seq<bv8>, b1: seq<seq<bv8>>, b2: seq<seq<bv8>>, outputSize: nat)
    ensures Chain(state, b1 + b2, outputSize) ==
      match Chain(state, b1, outputSize)
      case Ok(mid) => Chain(mid, b2, outputSize)
      case Err(e) => Err(e)
    decreases |b1|
  {
    if b1 != [] {
      assert (b1 + b2)[0] == b1[0] && (b1 + b2)[1..] == b1[1..] + b2;
      var c := CompressSpec(state, b1[0], outputSize);
      if c.Ok? {
        ChainAppend(c.value, b1[1..], b2, outputSize);
      }
    } else {
      assert b1 + b2 == b2;
    }
  }

  /** Over non-empty blocks, starting from a non-empty state (or with nothing to
      produce), every compression succeeds and the result has `outputSize` bytes. */
  lemma {:induction false} ChainOk(state: seq<bv8>, blocks: seq<seq<bv8>>, outputSize: nat)
    requires |blocks| > 0 && forall j :: 0 <= j < |blocks| ==> |blocks[j]| > 0
    requires |state| > 0 || outputSize == 0
    ensures Chain(state, blocks, outputSize).Ok?
    ensures |Chain(state, blocks, outputSize).value| == outputSize
    decreases |blocks|
  {
    var next := CompressSpec(state, blocks[0], outputSize).value;
    if |blocks| > 1 {
      ChainOk(next, blocks[1..], outputSize);
    }
  }

  // ---- the hash -----------------------------------------------------------

  /** What `hash_bytes` returns: pad, split, and chain the compressions from the
      initial value. */
  function HashBytesSpec(message: Message, blockSize: nat, outputSize: nat): Result<seq<bv8>> {
    var padded :- Padded(MessageBytes(message), blockSize);
    Chain(GenerateIv(outputSize), Blocks(padded, blockSize), outputSize)
  }

  /** A message short enough for the length field pads into at least one
      block, and none of its blocks is empty. */
  lemma PaddedBlocks(m: seq<bv8>, blockSize: nat)
    requires blockSize > 0 && |m| * 8 < LENGTH_BOUND
    ensures Padded(m, blockSize).Ok?
    ensures var blocks := Blocks(Padded(m, blockSize).value, blockSize);
      |blocks| > 0 && forall j :: 0 <= j < |blocks| ==> |blocks[j]| > 0
  {
    var padded := Padded(m, blockSize).value;
    assert |padded| > 0;
    BlocksPartition(padded, blockSize);
  }

  /** `hash_bytes` fails with ZeroDivisionError for a zero block size, with
      OverflowError for a message of 2^61 bytes or more, and with
      ZeroDivisionError for an output size of 1 to 3 (the initial value is then
      empty); otherwise it returns `outputSize` bytes. */
  lemma HashBytesOutcome(message: Message, blockSize: nat, outputSize: nat)
    ensures var m, r := MessageBytes(message), HashBytesSpec(message, blockSize, outputSize);
      && (blockSize == 0 ==> r == Err(ZeroDivisionError))
      && (blockSize > 0 && |m| * 8 >= LENGTH_BOUND ==> r == Err(OverflowError))
      && (blockSize > 0 && |m| * 8 < LENGTH_BOUND && 0 < outputSize < 4 ==> r == Err(ZeroDivisionError))
      && (blockSize > 0 && |m| * 8 < LENGTH_BOUND && (outputSize == 0 || outputSize >= 4) ==>
            r.Ok? && |r.value| == outputSize)
  {
    var m := MessageBytes(message);
    if blockSize > 0 && |m| * 8 < LENGTH_BOUND {
      PaddedBlocks(m, blockSize);
      var blocks := Blocks(Padded(m, blockSize).value, blockSize);
      var iv := GenerateIv(outputSize);
      if 0 < outputSize < 4 {
        assert iv == [];
      } else {
        ChainOk(iv, blocks, outputSize);
      }
    }
  }

  /** `hash_bytes`. */
  method HashBytes(message: Message, blockSize: nat, outputSize: nat) returns (r: Result<seq<bv8>>)
    ensures r == HashBytesSpec(message, blockSize, outputSize)
  {
    var m := MessageBytes(message);
    var padded :- PadMessage(m, blockSize);
    var split := SplitIntoBlocks(padded, blockSize);
    var blocks := split.value;
    r := ChainBlocks(GenerateIv(outputSize), blocks, outputSize);
  }

  /** The block loop of `hash_bytes`: each block in turn is compressed into
      the state, and the first failure ends the loop. */
  method ChainBlocks(iv: seq<bv8>, blocks: seq<seq<bv8>>, outputSize: nat) returns (r: Result<seq<bv8>>)
    ensures r == Chain(iv, blocks, outputSize)
  {
    var state := iv;
    for k := 0 to |blocks|
      invariant Chain(state, blocks[k..], outputSize) == Chain(iv, blocks, outputSize)
    {
      assert blocks[k..][1..] == blocks[k + 1..];
      state :- Compress(state, blocks[k], outputSize);
    }
    return Ok(state);
  }

  /** `hash`: the digest of `hash_bytes` as lowercase hexadecimal. */
  method Hash(message: Message, blockSize: nat, outputSize: nat) returns (r: Result<string>)
    ensures HashBytesSpec(message, blockSize, outputSize).Err? ==>
      r == Err(HashBytesSpec(message, blockSize, outputSize).error)
    ensures HashBytesSpec(message, blockSize, outputSize).Ok? ==>
      r == Ok(Hex(HashBytesSpec(message, blockSize, outputSize).value))
    ensures r.Ok? ==> |r.value| == 2 * outputSize
  {
    HashBytesOutcome(message, blockSize, outputSize);
    var digest :- HashBytes(message, blockSize, outputSize);
    return Ok(Hex(digest));
  }
}
