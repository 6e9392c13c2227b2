/** The word generator of `crypto_algs/mersenne_twister.py`: a state of 624
    four-byte words, an index of the next word to hand out, a refresh that
    rewrites words one at a time from the index on, and `next` that hands out
    the words at the index and then refreshes them. */

/** The word-level arithmetic of the generator: four-byte words and their
    big-endian values, and the function that computes a rewritten word. */
module MersenneWords {
  /** Four bytes, as `random.randbytes(4)` and `to_bytes(4)` give them. The
      state keeps each word as its big-endian value: `from_bytes` and
      `to_bytes` are inverse on four-byte strings (`WordValueOfBytes`,
      `WordBytesOfValue`), so nothing is lost. */
  type Word = w: seq<bv8> | |w| == 4 witness [0, 0, 0, 0]

  // ---- words as big-endian integers ----------------------------------------

  /** `int.from_bytes(w, byteorder='big')`. */
  function WordValue(w: Word): bv32 {
    (w[0] as bv32 << 24) | (w[1] as bv32 << 16) | (w[2] as bv32 << 8) | w[3] as bv32
  }

  /** The lowest byte of a value. */
  function LowByte(v: bv32): bv8 {
    (v & 0xff) as bv8
  }

  /** `v.to_bytes(4, byteorder='big')`. */
  function WordBytes(v: bv32): Word {
    [LowByte(v >> 24), LowByte(v >> 16), LowByte(v >> 8), LowByte(v)]
  }

  /** Writing a value and reading it back gives the value. */
  lemma WordValueOfBytes(v: bv32)
    ensures WordValue(WordBytes(v)) == v
  {}

  /** Reading a word and writing the value back gives the word. */
  lemma WordBytesOfValue(w: Word)
    ensures WordBytes(WordValue(w)) == w
  {
    BytesOfValue(w[0], w[1], w[2], w[3]);
    assert w == [w[0], w[1], w[2], w[3]];
  }

  lemma BytesOfValue(a: bv8, b: bv8, c: bv8, d: bv8)
    ensures var v := WordValue([a, b, c, d]);
      LowByte(v >> 24) == a && LowByte(v >> 16) == b && LowByte(v >> 8) == c && LowByte(v) == d
  {}

  // ---- one refresh step ----------------------------------------------------

  /** `A_func`: the input shifted right by one, XORed with the constant
      `0x9908b0df` when the input's top bit (`0x80000000`) is set. The top bit of the result is the top
      bit of the input, so the result records which branch was taken. */
  function Mix(a: bv32): (f: bv32)
    ensures f & 0x8000_0000 == a & 0x8000_0000
  {
    if a & 0x8000_0000 == 0 then a >> 1 else (a >> 1) ^ 0x9908_b0df
  }

  /** Reads the branch off the top bit and undoes it. */
  function Unmix(f: bv32): (s: bv32) {
    if f & 0x8000_0000 == 0 then f else f ^ 0x9908_b0df
  }

  /** `Mix` loses nothing but the input's lowest bit. */
  lemma UnmixMix(a: bv32)
    ensures Unmix(Mix(a)) == a >> 1
  {}

  /** `A_input`: the top bit of the current word and all 32 bits of the
      following word (the `0xffffffff` mask keeps every bit of a four-byte
      value, so it is left out). */
  function MixInput(current: bv32, following: bv32): bv32 {
    (current & 0x8000_0000) | following
  }

  /** The new value of the current word: the mixed input XORed into the word
      `M` places on. */
  function Twist(current: bv32, following: bv32, far: bv32): bv32 {
    far ^ Mix(MixInput(current, following))
  }

  /** XORing the far word back out leaves the mixed input. */
  lemma TwistUnfar(current: bv32, following: bv32, far: bv32)
    ensures Twist(current, following, far) ^ far == Mix(MixInput(current, following))
  {}

  /** Knowing the far word, a rewritten word gives back the mixed input
      except for its lowest bit: the top bit of the current word together
      with the following word, shifted right by one. */
  lemma {:induction false} TwistRecovers(current: bv32, following: bv32, far: bv32)
    ensures Unmix(Twist(current, following, far) ^ far) == MixInput(current, following) >> 1
  {
    TwistUnfar(current, following, far);
    UnmixMix(MixInput(current, following));
  }

  /** The bytes of the words, `b''.join(...)`. */
  function Joined(words: seq<bv32>): (r: seq<bv8>)
    ensures |r| == 4 * |words|
  {
    if words == [] then [] else Joined(words[..|words| - 1]) + WordBytes(words[|words| - 1])
  }

  lemma JoinedSnoc(words: seq<bv32>, w: bv32)
    ensures Joined(words + [w]) == Joined(words) + WordBytes(w)
  {
    assert (words + [w])[..|words|] == words;
  }

  /** Word `j` of the words handed out sits at bytes `4j .. 4j+4`. */
  lemma {:induction false} JoinedAt(words: seq<bv32>, j: int)
    requires 0 <= j < |words|
    ensures Joined(words)[4 * j..4 * j + 4] == WordBytes(words[j])
    decreases |words|
  {
    var k := |words| - 1;
    var front := Joined(words[..k]);
    assert Joined(words) == front + WordBytes(words[k]);
    if j < k {
      JoinedAt(words[..k], j);
      assert Joined(words)[4 * j..4 * j + 4] == front[4 * j..4 * j + 4];
    } else {
      assert Joined(words)[4 * j..4 * j + 4] == Joined(words)[|front|..];
    }
  }

  /** The values of byte words. */
  function Values(seed: seq<Word>): (r: seq<bv32>)
    ensures |r| == |seed|
  {
    seq(|seed|, i requires 0 <= i < |seed| => WordValue(seed[i]))
  }

  /** Handing out stored words gives back the bytes they were made from. */
  lemma {:induction false} JoinedValues(seed: seq<Word>)
    ensures Joined(Values(seed)) == Flatten(seed)
    decreases |seed|
  {
    if seed != [] {
      var k := |seed| - 1;
      JoinedValues(seed[..k]);
      assert Values(seed)[..k] == Values(seed[..k]);
      WordBytesOfValue(seed[k]);
    }
  }

  /** The bytes of the words, one after the other. */
  function Flatten(seed: seq<Word>): (r: seq<bv8>)
    ensures |r| == 4 * |seed|
  {
    if seed == [] then [] else Flatten(seed[..|seed| - 1]) + seed[|seed| - 1]
  }
}

module MersenneTwister {
  import opened Outcomes
  import opened MersenneWords

  /** Number of words in the state. */
  const N := 624
  /** Distance to the word that is mixed into the one being rewritten. */
  const M := 397

  /** What the generator holds: the words and the index of the next one. */
  datatype Snapshot = Snapshot(state: seq<bv32>, nextWord: int)

  predicate ValidSnapshot(g: Snapshot) {
    |g.state| == N && 0 <= g.nextWord < N
  }

  /** How a step computes the new word from the current, the following and
      the far word. The generator uses `Twist`; the facts about which words a
      refresh touches and where the index goes hold for any such function. */
  type WordFunction = (bv32, bv32, bv32) -> bv32

  /** One pass of the body of `refresh`: the word at the index is rewritten
      and the index moves on, wrapping at the end of the state. */
  function StepWith(twist: WordFunction, g: Snapshot): (r: Snapshot)
    requires ValidSnapshot(g)
    ensures ValidSnapshot(r) && r.nextWord == (g.nextWord + 1) % N
  {
    var c, n := g.nextWord, (g.nextWord + 1) % N;
    var far := g.state[(c + M) % N];
    Snapshot(g.state[c := twist(g.state[c], g.state[n], far)], n)
  }

  /** The fields of a step, for a caller that has computed the new word. */
  lemma StepFields(twist: WordFunction, g: Snapshot, word: bv32)
    requires ValidSnapshot(g)
    requires word == twist(g.state[g.nextWord], g.state[(g.nextWord + 1) % N], g.state[(g.nextWord + M) % N])
    ensures StepWith(twist, g).state == g.state[g.nextWord := word]
    ensures StepWith(twist, g).nextWord == (g.nextWord + 1) % N
  {}

  /** `n` steps; a negative `n` is an empty range and changes nothing. */
  function RefreshedWith(twist: WordFunction, g: Snapshot, n: int): (r: Snapshot)
    requires ValidSnapshot(g)
    ensures ValidSnapshot(r)
    decreases n
  {
    if n <= 0 then g else StepWith(twist, RefreshedWith(twist, g, n - 1))
  }

  /** `refresh(n)` as the generator does it. */
  function Refreshed(g: Snapshot, n: int): (r: Snapshot)
    requires ValidSnapshot(g)
    ensures ValidSnapshot(r)
  {
    RefreshedWith(Twist, g, n)
  }

  /** After `refresh(n)` the index has moved on by `n` words, modulo the
      state size. */
  lemma RefreshedIndex(twist: WordFunction, g: Snapshot, n: int)
    requires ValidSnapshot(g)
    ensures RefreshedWith(twist, g, n).nextWord == (g.nextWord + (if n > 0 then n else 0)) % N
  {
    if n > 0 {
      RefreshedIndexFrom(twist, g, n, g.nextWord + n);
    }
  }

  lemma {:induction false} RefreshedIndexFrom(twist: WordFunction, g: Snapshot, n: nat, end: int)
    requires ValidSnapshot(g) && end == g.nextWord + n
    ensures RefreshedWith(twist, g, n).nextWord == end % N
    decreases n
  {
    if n > 0 {
      RefreshedIndexFrom(twist, g, n - 1, end - 1);
      WrapStep(end - 1, end);
    }
  }

  lemma WrapStep(x: int, y: int)
    requires y == x + 1
    ensures (x % N + 1) % N == y % N
  {
    var q := x / N;
    assert x == N * q + x % N;
    if x % N + 1 == N {
      assert x + 1 == N * (q + 1);
    } else {
      assert x + 1 == N * q + (x % N + 1);
    }
  }

  /** A refresh of `n <= N` words rewrites only the `n` positions from the
      index on (cyclically); every other word keeps its value. */
  lemma {:induction false} RefreshedFrame(twist: WordFunction, g: Snapshot, n: nat, i: int)
    requires ValidSnapshot(g) && n <= N && 0 <= i < N
    requires (i - g.nextWord) % N >= n
    ensures RefreshedWith(twist, g, n).state[i] == g.state[i]
    decreases n
  {
    if n > 0 {
      var c, k := g.nextWord, n - 1;
      var h := RefreshedWith(twist, g, k);
      RefreshedFrame(twist, g, k, i);
      RefreshedIndexFrom(twist, g, k, c + k);
      OffsetOfIndex(c, k, h.nextWord);
      assert i != h.nextWord;
      assert RefreshedWith(twist, g, n) == StepWith(twist, h);
    }
  }

  /** The position `k` steps from `c` is `k` places after it, cyclically. */
  lemma OffsetOfIndex(c: int, k: int, i: int)
    requires 0 <= c < N && 0 <= k < N && i == (c + k) % N
    ensures (i - c) % N == k
  {
    if c + k < N {
      assert i == c + k;
    } else {
      assert i == c + k - N;
      assert i - c == k - N;
    }
  }

  /** The generator object. */
  class MersenneTwister {
    var state: seq<bv32>
    var nextWord: int

    ghost predicate Valid()
      reads this
    {
      ValidSnapshot(Snapshot(state, nextWord))
    }

    /** `__init__`: the 624 words `random.randbytes(4)` draws are passed in. */
    constructor (seed: seq<Word>)
      requires |seed| == N
      ensures Valid()
      ensures state == Values(seed) && nextWord == 0
    {
      state := Values(seed);
      nextWord := 0;
    }

    /** One pass of the loop body of `refresh`: the word at the index is
        rewritten from itself, the following word and the word `M` on, and
        the index moves to the following word. */
    method Step()
      requires Valid()
      modifies this
      ensures Valid()
      ensures state == StepWith(Twist, old(Snapshot(state, nextWord))).state
      ensures nextWord == StepWith(Twist, old(Snapshot(state, nextWord))).nextWord
    {
      var cword, nword := nextWord, (nextWord + 1) % |state|;
      var state397 := state[(cword + M) % |state|];
      var ans := Twist(state[cword], state[nword], state397);
      StepFields(Twist, Snapshot(state, nextWord), ans);
      state := state[cword := ans];
      nextWord := nword;
    }

    /** `refresh(n)`: `n` passes of the loop body; none when `n` is not
        positive. */
    method Refresh(n: int)
      requires Valid()
      modifies this
      ensures Valid()
      ensures state == Refreshed(old(Snapshot(state, nextWord)), n).state
      ensures nextWord == Refreshed(old(Snapshot(state, nextWord)), n).nextWord
    {
      ghost var start := Snapshot(state, nextWord);
      var k := 0;
      while k < n
        invariant Valid()
        invariant 0 <= k && (n >= 0 ==> k <= n) && (n < 0 ==> k == 0)
        invariant state == RefreshedWith(Twist, start, k).state
        invariant nextWord == RefreshedWith(Twist, start, k).nextWord
      {
        Step();
        k := k + 1;
      }
      if n <= 0 {
        assert RefreshedWith(Twist, start, n) == start;
      } else {
        assert k == n;
      }
    }

    /** The generator expression of `next(n)`: the bytes of the `n` words
        from the index on, or IndexError once it runs past the last word. */
    method Words(n: int) returns (r: Result<seq<bv8>>)
      requires Valid()
      ensures r.Err? <==> nextWord + n > N
      ensures r.Err? ==> r.error == IndexError
      ensures r.Ok? ==> r.value == Joined(state[nextWord..nextWord + (if n > 0 then n else 0)])
    {
      var ret := [];
      var b := nextWord;
      while b < nextWord + n
        invariant nextWord <= b <= N
        invariant n >= 0 ==> b <= nextWord + n
        invariant n < 0 ==> b == nextWord
        invariant ret == Joined(state[nextWord..b])
      {
        if b >= |state| {
          return Err(IndexError);
        }
        assert state[nextWord..b + 1] == state[nextWord..b] + [state[b]];
        JoinedSnoc(state[nextWord..b], state[b]);
        ret := ret + WordBytes(state[b]);
        b := b + 1;
      }
      return Ok(ret);
    }

    /** `next(n)`: the bytes of the words from the index on, then a refresh
        of `n` words. Reading past the last word raises IndexError before
        anything changes. */
    method Next(n: int) returns (r: Result<seq<bv8>>)
      requires Valid()
      modifies this
      ensures Valid()
      ensures r.Err? <==> old(nextWord) + n > N
      ensures r.Err? ==> r.error == IndexError && state == old(state) && nextWord == old(nextWord)
      ensures r.Ok? ==>
        var count := if n > 0 then n else 0;
        r.value == Joined(old(state)[old(nextWord)..old(nextWord) + count]) &&
        Snapshot(state, nextWord) == Refreshed(old(Snapshot(state, nextWord)), n)
    {
      r := Words(n);
      if r.Ok? {
        Refresh(n);
      }
    }
  }
}
