/** String and byte-array rotations (crypto_algs/rotate_string.py): cyclic
    rotation left and right, the half swap, and the mirror swap that the
    notDES rounds use for diffusion. */
module RotateString {
  import opened Arith
  import opened Outcomes

  // ---- rotation -----------------------------------------------------------

  /** `rotate_string_left(s, n)`: the shift is reduced modulo the length, so an
      empty string raises ZeroDivisionError. */
  function RotateLeft<T>(s: seq<T>, n: int): (r: Result<seq<T>>)
    ensures r.Ok? <==> |s| > 0
    ensures r.Ok? ==> |r.value| == |s|
  {
    if |s| == 0 then Err(ZeroDivisionError)
    else
      var k := n % |s|;
      Ok(s[k..] + s[..k])
  }

  /** `rotate_string_right(s, n)`: `s[-k:] + s[:-k]` with `k = n % len(s)`;
      for `k == 0` Python reads `-0` as `0`, which yields `s` itself. */
  function RotateRight<T>(s: seq<T>, n: int): (r: Result<seq<T>>)
    ensures r.Ok? <==> |s| > 0
  {
    if |s| == 0 then Err(ZeroDivisionError)
    else
      var k := n % |s|;
      if k == 0 then Ok(s) else Ok(s[|s| - k..] + s[..|s| - k])
  }

  /** Rotating left by `n` moves the element at `(i + n) mod |s|` to position `i`. */
  lemma RotateLeftAt<T>(s: seq<T>, n: int)
    requires |s| > 0
    ensures |RotateLeft(s, n).value| == |s|
    ensures forall i :: 0 <= i < |s| ==> RotateLeft(s, n).value[i] == s[(i + n) % |s|]
  {
    var len, k := |s|, n % |s|;
    var r := RotateLeft(s, n).value;
    forall i | 0 <= i < len
      ensures r[i] == s[(i + n) % len]
    {
      assert n == len * (n / len) + k;
      if i < len - k {
        DivModUnique(i + n, len, n / len, k + i);
      } else {
        DivModUnique(i + n, len, n / len + 1, i + k - len);
      }
    }
  }

  /** Rotating right by `n` moves the element at `(i - n) mod |s|` to position `i`. */
  lemma RotateRightAt<T>(s: seq<T>, n: int)
    requires |s| > 0
    ensures |RotateRight(s, n).value| == |s|
    ensures forall i :: 0 <= i < |s| ==> RotateRight(s, n).value[i] == s[(i - n) % |s|]
  {
    var len, k := |s|, n % |s|;
    var r := RotateRight(s, n).value;
    forall i | 0 <= i < len
      ensures r[i] == s[(i - n) % len]
    {
      assert n == len * (n / len) + k;
      if k == 0 {
        DivModUnique(i - n, len, -(n / len), i);
      } else if i < k {
        DivModUnique(i - n, len, -(n / len) - 1, len - k + i);
      } else {
        DivModUnique(i - n, len, -(n / len), i - k);
      }
    }
  }

  /** Rotating right by `n` undoes rotating left by `n`. */
  lemma RotateRightUndoesLeft<T>(s: seq<T>, n: int)
    requires |s| > 0
    ensures RotateRight(RotateLeft(s, n).value, n) == Ok(s)
  {
    var len := |s|;
    var l := RotateLeft(s, n).value;
    RotateLeftAt(s, n);
    RotateRightAt(l, n);
    var t := RotateRight(l, n).value;
    forall i | 0 <= i < len
      ensures t[i] == s[i]
    {
      var j := (i - n) % len;
      assert t[i] == l[j];
      assert l[j] == s[(j + n) % len];
      ShiftBack(i, -n, len);
    }
    assert t == s;
  }

  /** Rotating left by `n` undoes rotating right by `n`. */
  lemma RotateLeftUndoesRight<T>(s: seq<T>, n: int)
    requires |s| > 0
    ensures RotateLeft(RotateRight(s, n).value, n) == Ok(s)
  {
    var len := |s|;
    var r := RotateRight(s, n).value;
    RotateRightAt(s, n);
    RotateLeftAt(r, n);
    var t := RotateLeft(r, n).value;
    forall i | 0 <= i < len
      ensures t[i] == s[i]
    {
      var j := (i + n) % len;
      assert t[i] == r[j];
      assert r[j] == s[(j - n) % len];
      ShiftBack(i, n, len);
    }
    assert t == s;
  }

  /** Adding `n` and then `-n` modulo `len` returns to the start. */
  lemma ShiftBack(i: int, n: int, len: int)
    requires 0 <= i < len
    ensures ((i + n) % len - n) % len == i
  {
    var j := (i + n) % len;
    assert i + n == len * ((i + n) / len) + j;
    assert j - n == len * (-((i + n) / len)) + i;
    ModAddMultiple(-((i + n) / len), i, len);
    DivModUnique(i, len, 0, i);
  }

  // ---- half swaps ---------------------------------------------------------

  /** `split_and_swap_bytearray`: the upper half (which holds the middle byte
      of an odd-length array) followed by the lower half. */
  function SplitAndSwap<T>(data: seq<T>): (r: seq<T>)
    ensures |r| == |data|
  {
    var mid := |data| / 2;
    data[mid..] + data[..mid]
  }

  /** The half swap is a left rotation by half the length. */
  lemma SplitAndSwapIsRotation<T>(data: seq<T>)
    requires |data| > 0
    ensures RotateLeft(data, |data| / 2) == Ok(SplitAndSwap(data))
  {
    DivModUnique(|data| / 2, |data|, 0, |data| / 2);
  }

  function Reverse<T>(s: seq<T>): (r: seq<T>)
    ensures |r| == |s|
    ensures forall i :: 0 <= i < |s| ==> r[i] == s[|s| - 1 - i]
  {
    seq(|s|, i requires 0 <= i < |s| => s[|s| - 1 - i])
  }

  /** What `mirror_swap_bytearray` returns, position by position: with
      `h = |data| / 2`, the lower half reversed, then the middle byte of an
      odd-length array, then the first `h` bytes of the upper half reversed. */
  function MirrorSwapped<T>(data: seq<T>): (r: seq<T>)
    ensures |r| == |data|
  {
    var n, h := |data|, |data| / 2;
    seq(n, i requires 0 <= i < n =>
      if i < h then data[h - 1 - i] else if i < n - h then data[2 * h] else data[n + h - 1 - i])
  }

  /** Block by block: the two halves are each reversed and exchanged; the
      middle byte of an odd-length array stays in the upper half, after the
      reversed lower half. */
  lemma MirrorSwappedHalves<T>(data: seq<T>)
    ensures var h := |data| / 2;
      MirrorSwapped(data) == Reverse(data[..h]) + data[2 * h..] + Reverse(data[h..2 * h])
  {
    var h := |data| / 2;
    var blocks := Reverse(data[..h]) + data[2 * h..] + Reverse(data[h..2 * h]);
    forall i | 0 <= i < |data|
      ensures MirrorSwapped(data)[i] == blocks[i]
    {
      if i >= |data| - h {
        assert blocks[i] == Reverse(data[h..2 * h])[i - (|data| - h)];
      }
    }
  }

  /** Mirror-swapping twice gives back the original, for every length. */
  lemma MirrorSwapInvolution<T>(data: seq<T>)
    ensures MirrorSwapped(MirrorSwapped(data)) == data
  {
    var x := MirrorSwapped(data);
    forall i | 0 <= i < |data|
      ensures MirrorSwapped(x)[i] == data[i]
    {}
  }

  /** Mirror swapping only moves bytes around. */
  lemma MirrorSwapPermutes<T>(data: seq<T>)
    ensures multiset(MirrorSwapped(data)) == multiset(data)
  {
    var h := |data| / 2;
    MirrorSwappedHalves(data);
    ReversePermutes(data[..h]);
    ReversePermutes(data[h..2 * h]);
    assert data == data[..h] + data[h..2 * h] + data[2 * h..];
  }

  lemma {:induction false} ReversePermutes<T>(s: seq<T>)
    ensures multiset(Reverse(s)) == multiset(s)
  {
    if s != [] {
      var t := s[1..];
      ReversePermutes(t);
      assert Reverse(s) == Reverse(t) + [s[0]];
      assert s == [s[0]] + t;
    }
  }

  /** The loop of `mirror_swap_bytearray`: for `i` below the length `h` of
      the first buffer, `first[i]` and `second[h - 1 - i]` trade places. The
      first buffer ends up holding the first `h` bytes of the second one
      reversed, and those bytes of the second buffer are the first buffer
      reversed; the rest of the second buffer stays as it was. */
  method SwapAcrossMirror<T>(first: array<T>, second: array<T>)
    requires first != second && first.Length <= second.Length
    modifies first, second
    ensures forall j :: 0 <= j < first.Length ==> first[j] == old(second[first.Length - 1 - j])
    ensures forall k :: 0 <= k < first.Length ==> second[k] == old(first[first.Length - 1 - k])
    ensures forall k :: first.Length <= k < second.Length ==> second[k] == old(second[k])
  {
    var lengthEach := first.Length;
    for i := 0 to lengthEach
      invariant forall j :: 0 <= j < i ==> first[j] == old(second[lengthEach - 1 - j])
      invariant forall j :: i <= j < lengthEach ==> first[j] == old(first[j])
      invariant forall j :: 0 <= j < i ==> second[lengthEach - 1 - j] == old(first[j])
      invariant forall k :: 0 <= k < lengthEach - i ==> second[k] == old(second[k])
      invariant forall k :: lengthEach <= k < second.Length ==> second[k] == old(second[k])
    {
      first[i], second[lengthEach - i - 1] := second[lengthEach - i - 1], first[i];
    }
  }

  /** `mirror_swap_bytearray(data)`: copies the two halves into buffers,
      swaps across the mirror, and returns the second buffer followed by the
      first. */
  method MirrorSwap<T(0)>(data: seq<T>) returns (swapped: seq<T>)
    ensures swapped == MirrorSwapped(data)
  {
    var n := |data|;
    var mid := n / 2;
    var first := new T[mid](i requires 0 <= i < mid => data[i]);
    var second := new T[n - mid](i requires 0 <= i < n - mid => data[mid + i]);
    SwapAcrossMirror(first, second);
    swapped := second[..] + first[..];
    forall k | 0 <= k < n
      ensures swapped[k] == MirrorSwapped(data)[k]
    {
      if k >= n - mid {
        assert swapped[k] == first[k - (n - mid)];
      }
    }
  }
}
