/** Byte-level conversions the hash modules use from the Python runtime:
    `bytes.hex()`, `int.to_bytes(n, byteorder='big')`, sequence repetition
    (`b * k`) and `str.encode('utf-8')`. */
module ByteCodec {
  import opened Arith
  import opened Outcomes

  // ---- bytes.hex() --------------------------------------------------------

  const HEX_DIGITS: string := "0123456789abcdef"

  /** `bytes.hex()`: two lowercase hexadecimal digits per byte, high nibble first. */
  function Hex(b: seq<bv8>): (h: string)
    ensures |h| == 2 * |b|
    ensures forall i :: 0 <= i < |h| ==> h[i] in HEX_DIGITS
  {
    if b == [] then ""
    else [HEX_DIGITS[b[0] as int / 16], HEX_DIGITS[b[0] as int % 16]] + Hex(b[1..])
  }

  /** The value of one lowercase hexadecimal digit. */
  function DigitValue(c: char): Result<nat> {
    if '0' <= c <= '9' then Ok(c as int - '0' as int)
    else if 'a' <= c <= 'f' then Ok(c as int - 'a' as int + 10)
    else Err(ValueError)
  }

  /** Reads back what `Hex` writes: pairs of digits, high nibble first. */
  function Unhex(h: string): Result<seq<bv8>>
    decreases |h|
  {
    if h == [] then Ok([])
    else if |h| == 1 then Err(ValueError)
    else
      var hi :- DigitValue(h[0]);
      var lo :- DigitValue(h[1]);
      var rest :- Unhex(h[2..]);
      if hi < 16 && lo < 16 then Ok([ByteOf(hi * 16 + lo)] + rest) else Err(ValueError)
  }

  lemma DigitValueOfDigit(n: nat)
    requires n < 16
    ensures DigitValue(HEX_DIGITS[n]) == Ok(n)
  {}

  /** Two digits written for the byte `x` read back as `x`, ahead of the rest. */
  lemma UnhexPair(h: string, x: nat)
    requires x < 256 && |h| >= 2 && Unhex(h[2..]).Ok?
    requires h[0] == HEX_DIGITS[x / 16] && h[1] == HEX_DIGITS[x % 16]
    ensures Unhex(h) == Ok([ByteOf(x)] + Unhex(h[2..]).value)
  {
    DigitValueOfDigit(x / 16);
    DigitValueOfDigit(x % 16);
  }

  /** `Hex` loses nothing: the digits it writes read back as the bytes. */
  lemma {:induction false} UnhexHex(b: seq<bv8>)
    ensures Unhex(Hex(b)) == Ok(b)
  {
    if b != [] {
      var x, h, rest := b[0] as int, Hex(b), Hex(b[1..]);
      assert h == [HEX_DIGITS[x / 16], HEX_DIGITS[x % 16]] + rest;
      assert h[2..] == rest;
      UnhexHex(b[1..]);
      UnhexPair(h, x);
      ByteOfValue(b[0]);
      assert [b[0]] + b[1..] == b;
    }
  }

  // ---- int.to_bytes(n, byteorder='big') -----------------------------------

  /** The unsigned value of a big-endian byte string. */
  function FromBigEndian(s: seq<bv8>): nat
    decreases |s|
  {
    if s == [] then 0 else FromBigEndian(s[..|s| - 1]) * 256 + s[|s| - 1] as nat
  }

  /** `v.to_bytes(n, byteorder='big')`: raises OverflowError when `v` needs more than `n` bytes. */
  function ToBigEndian(v: nat, n: nat): (r: Result<seq<bv8>>)
    ensures r.Ok? <==> v < Pow(256, n)
    ensures r.Ok? ==> |r.value| == n && FromBigEndian(r.value) == v
    decreases n
  {
    if n == 0 then (if v == 0 then Ok([]) else Err(OverflowError))
    else
      PowQuotient(v, n);
      match ToBigEndian(v / 256, n - 1)
      case Ok(high) =>
        FromBigEndianSnoc(high, ByteOf(v % 256));
        Ok(high + [ByteOf(v % 256)])
      case Err(e) => Err(e)
  }

  /** Appending a byte shifts the value up by a byte and adds the new one. */
  lemma FromBigEndianSnoc(high: seq<bv8>, b: bv8)
    ensures FromBigEndian(high + [b]) == FromBigEndian(high) * 256 + b as int
  {
    assert (high + [b])[..|high|] == high;
  }

  /** `v` fits in `n` bytes exactly when its quotient by 256 fits in `n - 1`. */
  lemma PowQuotient(v: nat, n: nat)
    requires n > 0
    ensures v < Pow(256, n) <==> v / 256 < Pow(256, n - 1)
  {
    var p := Pow(256, n - 1);
    var q, r := v / 256, v % 256;
    assert v == 256 * q + r;
    if q < p {
      assert 256 * q <= 256 * (p - 1);
    } else {
      assert 256 * q >= 256 * p;
    }
  }

  /** Equal-length big-endian strings with the same value are equal. */
  lemma {:induction false} FromBigEndianInjective(s: seq<bv8>, t: seq<bv8>)
    requires |s| == |t| && FromBigEndian(s) == FromBigEndian(t)
    ensures s == t
    decreases |s|
  {
    if s != [] {
      var n := |s|;
      LastDigit(FromBigEndian(s[..n - 1]), FromBigEndian(t[..n - 1]), s[n - 1], t[n - 1]);
      FromBigEndianInjective(s[..n - 1], t[..n - 1]);
      assert s == s[..n - 1] + [s[n - 1]] && t == t[..n - 1] + [t[n - 1]];
    }
  }

  /** Base-256 digits are unique. */
  lemma LastDigit(x: int, y: int, a: bv8, b: bv8)
    requires x * 256 + a as int == y * 256 + b as int
    ensures x == y && a == b
  {
    var u, v := a as int, b as int;
    assert 256 * (x - y) == v - u;
    MulBetween(256, x - y);
  }

  // ---- sequence repetition ------------------------------------------------

  /** `s * k` on a Python list or bytes object. */
  function Repeat<T>(s: seq<T>, k: nat): (r: seq<T>)
    ensures |r| == k * |s|
  {
    if k == 0 then [] else s + Repeat(s, k - 1)
  }

  /** The repetition holds the pattern cyclically. */
  lemma {:induction false} RepeatAt<T>(s: seq<T>, k: nat, i: nat)
    requires i < k * |s|
    ensures Repeat(s, k)[i] == s[i % |s|]
  {
    if i >= |s| {
      RepeatAt(s, k - 1, i - |s|);
      ModAddMultiple(1, i - |s|, |s|);
    } else {
      DivModUnique(i, |s|, 0, i);
    }
  }

  /** One more repetition appends one more copy. */
  lemma {:induction false} RepeatSnoc<T>(s: seq<T>, k: nat)
    ensures Repeat(s, k + 1) == Repeat(s, k) + s
  {
    if k > 0 {
      RepeatSnoc(s, k - 1);
      assert Repeat(s, k + 1) == s + (Repeat(s, k - 1) + s);
    }
  }

  // ---- bytes(a ^ b for a, b in zip(x, y)) --------------------------------

  /** The bytewise XOR of two byte strings, as long as the shorter one. */
  function ZipXor(x: seq<bv8>, y: seq<bv8>): (r: seq<bv8>)
    ensures |r| == if |x| <= |y| then |x| else |y|
  {
    var n := if |x| <= |y| then |x| else |y|;
    seq(n, i requires 0 <= i < n => x[i] ^ y[i])
  }

  /** XOR with the same bytes twice gives back what it started from, cut to the
      shorter length. */
  lemma ZipXorTwice(x: seq<bv8>, y: seq<bv8>)
    ensures ZipXor(ZipXor(x, y), y) == if |x| <= |y| then x else x[..|y|]
  {}

  // ---- str.encode('utf-8') ------------------------------------------------

  /** The byte holding the value `x`, counted up one step at a time: this
      keeps integer-to-bit-vector conversion, which is slow for the solver,
      out of the proofs that use it. */
  function ByteOf(x: int): (b: bv8)
    requires 0 <= x < 256
    ensures b as int == x
  {
    if x == 0 then 0 else ByteOf(x - 1) + 1
  }

  /** A byte's value gives back the byte. */
  lemma ByteOfValue(b: bv8)
    ensures ByteOf(b as int) == b
  {}

  /** The UTF-8 encoding of one Unicode scalar value (RFC 3629, section 3). */
  function Utf8Char(c: char): (r: seq<bv8>)
    ensures 1 <= |r| <= 4
  {
    var cp := c as int;
    if cp < 0x80 then [ByteOf(cp)]
    else if cp < 0x800 then [ByteOf(0xC0 + cp / 0x40), ByteOf(0x80 + cp % 0x40)]
    else if cp < 0x10000 then
      [ByteOf(0xE0 + cp / 0x1000), ByteOf(0x80 + cp / 0x40 % 0x40), ByteOf(0x80 + cp % 0x40)]
    else
      [ByteOf(0xF0 + cp / 0x40000), ByteOf(0x80 + cp / 0x1000 % 0x40),
       ByteOf(0x80 + cp / 0x40 % 0x40), ByteOf(0x80 + cp % 0x40)]
  }

  /** True of a UTF-8 continuation byte, `10xxxxxx`. */
  predicate IsContinuation(b: bv8) { 0x80 <= b as int < 0xC0 }

  /** The code point a well-formed UTF-8 sequence of one to four bytes stands for. */
  function Utf8Value(r: seq<bv8>): int
    requires 1 <= |r| <= 4
  {
    match |r|
    case 1 => r[0] as int
    case 2 => (r[0] as int - 0xC0) * 0x40 + (r[1] as int - 0x80)
    case 3 => ((r[0] as int - 0xE0) * 0x40 + (r[1] as int - 0x80)) * 0x40 + (r[2] as int - 0x80)
    case 4 =>
      (((r[0] as int - 0xF0) * 0x40 + (r[1] as int - 0x80)) * 0x40 + (r[2] as int - 0x80)) * 0x40
      + (r[3] as int - 0x80)
  }

  /** The encoding has the shortest length for its code point. */
  lemma Utf8CharLength(c: char)
    ensures var r := Utf8Char(c);
      && (|r| == 1 <==> c as int < 0x80)
      && (|r| == 2 <==> 0x80 <= c as int < 0x800)
      && (|r| == 3 <==> 0x800 <= c as int < 0x10000)
      && (|r| == 4 <==> 0x10000 <= c as int)
  {}

  /** The lead byte announces the length; every later byte is a continuation byte. */
  lemma Utf8CharShape(c: char)
    ensures var r := Utf8Char(c);
      && (|r| == 1 ==> r[0] as int < 0x80)
      && (|r| == 2 ==> 0xC0 <= r[0] as int < 0xE0)
      && (|r| == 3 ==> 0xE0 <= r[0] as int < 0xF0)
      && (|r| == 4 ==> 0xF0 <= r[0] as int < 0xF8)
      && (forall j :: 1 <= j < |r| ==> IsContinuation(r[j]))
  {
    var cp := c as int;
    if 0x80 <= cp < 0x800 {
      Utf8Two(cp);
    } else if 0x800 <= cp < 0x10000 {
      Utf8Three(cp);
    } else if 0x10000 <= cp {
      Utf8Four(cp);
    }
  }

  /** Decoding the encoding gives back the code point. */
  lemma Utf8CharDecodes(c: char)
    ensures Utf8Value(Utf8Char(c)) == c as int
  {
    var cp := c as int;
    if 0x80 <= cp < 0x800 {
      Utf8Two(cp);
    } else if 0x800 <= cp < 0x10000 {
      Utf8Three(cp);
    } else if 0x10000 <= cp {
      Utf8Four(cp);
    }
  }

  lemma Utf8Two(cp: int)
    requires 0x80 <= cp < 0x800
    ensures var a, b := cp / 0x40, cp % 0x40;
      0xC0 <= 0xC0 + a < 0xE0 && 0x80 <= 0x80 + b < 0xC0 && cp == a * 0x40 + b
  {}

  lemma Utf8Three(cp: int)
    requires 0x800 <= cp < 0x10000
    ensures var a, b, d := cp / 0x1000, cp / 0x40 % 0x40, cp % 0x40;
      0xE0 <= 0xE0 + a < 0xF0 && cp == (a * 0x40 + b) * 0x40 + d
  {
    var a, b, d := cp / 0x1000, cp / 0x40 % 0x40, cp % 0x40;
    assert cp / 0x40 == a * 0x40 + b;
  }

  lemma Utf8Four(cp: int)
    requires 0x10000 <= cp < 0x110000
    ensures var a, b, d, e := cp / 0x40000, cp / 0x1000 % 0x40, cp / 0x40 % 0x40, cp % 0x40;
      0xF0 <= 0xF0 + a < 0xF8 && cp == ((a * 0x40 + b) * 0x40 + d) * 0x40 + e
  {
    var a, b, d, e := cp / 0x40000, cp / 0x1000 % 0x40, cp / 0x40 % 0x40, cp % 0x40;
    assert cp / 0x1000 == a * 0x40 + b;
    assert cp / 0x40 == (a * 0x40 + b) * 0x40 + d;
  }

  /** `s.encode('utf-8')`. */
  function Utf8(s: string): (r: seq<bv8>)
    ensures |s| <= |r| <= 4 * |s|
  {
    if s == [] then [] else Utf8Char(s[0]) + Utf8(s[1..])
  }

  /** Encoding distributes over concatenation. */
  lemma {:induction false} Utf8Append(s: string, t: string)
    ensures Utf8(s + t) == Utf8(s) + Utf8(t)
  {
    if s == [] {
      assert s + t == t;
    } else {
      calc {
        Utf8(s + t);
        { assert (s + t)[0] == s[0] && (s + t)[1..] == s[1..] + t; }
        Utf8Char(s[0]) + Utf8(s[1..] + t);
        { Utf8Append(s[1..], t); }
        Utf8Char(s[0]) + (Utf8(s[1..]) + Utf8(t));
        (Utf8Char(s[0]) + Utf8(s[1..])) + Utf8(t);
        Utf8(s) + Utf8(t);
      }
    }
  }

  /** An ASCII string encodes to one byte per character, holding its code. */
  lemma {:induction false} Utf8Ascii(s: string)
    requires forall i :: 0 <= i < |s| ==> s[i] as int < 0x80
    ensures |Utf8(s)| == |s|
    ensures forall i :: 0 <= i < |s| ==> Utf8(s)[i] as int == s[i] as int
  {
    if s != [] {
      Utf8Ascii(s[1..]);
    }
  }
}
