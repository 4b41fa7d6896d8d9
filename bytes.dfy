/** Bytes on the wire and the fixed-width Java integer arithmetic the sink uses on them. */
module Bytes {

  /** An unsigned octet, as `InputStream.read()` returns it. */
  newtype byte = x: int | 0 <= x < 256

  const NUL: byte := 0          // the ready / acknowledgment byte
  const LF: byte := 10          // '\n'
  const SPACE: byte := 32       // ' '
  const SLASH: byte := 47       // File.separator on a Unix host
  const DIGIT_ZERO: byte := 48  // '0'
  const DIGIT_NINE: byte := 57  // '9'
  const UPPER_C: byte := 67     // 'C', the file header tag

  const TWO_32: int := 0x1_0000_0000
  const TWO_64: int := 0x1_0000_0000_0000_0000
  const INT_MIN: int := -0x8000_0000
  const INT_MAX: int := 0x7FFF_FFFF
  const LONG_MIN: int := -0x8000_0000_0000_0000
  const LONG_MAX: int := 0x7FFF_FFFF_FFFF_FFFF

  predicate IsInt(x: int) { INT_MIN <= x <= INT_MAX }
  predicate IsLong(x: int) { LONG_MIN <= x <= LONG_MAX }

  /** The value Java sees in a `byte` array element holding `b`: 0x80..0xFF read as negative. */
  function Signed(b: byte): (v: int)
    ensures -128 <= v < 128
    ensures b < 128 ==> v == b as int
    ensures b >= 128 ==> v == b as int - 256
  {
    if b < 128 then b as int else b as int - 256
  }

  /** A mathematical result stored into a Java `long`: wraps around modulo 2^64. */
  function ToLong(x: int): (r: int)
    ensures IsLong(r)
    ensures IsLong(x) ==> r == x
    ensures x > LONG_MAX && x - TWO_64 <= LONG_MAX ==> r == x - TWO_64
  {
    (x - LONG_MIN) % TWO_64 + LONG_MIN
  }

  /** The Java narrowing cast `(int) x` of a `long`: keeps the low 32 bits, read as signed. */
  function ToInt(x: int): (r: int)
    ensures IsInt(r)
    ensures IsInt(x) ==> r == x
  {
    (x - INT_MIN) % TWO_32 + INT_MIN
  }

  /** `ToLong` keeps `x` modulo 2^64, and it is the only `long` that does. */
  lemma ToLongWraps(x: int, y: int)
    ensures (x - ToLong(x)) % TWO_64 == 0
    ensures IsLong(y) && (x - y) % TWO_64 == 0 ==> ToLong(x) == y
  {
    if IsLong(y) && (x - y) % TWO_64 == 0 {
      var q := (x - LONG_MIN) / TWO_64;
      assert x - LONG_MIN == q * TWO_64 + (ToLong(x) - LONG_MIN);
      var p := (x - y) / TWO_64;
      assert x - y == p * TWO_64;
      assert ToLong(x) - y == (p - q) * TWO_64;
    }
  }

  /** `ToInt` keeps `x` modulo 2^32 (its low 32 bits), and it is the only `int` that does. */
  lemma ToIntWraps(x: int, y: int)
    ensures (x - ToInt(x)) % TWO_32 == 0
    ensures IsInt(y) && (x - y) % TWO_32 == 0 ==> ToInt(x) == y
  {
    if IsInt(y) && (x - y) % TWO_32 == 0 {
      var q := (x - INT_MIN) / TWO_32;
      assert x - INT_MIN == q * TWO_32 + (ToInt(x) - INT_MIN);
      var p := (x - y) / TWO_32;
      assert x - y == p * TWO_32;
      assert ToInt(x) - y == (p - q) * TWO_32;
    }
  }

  function Min(a: int, b: int): (m: int)
    ensures m <= a && m <= b && (m == a || m == b)
  {
    if a <= b then a else b
  }

  /** The position of the first `x` in `s`, or `|s|` when `s` holds no `x`. */
  function IndexOf(s: seq<byte>, x: byte): (k: nat)
    ensures k <= |s|
    ensures k < |s| ==> s[k] == x
    ensures forall j :: 0 <= j < k ==> s[j] != x
  {
    if s == [] then 0
    else if s[0] == x then 0
    else 1 + IndexOf(s[1..], x)
  }

  /** The first `x` of `a + [x] + b` is the one after `a` when `a` holds none. */
  lemma IndexOfAfter(a: seq<byte>, x: byte, b: seq<byte>)
    requires x !in a
    ensures IndexOf(a + [x] + b, x) == |a|
  {
    assert (a + [x] + b)[|a|] == x;
  }

  /** `IndexOf` never finds `x` in a sequence that holds none. */
  lemma IndexOfAbsent(s: seq<byte>, x: byte)
    requires x !in s
    ensures IndexOf(s, x) == |s|
  {
  }

  /** `n` acknowledgment bytes. */
  function Zeros(n: nat): (z: seq<byte>)
    ensures |z| == n
    ensures forall i :: 0 <= i < n ==> z[i] == NUL
  {
    if n == 0 then [] else Zeros(n - 1) + [NUL]
  }
}
