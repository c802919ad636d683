/**
 C strings and the order `strcmp` puts on them (section 7.24.4.2 of ISO/IEC 9899:2011),
 and what a sorted sequence means for any comparison function that behaves like it.
 */
module Strings {

  /** A NUL-terminated byte string, without its terminator. */
  type CString = s: seq<int> | forall i :: 0 <= i < |s| ==> 1 <= s[i] <= 255

  /** A `char *` argument or result. */
  datatype CharPtr = Null | Ptr(s: CString)

  const MAX_KEY_LEN := 128
  const MAX_VALUE_LEN := 512

  /** `strncpy` into a field of `MAX_KEY_LEN` bytes leaves a terminated copy of exactly these. */
  predicate KeyFits(s: CString) {
    |s| < MAX_KEY_LEN
  }

  predicate ValueFits(s: CString) {
    |s| < MAX_VALUE_LEN
  }

  /** A `char` is signed on the platforms the code is built for. */
  function SignedChar(c: int): int {
    if c < 128 then c else c - 256
  }

  /** The difference of the first two bytes that differ, the terminator counting as 0. */
  function Strcmp(a: CString, b: CString): int {
    if a == [] then (if b == [] then 0 else -b[0])
    else if b == [] then a[0]
    else if a[0] != b[0] then a[0] - b[0]
    else Strcmp(a[1..], b[1..])
  }

  /** A comparison function that orders its arguments totally, 0 meaning equality. */
  ghost predicate TotalOrder<K(!new)>(cmp: (K, K) -> int) {
    && (forall a, b :: cmp(a, b) == 0 <==> a == b)
    && (forall a, b :: cmp(a, b) < 0 <==> cmp(b, a) > 0)
    && (forall a, b, c :: cmp(a, b) < 0 && cmp(b, c) < 0 ==> cmp(a, c) < 0)
  }

  lemma {:induction false} StrcmpZero(a: CString, b: CString)
    ensures Strcmp(a, b) == 0 <==> a == b
  {
    if a != [] && b != [] && a[0] == b[0] {
      StrcmpZero(a[1..], b[1..]);
      assert a == [a[0]] + a[1..] && b == [b[0]] + b[1..];
    }
  }

  lemma {:induction false} StrcmpAntisymmetric(a: CString, b: CString)
    ensures Strcmp(a, b) == -Strcmp(b, a)
  {
    if a != [] && b != [] && a[0] == b[0] {
      StrcmpAntisymmetric(a[1..], b[1..]);
    }
  }

  lemma {:induction false} StrcmpTransitive(a: CString, b: CString, c: CString)
    requires Strcmp(a, b) < 0 && Strcmp(b, c) < 0
    ensures Strcmp(a, c) < 0
  {
    if a != [] && c != [] && a[0] == b[0] && b[0] == c[0] {
      StrcmpTransitive(a[1..], b[1..], c[1..]);
    }
  }

  lemma {:induction false} CommonPrefix(p: CString, s: CString, t: CString)
    ensures Strcmp(p + s, p + t) == Strcmp(s, t)
  {
    if p == [] {
      assert p + s == s && p + t == t;
    } else {
      assert (p + s)[1..] == p[1..] + s && (p + t)[1..] == p[1..] + t;
      CommonPrefix(p[1..], s, t);
    }
  }

  /** The order of bytes, taken lexicographically: the first difference decides, a prefix comes first. */
  lemma StrcmpIsLexicographic(p: CString, s: CString, t: CString, x: int, y: int)
    requires 1 <= x <= 255 && 1 <= y <= 255
    ensures x != y ==> (Strcmp(p + [x] + s, p + [y] + t) < 0 <==> x < y)
    ensures Strcmp(p, p + [y] + t) < 0 && Strcmp(p + [y] + t, p) > 0
  {
    assert p + [x] + s == p + ([x] + s) && p + [y] + t == p + ([y] + t) && p == p + [];
    CommonPrefix(p, [x] + s, [y] + t);
    CommonPrefix(p, [], [y] + t);
    CommonPrefix(p, [y] + t, []);
  }

  lemma {:induction false} StrcmpIsTotalOrder()
    ensures TotalOrder(Strcmp)
  {
    forall a: CString, b: CString ensures Strcmp(a, b) == 0 <==> a == b { StrcmpZero(a, b); }
    forall a: CString, b: CString ensures Strcmp(a, b) < 0 <==> Strcmp(b, a) > 0 {
      StrcmpAntisymmetric(a, b);
    }
    forall a: CString, b: CString, c: CString | Strcmp(a, b) < 0 && Strcmp(b, c) < 0
      ensures Strcmp(a, c) < 0
    {
      StrcmpTransitive(a, b, c);
    }
  }
}
