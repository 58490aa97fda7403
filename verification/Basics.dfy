/** What several components share. */
module Basics {
  const PGLEN := 4096

  type byte = x: int | 0 <= x < 256

  datatype Option<T> = None | Some(value: T)

  function Min(a: int, b: int): int {
    if a < b then a else b
  }

  // ------------------------------------------------------------ sequences

  ghost predicate Distinct(s: seq<int>) {
    forall i, j :: 0 <= i < j < |s| ==> s[i] != s[j]
  }

  /** The element at an index, or `none` outside of the sequence. */
  function Nth(s: seq<int>, i: int, none: int): int {
    if 0 <= i < |s| then s[i] else none
  }

  // ------------------------------------------------------------ C strings

  const NUL := '\0'

  /** The bytes of a C string: no terminator inside. */
  predicate CString(s: string) {
    NUL !in s
  }

  /** Reading a C string at any index up to its terminator. */
  function Ch(s: string, i: nat): char {
    if i < |s| then s[i] else NUL
  }

  // ------------------------------------------------------------ arithmetic

  lemma Scale(d: int, n: int)
    requires n > 0
    ensures d >= 1 ==> d * n >= n
    ensures d <= -1 ==> d * n <= 0 - n
  {
  }

  /** A quotient and a remainder in range are the quotient and the remainder. */
  lemma DivModIs(p: int, q: int, r: int, n: int)
    requires n > 0 && p == q * n + r && 0 <= r < n
    ensures p / n == q && p % n == r
  {
    var d := p / n - q;
    assert p == (p / n) * n + p % n;
    assert d * n == r - p % n;
    Scale(d, n);
  }

  lemma Distribute(q: int, m: int, low: int, k: int)
    ensures (q * m + low) * k == q * (m * k) + low * k
  {
  }

  lemma UnderProduct(low: int, m: int, k: int)
    requires 0 <= low <= m - 1 && k > 0
    ensures 0 <= low * k <= m * k - k
  {
    Scale(m - 1 - low + 1, k);
    assert (m - low) * k == m * k - low * k;
  }

  /** Dividing in two steps, and what is left over. */
  lemma SplitDiv(p: int, k: int, m: int)
    requires k > 0 && m > 0
    ensures p / (m * k) == p / k / m && p % (m * k) == p % k + p / k % m * k
  {
    var q, low := p / k / m, p / k % m;
    assert p / k == q * m + low;
    assert p == (p / k) * k + p % k;
    Distribute(q, m, low, k);
    UnderProduct(low, m, k);
    DivModIs(p, q, low * k + p % k, m * k);
  }

  // ------------------------------------------------------------ concatenation

  lemma Regroup<T>(a: seq<T>, b: seq<T>, c: seq<T>)
    ensures a + b + c == a + (b + c)
  {
  }

  /** Some element of a set. */
  ghost function Pick(ks: set<int>): (s: int)
    requires ks != {}
    ensures s in ks
  {
    assert (forall s :: s !in ks) ==> ks == {};
    var s :| s in ks; s
  }
}
