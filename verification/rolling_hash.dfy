/**
 * The polynomial hash of the Rabin-Karp matcher: fold each character's code
 * point into hash = (d * hash + ord(c)) mod q, and the constant-time roll that
 * drops the window's first character and appends the next one.
 */
module RollingHash {

  /** The code point of a character (Python's ord). */
  function Ord(c: char): nat {
    c as int
  }

  function Pow(b: int, e: nat): int {
    if e == 0 then 1 else b * Pow(b, e - 1)
  }

  /** One step of the fold: append code point c to a hash. */
  function Fold(acc: int, c: nat, d: int, q: int): (r: int)
    requires q > 0
    ensures 0 <= r < q
  {
    (d * acc + c) % q
  }

  /** The hash the init loop computes, folded left to right and reduced mod q at every step. */
  function Hash(s: string, d: int, q: int): (r: int)
    requires q > 0
    ensures 0 <= r < q
  {
    if s == [] then 0 else Fold(Hash(s[..|s| - 1], d, q), Ord(s[|s| - 1]), d, q)
  }

  /** The same fold without reduction: sum of ord(s[k]) * d^(|s|-1-k). */
  function Poly(s: string, d: int): int {
    if s == [] then 0 else d * Poly(s[..|s| - 1], d) + Ord(s[|s| - 1])
  }

  /** Division with a non-negative remainder below q is unique. */
  lemma ModUnique(y: int, q: int, a: int, r: int)
    requires q > 0 && 0 <= r < q && y == q * a + r
    ensures y % q == r
  {
    var a', r' := y / q, y % q;
    assert q * (a - a') == r' - r;
    if a - a' >= 1 {
      MulAtLeast(q, a - a');
      assert false;
    } else if a - a' <= -1 {
      MulAtLeast(q, a' - a);
      assert false;
    }
  }

  lemma MulAtLeast(q: int, x: int)
    requires q > 0 && x >= 1
    ensures q * x >= q
  {
  }

  /** Adding a multiple of q does not change the residue. */
  lemma ModShift(x: int, k: int, q: int)
    requires q > 0
    ensures (x + q * k) % q == x % q
  {
    var a, r := x / q, x % q;
    assert x + q * k == q * (a + k) + r;
    ModUnique(x + q * k, q, a + k, r);
  }

  /** Reducing mod q at every step of the fold gives the unreduced fold mod q. */
  lemma {:induction false} HashIsPolyMod(s: string, d: int, q: int)
    requires q > 0
    ensures Hash(s, d, q) == Poly(s, d) % q
  {
    if s != [] {
      HashIsPolyMod(s[..|s| - 1], d, q);
      ModFold(Poly(s[..|s| - 1], d), Ord(s[|s| - 1]), d, q);
    }
  }

  /** One fold step commutes with reduction mod q. */
  lemma ModFold(p: int, c: int, d: int, q: int)
    requires q > 0
    ensures (d * (p % q) + c) % q == (d * p + c) % q
  {
    var a := p / q;
    assert p == q * a + p % q;
    assert d * p + c == (d * (p % q) + c) + q * (d * a);
    ModShift(d * (p % q) + c, d * a, q);
  }

  /** Peeling the first character: Poly([c] + r) == ord(c) * d^|r| + Poly(r). */
  lemma {:induction false} PolyLeading(s: string, d: int)
    requires |s| >= 1
    ensures Poly(s, d) == Ord(s[0]) * Pow(d, |s| - 1) + Poly(s[1..], d)
  {
    if |s| > 1 {
      var init := s[..|s| - 1];
      PolyLeading(init, d);
      assert init[1..] == s[1..][..|s[1..]| - 1];
      LeadingArithmetic(d, Ord(s[0]), Pow(d, |s| - 2), Poly(init[1..], d), Ord(s[|s| - 1]));
    } else {
      assert s[1..] == [];
      assert s[..0] == [];
    }
  }

  /** Distributing one fold step over the leading term. */
  lemma LeadingArithmetic(d: int, c: int, pw: int, rest: int, last: int)
    ensures d * (c * pw + rest) + last == c * (d * pw) + (d * rest + last)
  {
  }

  /** The integer identity behind the roll, with every reduction written as a multiple of q. */
  lemma RollArithmetic(polyWin: int, polyNext: int, polyMid: int, c0: int, cNew: int,
                       d: int, q: int, pw: int, hashWin: int, h: int)
    requires q > 0
    requires polyWin == c0 * pw + polyMid
    requires polyNext == d * polyMid + cNew
    requires hashWin == polyWin % q && h == pw % q
    ensures (d * (hashWin - c0 * h) + cNew) % q == polyNext % q
  {
    var a, b := polyWin / q, pw / q;
    assert polyWin == q * a + hashWin;
    assert pw == q * b + h;
    assert hashWin - c0 * h == polyMid + q * (c0 * b - a);
    assert d * (hashWin - c0 * h) + cNew == polyNext + q * (d * (c0 * b - a));
    ModShift(polyNext, d * (c0 * b - a), q);
  }

  /** One roll of the window hash t: drop the leaving code point (weighted by h), append the entering one. */
  function RollHash(t: int, leaving: nat, entering: nat, h: int, d: int, q: int): int
    requires q > 0
  {
    (d * (t - leaving * h) + entering) % q
  }

  /**
   * The rolling update: with h = d^(m-1) mod q, rolling the hash of
   * s[i..i+m) past s[i] and onto s[i+m] gives the hash of s[i+1..i+m+1)
   * computed from scratch.
   */
  lemma RollingHashUpdate(s: string, i: nat, m: nat, d: int, q: int)
    requires q > 0 && 1 <= m && i + m < |s|
    ensures RollHash(Hash(s[i..i + m], d, q), Ord(s[i]), Ord(s[i + m]), Pow(d, m - 1) % q, d, q)
         == Hash(s[i + 1..i + 1 + m], d, q)
  {
    var win, next, mid := s[i..i + m], s[i + 1..i + 1 + m], s[i + 1..i + m];
    PolyLeading(win, d);
    assert win[1..] == mid;
    assert next[..|next| - 1] == mid;
    HashIsPolyMod(win, d, q);
    HashIsPolyMod(next, d, q);
    RollArithmetic(Poly(win, d), Poly(next, d), Poly(mid, d), Ord(s[i]), Ord(s[i + m]),
                   d, q, Pow(d, m - 1), Hash(win, d, q), Pow(d, m - 1) % q);
  }
}
