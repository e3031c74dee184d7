/** The helpers of utils.js: the string hash that produces the daily seed and the position tests. */
module Utils {
  import opened Constants

  const TWO_31: int := 0x8000_0000
  const TWO_32: int := 0x1_0000_0000

  /** A UTF-16 code unit, as returned by `charCodeAt`. */
  type CodeUnit = c: int | 0 <= c < 0x1_0000

  predicate IsInt32(v: int)
  {
    -TWO_31 <= v < TWO_31
  }

  /** v and w are equal modulo 2^32. */
  predicate Congruent(v: int, w: int)
  {
    (v - w) % TWO_32 == 0
  }

  /** ECMAScript ToInt32: the signed 32-bit value congruent to v modulo 2^32. */
  function ToInt32(v: int): (r: int)
    ensures IsInt32(r)
    ensures Congruent(r, v)
  {
    var m := v % TWO_32;
    var r := if m >= TWO_31 then m - TWO_32 else m;
    assert v == (v / TWO_32) * TWO_32 + m;
    assert r - v == (if m >= TWO_31 then -(v / TWO_32) - 1 else -(v / TWO_32)) * TWO_32;
    r
  }

  /** Two values congruent modulo 2^32 have the same ToInt32. */
  lemma ToInt32OfCongruent(v: int, w: int)
    requires Congruent(v, w)
    ensures ToInt32(v) == ToInt32(w)
  {
    var k := (v - w) / TWO_32;
    assert v == w + k * TWO_32;
    assert (w + k * TWO_32) % TWO_32 == w % TWO_32 by {
      ModShift(w, k);
    }
  }

  lemma ModShift(w: int, k: int)
    ensures (w + k * TWO_32) % TWO_32 == w % TWO_32
  {
    var q := w / TWO_32;
    var m := w % TWO_32;
    assert w + k * TWO_32 == (q + k) * TWO_32 + m;
  }

  /** ToInt32 leaves a value that is already a signed 32-bit integer alone. */
  lemma ToInt32OfInt32(v: int)
    requires IsInt32(v)
    ensures ToInt32(v) == v
  {
    if v < 0 {
      assert v + TWO_32 == 1 * TWO_32 + v;
      assert v % TWO_32 == v + TWO_32;
    }
  }

  /** JavaScript `h << 5` on a signed 32-bit value. */
  function ShiftLeft5(h: int): (r: int)
    requires IsInt32(h)
    ensures IsInt32(r) && Congruent(r, 32 * h)
  {
    ToInt32(h * 32)
  }

  /** One loop step of hashString: shift left by five, subtract the old hash, add the code
      unit, then convert to a signed 32-bit integer (what the self-AND does). */
  function HashStep(h: int, c: CodeUnit): (r: int)
    requires IsInt32(h)
    ensures IsInt32(r)
    ensures r == ToInt32(31 * h + c)
  {
    var shifted := ShiftLeft5(h);
    assert Congruent(shifted - h + c, 31 * h + c);
    ToInt32OfCongruent(shifted - h + c, 31 * h + c);
    ToInt32(shifted - h + c)
  }

  /** The value of `hash` after the loop has consumed all of s. */
  function HashFold(s: seq<CodeUnit>): (h: int)
    ensures IsInt32(h)
    ensures s == [] ==> h == 0
  {
    if s == [] then 0 else HashStep(HashFold(s[..|s| - 1]), s[|s| - 1])
  }

  /** The polynomial s[0]*31^(n-1) + ... + s[n-1] over the unbounded integers. */
  function Poly31(s: seq<CodeUnit>): int
  {
    if s == [] then 0 else 31 * Poly31(s[..|s| - 1]) + s[|s| - 1]
  }

  /** The 32-bit loop computes the Java-style polynomial string hash reduced to 32 bits. */
  lemma {:induction false} HashFoldIsPoly31(s: seq<CodeUnit>)
    ensures HashFold(s) == ToInt32(Poly31(s))
  {
    if s != [] {
      var init, c := s[..|s| - 1], s[|s| - 1];
      HashFoldIsPoly31(init);
      var h := HashFold(init);
      // h is congruent to Poly31(init), so 31*h + c is congruent to Poly31(s)
      var k := (h - Poly31(init)) / TWO_32;
      assert h - Poly31(init) == k * TWO_32;
      assert (31 * h + c) - Poly31(s) == (31 * k) * TWO_32;
      ModShift(0, 31 * k);
      ToInt32OfCongruent(31 * h + c, Poly31(s));
    }
  }

  function Abs(v: int): (r: int)
    ensures r >= 0 && (r == v || r == -v)
  {
    if v < 0 then -v else v
  }

  /** utils.js hashString: the absolute value of the 32-bit rolling hash. `Math.abs` of
      -2^31 is 2^31, so the result lies in [0, 2^31]. */
  method HashString(s: seq<CodeUnit>) returns (r: int)
    ensures r == Abs(ToInt32(Poly31(s)))
    ensures 0 <= r <= TWO_31
    ensures s == [] ==> r == 0
  {
    var hash := 0;
    for i := 0 to |s|
      invariant IsInt32(hash)
      invariant hash == HashFold(s[..i])
    {
      var code := s[i];
      assert s[..i + 1][..i] == s[..i];
      hash := ShiftLeft5(hash) - hash + code;
      hash := ToInt32(hash);
    }
    assert s[..|s|] == s;
    HashFoldIsPoly31(s);
    r := Abs(hash);
  }

  /** Chebyshev distance: the larger of the two coordinate differences. */
  function Chebyshev(p: Pos, q: Pos): nat
  {
    var dx, dy := Abs(p.x - q.x), Abs(p.y - q.y);
    if dx >= dy then dx else dy
  }

  /** utils.js arePositionsAdjacent: equal, orthogonally or diagonally next to each other. */
  function ArePositionsAdjacent(p: Pos, q: Pos): (r: bool)
    ensures r <==> Chebyshev(p, q) <= 1
    ensures r <==> -1 <= p.x - q.x <= 1 && -1 <= p.y - q.y <= 1
  {
    if p.x == q.x && p.y == q.y then
      true
    else
      var dx := Abs(p.x - q.x);
      var dy := Abs(p.y - q.y);
      dx <= 1 && dy <= 1
  }

  lemma AdjacentSymmetric(p: Pos, q: Pos)
    ensures ArePositionsAdjacent(p, q) == ArePositionsAdjacent(q, p)
  {
  }

  /** utils.js arePositionsEqual. */
  function ArePositionsEqual(p: Pos, q: Pos): (r: bool)
    ensures r <==> p == q
  {
    p.x == q.x && p.y == q.y
  }

  lemma EqualImpliesAdjacent(p: Pos, q: Pos)
    ensures ArePositionsEqual(p, q) ==> ArePositionsAdjacent(p, q)
  {
  }
}
