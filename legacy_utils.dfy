/** The helpers of slide_puzzle/utils.js, the earlier copy of the utilities. */
module LegacyUtils {
  import opened Constants
  import Utils

  /** slide_puzzle/utils.js hashString; it computes the same value as the utils.js version. */
  method HashString(s: seq<Utils.CodeUnit>) returns (r: int)
    ensures r == Utils.Abs(Utils.ToInt32(Utils.Poly31(s)))
    ensures 0 <= r <= Utils.TWO_31
    ensures s == [] ==> r == 0
  {
    var hash := 0;
    var i := 0;
    while i < |s|
      invariant 0 <= i <= |s|
      invariant Utils.IsInt32(hash)
      invariant hash == Utils.ToInt32(Utils.Poly31(s[..i]))
    {
      var code := s[i];
      assert s[..i + 1][..i] == s[..i];
      Utils.HashFoldIsPoly31(s[..i]);
      Utils.HashFoldIsPoly31(s[..i + 1]);
      hash := Utils.ShiftLeft5(hash) - hash + code;
      hash := Utils.ToInt32(hash);
      i := i + 1;
    }
    assert s[..|s|] == s;
    r := Utils.Abs(hash);
  }

  /** arePositionsAdjacent: true when the Chebyshev distance is at most one, identity included. */
  function ArePositionsAdjacent(p: Pos, q: Pos): (r: bool)
    ensures r <==> Utils.Chebyshev(p, q) <= 1
    ensures r == Utils.ArePositionsAdjacent(p, q)
  {
    if p.x == q.x && p.y == q.y then
      true
    else
      var dx := Utils.Abs(p.x - q.x);
      var dy := Utils.Abs(p.y - q.y);
      dx <= 1 && dy <= 1
  }

  lemma AdjacentSymmetric(p: Pos, q: Pos)
    ensures ArePositionsAdjacent(p, q) == ArePositionsAdjacent(q, p)
  {
  }

  /** arePositionsEqual: both coordinates match. */
  function ArePositionsEqual(p: Pos, q: Pos): (r: bool)
    ensures r <==> p.x == q.x && p.y == q.y
    ensures r == Utils.ArePositionsEqual(p, q)
  {
    p.x == q.x && p.y == q.y
  }
}
