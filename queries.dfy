/**
 The two LINQ lookups the controller issues against its tables.
 `SingleOrDefault` distinguishes "no row", "exactly one row" and "several
 rows" (the last throws); `FirstIndexWhere` gives the position of the first
 matching row, the entity an ORM lookup would hand back for tracking.
 */
module Queries {
  import opened Entities

  datatype Single<+T> = NoMatch | Match(value: T) | Ambiguous

  function SingleOrDefault<T>(s: seq<T>, p: T -> bool): (r: Single<T>)
    ensures r.NoMatch? <==> forall i :: 0 <= i < |s| ==> !p(s[i])
    ensures r.Ambiguous? <==> exists i, j :: 0 <= i < j < |s| && p(s[i]) && p(s[j])
    ensures r.Match? ==> p(r.value) && exists i :: 0 <= i < |s| && s[i] == r.value
    ensures r.Match? ==> forall i, j :: 0 <= i < |s| && 0 <= j < |s| && p(s[i]) && p(s[j]) ==> i == j
  {
    if |s| == 0 then NoMatch
    else
      var rest := SingleOrDefault(s[1..], p);
      if !p(s[0]) then
        assert forall i :: 1 <= i < |s| ==> s[i] == s[1..][i - 1];
        assert (exists i, j :: 0 <= i < j < |s| && p(s[i]) && p(s[j])) ==>
               (exists i, j :: 0 <= i < j < |s| - 1 && p(s[1..][i]) && p(s[1..][j]));
        rest
      else if rest.NoMatch? then
        assert forall i :: 1 <= i < |s| ==> s[i] == s[1..][i - 1];
        Match(s[0])
      else
        var k :| 0 <= k < |s| - 1 && p(s[1..][k]);
        assert p(s[0]) && p(s[k + 1]);
        Ambiguous
  }

  function FirstIndexWhere<T>(s: seq<T>, p: T -> bool): (r: Option<nat>)
    ensures r.None? <==> forall i :: 0 <= i < |s| ==> !p(s[i])
    ensures r.Some? ==> r.value < |s| && p(s[r.value]) && forall j :: 0 <= j < r.value ==> !p(s[j])
  {
    if |s| == 0 then None
    else if p(s[0]) then Some(0)
    else
      match FirstIndexWhere(s[1..], p)
      case None => None
      case Some(k) => Some(k + 1)
  }

  /** Replacing the first match by another matching element keeps it first. */
  lemma {:induction false} FirstIndexAfterUpdate<T>(s: seq<T>, p: T -> bool, i: nat, x: T)
    requires FirstIndexWhere(s, p) == Some(i) && p(x)
    ensures FirstIndexWhere(s[i := x], p) == Some(i)
  {
    assert s[i := x][i] == x;
  }

  /** Appending after a match does not move the first match. */
  lemma {:induction false} FirstIndexAfterAppend<T>(s: seq<T>, p: T -> bool, ys: seq<T>)
    requires FirstIndexWhere(s, p).Some?
    ensures FirstIndexWhere(s + ys, p) == FirstIndexWhere(s, p)
  {
    var i := FirstIndexWhere(s, p).value;
    assert (s + ys)[i] == s[i];
  }

  /** Two sequences that agree on the predicate at every position have the same first match. */
  lemma {:induction false} FirstIndexAgrees<T>(s: seq<T>, t: seq<T>, p: T -> bool)
    requires |s| == |t|
    requires forall k :: 0 <= k < |s| ==> p(s[k]) == p(t[k])
    ensures FirstIndexWhere(s, p) == FirstIndexWhere(t, p)
  {
    if |s| > 0 {
      assert forall k :: 0 <= k < |s| - 1 ==> s[1..][k] == s[k + 1] && t[1..][k] == t[k + 1];
      FirstIndexAgrees(s[1..], t[1..], p);
    }
  }
}
