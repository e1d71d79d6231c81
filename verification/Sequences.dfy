/** Sequence vocabulary shared by the number theory and the interpolation modules. */
module Sequences {
  ghost predicate Distinct<T>(s: seq<T>)
  {
    forall i, j :: 0 <= i < j < |s| ==> s[i] != s[j]
  }

  /** s with position i left out. */
  function Without<T>(s: seq<T>, i: nat): (r: seq<T>)
    requires i < |s|
    ensures |r| == |s| - 1
  {
    s[..i] + s[i + 1..]
  }

  lemma WithoutAt<T>(s: seq<T>, i: nat, k: nat)
    requires i < |s| && k < |s| - 1
    ensures Without(s, i)[k] == s[if k < i then k else k + 1]
  {
  }

  lemma WithoutInit<T>(s: seq<T>, i: nat)
    requires i < |s|
    ensures var n := |s| - 1;
            Without(s, i) == if i == n then s[..n] else Without(s[..n], i) + [s[n]]
  {
  }

  /** Leaving out two positions commutes, once the later index is shifted. */
  lemma WithoutTwo<T>(s: seq<T>, i: nat, j: nat)
    requires i < |s| && j < |s| && i != j
    ensures var i' := if i < j then i else i - 1;
            var j' := if j < i then j else j - 1;
            Without(s, i)[j'] == s[j] && Without(Without(s, i), j') == Without(Without(s, j), i')
  {
    hide Without;
    var i' := if i < j then i else i - 1;
    var j' := if j < i then j else j - 1;
    WithoutAt(s, i, j');
    var a, b := Without(Without(s, i), j'), Without(Without(s, j), i');
    forall k | 0 <= k < |s| - 2
      ensures a[k] == b[k]
    {
      var x := if k < j' then k else k + 1;
      var y := if k < i' then k else k + 1;
      WithoutAt(Without(s, i), j', k);
      WithoutAt(s, i, x);
      WithoutAt(Without(s, j), i', k);
      WithoutAt(s, j, y);
    }
  }

  lemma WithoutDistinct<T>(s: seq<T>, i: nat)
    requires i < |s| && Distinct(s)
    ensures Distinct(Without(s, i)) && s[i] !in Without(s, i)
  {
  }
}
