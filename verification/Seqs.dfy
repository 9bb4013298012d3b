/** Lists without repetition. */
module Seqs {

  predicate Distinct<T(==)>(s: seq<T>)
  {
    forall j, k {:trigger s[j], s[k]} :: 0 <= j < k < |s| ==> s[j] != s[k]
  }

  /** `list.remove(x)`: the list without the first occurrence of `x`. */
  function Without<T(==)>(list: seq<T>, x: T): seq<T>
  {
    if list == [] then []
    else if list[0] == x then list[1..]
    else [list[0]] + Without(list[1..], x)
  }

  lemma {:induction false} WithoutAt<T>(list: seq<T>, r: nat)
    requires r < |list| && forall j :: 0 <= j < r ==> list[j] != list[r]
    ensures |Without(list, list[r])| == |list| - 1
    ensures forall j {:trigger Without(list, list[r])[j]} :: 0 <= j < |list| - 1 ==>
      Without(list, list[r])[j] == list[if j < r then j else j + 1]
  {
    if r > 0 {
      WithoutAt(list[1..], r - 1);
    }
  }

  /** Removing from a list without repetition removes that element only. */
  lemma WithoutMembers<T>(list: seq<T>, x: T)
    requires Distinct(list) && x in list
    ensures Distinct(Without(list, x))
    ensures forall y {:trigger y in Without(list, x)} :: y in Without(list, x) <==> y in list && y != x
  {
    var r :| 0 <= r < |list| && list[r] == x;
    WithoutAt(list, r);
    forall y | y in list && y != x ensures y in Without(list, x) {
      var j :| 0 <= j < |list| && list[j] == y;
      assert Without(list, x)[if j < r then j else j - 1] == y;
    }
  }

  lemma PushMembers<T>(list: seq<T>, x: T)
    requires Distinct(list) && x !in list
    ensures Distinct(list + [x])
    ensures forall y {:trigger y in list + [x]} :: y in list + [x] <==> y in list || y == x
  {
  }

  lemma PopMembers<T>(list: seq<T>)
    requires Distinct(list) && list != []
    ensures var last := list[|list| - 1]; var rest := list[..|list| - 1];
      Distinct(rest) && forall y {:trigger y in rest} :: y in rest <==> y in list && y != last
  {
    var last, rest := list[|list| - 1], list[..|list| - 1];
    assert list == rest + [last];
  }

  /** The first components of the first `n` pairs. */
  ghost function Firsts(pairs: seq<(int, int)>, n: int): set<int>
    requires 0 <= n <= |pairs|
  {
    set j | 0 <= j < n :: pairs[j].0
  }

  lemma FirstsStep(pairs: seq<(int, int)>, i: int, m: map<int, int>)
    requires 0 <= i < |pairs|
    ensures m - Firsts(pairs, i + 1) == m - Firsts(pairs, i) - {pairs[i].0}
  {
    assert Firsts(pairs, i + 1) == Firsts(pairs, i) + {pairs[i].0};
  }

  lemma FirstsNew(pairs: seq<(int, int)>, i: int)
    requires 0 <= i < |pairs|
    requires forall j, k {:trigger pairs[j], pairs[k]} :: 0 <= j < k < |pairs| ==> pairs[j].0 != pairs[k].0
    ensures pairs[i].0 !in Firsts(pairs, i)
  {
  }
}
