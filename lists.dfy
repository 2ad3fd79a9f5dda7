/** The JavaScript array operations the importer chains together, over Dafny
    sequences: `indexOf`, `filter` with `includes`, and the first-occurrence
    filter `filter((v, i, a) => a.indexOf(v) === i)`. */
module Lists {

  predicate NoDuplicates<T(==, !new)>(s: seq<T>)
  {
    forall i, j :: 0 <= i < j < |s| ==> s[i] != s[j]
  }

  /** Array.prototype.indexOf: the position of the first element equal to `x`,
      or -1 when there is none. */
  function IndexOf<T(==, !new)>(s: seq<T>, x: T): (r: int)
    ensures -1 <= r < |s|
    ensures r == -1 <==> x !in s
    ensures r >= 0 ==> s[r] == x
    ensures forall k :: 0 <= k < r ==> s[k] != x
  {
    if s == [] then -1
    else if s[0] == x then 0
    else
      var k := IndexOf(s[1..], x);
      if k == -1 then -1 else k + 1
  }

  /** `s.filter(x => !excluded.includes(x))`: the elements of `s` that are not in
      `excluded`, in their original order. */
  function Without<T(==, !new)>(s: seq<T>, excluded: seq<T>): (r: seq<T>)
    ensures forall x :: x in r <==> x in s && x !in excluded
  {
    if s == [] then []
    else (if s[0] in excluded then [] else [s[0]]) + Without(s[1..], excluded)
  }

  /** Removing elements keeps the relative order of the ones that stay. */
  lemma {:induction false} WithoutKeepsOrder<T(!new)>(s: seq<T>, excluded: seq<T>, x: T, y: T)
    requires x in s && x !in excluded && y in s && y !in excluded
    requires IndexOf(s, x) < IndexOf(s, y)
    ensures IndexOf(Without(s, excluded), x) < IndexOf(Without(s, excluded), y)
  {
    var w := Without(s, excluded);
    if s[0] == x {
      assert w[0] == x;
    } else if s[0] in excluded {
      assert w == Without(s[1..], excluded);
      WithoutKeepsOrder(s[1..], excluded, x, y);
    } else {
      assert s[0] != y;
      assert w == [s[0]] + Without(s[1..], excluded);
      WithoutKeepsOrder(s[1..], excluded, x, y);
    }
  }

  /** The first-occurrence filter over the first `n` positions of `s`: position
      `i` is kept when `s.indexOf(s[i]) == i`. */
  function FirstOccurrencesUpTo<T(==, !new)>(s: seq<T>, n: nat): (r: seq<T>)
    requires n <= |s|
    ensures forall x :: x in r <==> x in s[..n]
    ensures forall x :: x in r ==> 0 <= IndexOf(s, x) < n
    ensures NoDuplicates(r)
    ensures forall i, j :: 0 <= i < j < |r| ==> IndexOf(s, r[i]) < IndexOf(s, r[j])
  {
    if n == 0 then []
    else
      var prev := FirstOccurrencesUpTo(s, n - 1);
      assert s[..n] == s[..n - 1] + [s[n - 1]];
      if IndexOf(s, s[n - 1]) == n - 1 then prev + [s[n - 1]] else prev
  }

  /** `s.filter((v, i, a) => a.indexOf(v) === i)`: every distinct element of `s`
      once, at the place of its first occurrence. */
  function FirstOccurrences<T(==, !new)>(s: seq<T>): (r: seq<T>)
    ensures forall x :: x in r <==> x in s
    ensures NoDuplicates(r)
    ensures forall i, j :: 0 <= i < j < |r| ==> IndexOf(s, r[i]) < IndexOf(s, r[j])
  {
    assert s[..|s|] == s;
    FirstOccurrencesUpTo(s, |s|)
  }
}
