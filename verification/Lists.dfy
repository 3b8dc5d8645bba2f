/** Lists without repetition, and the sizes of finite sets. */
module Lists {

  ghost predicate NoRepeats<T>(s: seq<T>) {
    forall i, j :: 0 <= i < j < |s| ==> s[i] != s[j]
  }

  /** Each member once, in some order. */
  ghost predicate IsListing<T(!new)>(s: seq<T>, all: set<T>) {
    NoRepeats(s) && forall x :: x in s <==> x in all
  }

  lemma ListingGrows<T(!new)>(s: seq<T>, all: set<T>, x: T)
    requires IsListing(s, all) && x !in all
    ensures IsListing(s + [x], all + {x})
  {
    assert forall i :: 0 <= i < |s| ==> s[i] in s;
  }

  lemma {:induction false} CountDistinct<T(!new)>(s: seq<T>, all: set<T>)
    requires IsListing(s, all)
    ensures |s| == |all|
  {
    if |s| == 0 {
      assert all == {};
    } else {
      assert s[0] in s;
      forall x
        ensures x in s[1..] <==> x in all - {s[0]}
      {
        assert x in s <==> x == s[0] || x in s[1..];
      }
      CountDistinct(s[1..], all - {s[0]});
    }
  }

  lemma {:induction false} ListSet<T(!new)>(all: set<T>) returns (s: seq<T>)
    ensures IsListing(s, all)
    decreases |all|
  {
    if all == {} {
      s := [];
    } else {
      var x :| x in all;
      var rest := ListSet(all - {x});
      ListingGrows(rest, all - {x}, x);
      s := rest + [x];
      assert all - {x} + {x} == all;
    }
  }

  function Front<T>(s: seq<T>): (r: seq<T>)
    requires |s| > 0
    ensures |r| == |s| - 1
  {
    s[..|s| - 1]
  }

  function Final<T>(s: seq<T>): T
    requires |s| > 0
  {
    s[|s| - 1]
  }

  // Sizes.

  lemma SizeOfUnion<T>(a: set<T>, b: set<T>)
    ensures |a + b| == |a| + |b - a| == |a| + |b| - |a * b|
  {
    assert a + b == a + (b - a);
    assert b == (b - a) + a * b;
  }

  lemma SizeOfPart<T>(a: set<T>, b: set<T>)
    requires a <= b
    ensures |a| <= |b|
  {
    assert b == a + (b - a);
  }
}
