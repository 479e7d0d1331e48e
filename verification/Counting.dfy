/** Counting distinct numbers below a bound. */
module Counting {
  ghost predicate NoDup<T(!new)>(s: seq<T>) {
    forall i, j :: 0 <= i < j < |s| ==> s[i] != s[j]
  }

  ghost function Elements(s: seq<nat>): (e: set<nat>) {
    set x | x in s
  }

  ghost function Below(n: nat): (e: set<nat>)
    ensures forall x :: x in e <==> 0 <= x < n
  {
    if n == 0 then {} else Below(n - 1) + {n - 1}
  }

  lemma {:induction false} SizeOfBelow(n: nat)
    ensures |Below(n)| == n
  {
    if n == 0 {
    } else {
      SizeOfBelow(n - 1);
    }
  }

  lemma {:induction false} SizeOfElements(s: seq<nat>)
    requires NoDup(s)
    ensures |Elements(s)| == |s|
  {
    if s == [] {
    } else {
      var last := |s| - 1;
      SizeOfElements(s[..last]);
      assert s == s[..last] + [s[last]];
      assert Elements(s) == Elements(s[..last]) + {s[last]};
    }
  }

  lemma {:induction false} SizeOfSubset(a: set<nat>, b: set<nat>)
    requires a <= b
    ensures |a| <= |b|
  {
    if a == {} {
    } else {
      var x :| x in a;
      SizeOfSubset(a - {x}, b - {x});
    }
  }

  /** Distinct numbers below `n` are at most `n` many, and exactly `n` if all occur. */
  lemma Pigeonhole(s: seq<nat>, n: nat)
    requires NoDup(s) && forall i :: 0 <= i < |s| ==> s[i] < n
    ensures |s| <= n
    ensures (forall x :: 0 <= x < n ==> x in s) ==> |s| == n
  {
    SizeOfBelow(n);
    SizeOfElements(s);
    SizeOfSubset(Elements(s), Below(n));
    if forall x :: 0 <= x < n ==> x in s {
      assert Elements(s) == Below(n);
    }
  }
}
