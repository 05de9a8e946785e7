/** Facts about sequences without repetition; both kinds of kernel list refine them. */
module Sequences {

  ghost predicate Distinct<T>(s: seq<T>) {
    forall i, j :: 0 <= i < j < |s| ==> s[i] != s[j]
  }

  /** `s` without its first occurrence of `x`. */
  ghost function Without<T>(s: seq<T>, x: T): seq<T> {
    if s == [] then []
    else if s[0] == x then s[1..]
    else [s[0]] + Without(s[1..], x)
  }

  ghost function IndexOf<T>(s: seq<T>, x: T): (i: nat)
    requires x in s
    ensures i < |s| && s[i] == x
    ensures x !in s[..i]
  {
    if s[0] == x then 0 else 1 + IndexOf(s[1..], x)
  }

  lemma {:induction false} WithoutMiddle<T>(before: seq<T>, x: T, after: seq<T>)
    requires x !in before
    ensures Without(before + [x] + after, x) == before + after
  {
    var s := before + [x] + after;
    if before == [] {
      assert s[1..] == after;
    } else {
      assert s[0] == before[0] && s[1..] == before[1..] + [x] + after;
      WithoutMiddle(before[1..], x, after);
      assert [before[0]] + (before[1..] + after) == before + after;
    }
  }

  /** A sequence is what stands before an element, the element, and what stands behind it. */
  lemma Around<T>(s: seq<T>, i: nat)
    requires i < |s|
    ensures s[..i] + [s[i]] + s[i + 1..] == s
  {
    assert s[i..] == [s[i]] + s[i + 1..];
  }

  lemma WithoutAt<T>(s: seq<T>, i: nat)
    requires i < |s| && s[i] !in s[..i]
    ensures Without(s, s[i]) == s[..i] + s[i + 1..]
  {
    Around(s, i);
    WithoutMiddle(s[..i], s[i], s[i + 1..]);
  }

  lemma {:induction false} WithoutAbsent<T>(s: seq<T>, x: T)
    requires x !in s
    ensures Without(s, x) == s
  {
    if s != [] {
      WithoutAbsent(s[1..], x);
    }
  }

  /** Removing one element of a list without repetition keeps the others, in order. */
  lemma WithoutMembers<T>(s: seq<T>, x: T)
    requires Distinct(s)
    ensures Distinct(Without(s, x))
    ensures forall y <- Without(s, x) :: y in s && y != x
    ensures forall y <- s :: y != x ==> y in Without(s, x)
    ensures |Without(s, x)| == if x in s then |s| - 1 else |s|
  {
    if x in s {
      var i := IndexOf(s, x);
      WithoutAt(s, i);
      var w := s[..i] + s[i + 1..];
      forall y | y in s && y != x ensures y in w {
        var j :| 0 <= j < |s| && s[j] == y;
        if j < i { assert w[j] == y; } else { assert w[j - 1] == y; }
      }
    } else {
      WithoutAbsent(s, x);
    }
  }
}
