/** Strings as the standard library orders and searches them. */
module Strings {

  predicate StringLess(s: string, t: string)
    decreases |s|
  {
    if t == "" then false else
    if s == "" then true else
    s[0] < t[0] || (s[0] == t[0] && StringLess(s[1..], t[1..]))
  }

  /** The strings agree before place `k`, where the first one ends or has the smaller character. */
  predicate FirstDifferenceAt(s: string, t: string, k: nat) {
    k <= |s| && k < |t| && s[..k] == t[..k] && (k < |s| ==> s[k] < t[k])
  }

  lemma FirstDifferenceNext(s: string, t: string, k: nat)
    requires s != "" && t != "" && s[0] == t[0]
    ensures FirstDifferenceAt(s, t, k + 1) <==> FirstDifferenceAt(s[1..], t[1..], k)
  {
    if k <= |s[1..]| && k < |t[1..]| {
      assert s[..k + 1] == [s[0]] + s[1..][..k] && t[..k + 1] == [t[0]] + t[1..][..k];
    }
  }

  /** The order is decided by the first character that differs, and a shorter string comes before a
      longer one that goes on from it. */
  lemma {:induction false} StringLessMeans(s: string, t: string)
    ensures StringLess(s, t) <==> exists k: nat :: FirstDifferenceAt(s, t, k)
    decreases |s|
  {
    assert FirstDifferenceAt(s, t, 0) <==> t != "" && (s != "" ==> s[0] < t[0]);
    if k: nat :| k > 0 && FirstDifferenceAt(s, t, k) {
      assert s[0] == s[..k][0] && t[0] == t[..k][0];
    }
    if s != "" && t != "" && s[0] == t[0] {
      StringLessMeans(s[1..], t[1..]);
      if k: nat :| FirstDifferenceAt(s[1..], t[1..], k) {
        FirstDifferenceNext(s, t, k);
      }
      if k: nat :| FirstDifferenceAt(s, t, k) {
        FirstDifferenceNext(s, t, k - 1);
      }
    }
  }

  lemma {:induction false} StringLessIsTotal(s: string, t: string)
    ensures !(StringLess(s, t) && StringLess(t, s))
    ensures !StringLess(s, t) && !StringLess(t, s) <==> s == t
    decreases |s|
  {
    if s != "" && t != "" && s[0] == t[0] {
      StringLessIsTotal(s[1..], t[1..]);
      assert s == [s[0]] + s[1..] && t == [t[0]] + t[1..];
    }
  }

  lemma {:induction false} StringLessIsTransitive(s: string, t: string, u: string)
    requires StringLess(s, t) && StringLess(t, u)
    ensures StringLess(s, u)
    decreases |s|
  {
    if s != "" && s[0] == t[0] && t[0] == u[0] {
      StringLessIsTransitive(s[1..], t[1..], u[1..]);
    }
  }

  /** `find` of a character from a position on; the length stands for no position. */
  function Find(s: string, c: char, from: nat): (i: nat)
    requires from <= |s|
    ensures from <= i <= |s|
    ensures c !in s[from..i]
    ensures i < |s| ==> s[i] == c
    decreases |s| - from
  {
    if from == |s| || s[from] == c then from else
    var i := Find(s, c, from + 1);
    assert s[from..i] == [s[from]] + s[from + 1..i];
    i
  }

  /** `find` gives the first place of the character. */
  lemma FindIsFirst(s: string, c: char, from: nat, i: nat)
    requires from <= i <= |s| && c !in s[from..i] && (i < |s| ==> s[i] == c)
    ensures Find(s, c, from) == i
  {
    NotIn(s, c, from, i);
    NotIn(s, c, from, Find(s, c, from));
  }

  lemma NotIn(s: string, c: char, from: nat, to: nat)
    requires from <= to <= |s|
    ensures c !in s[from..to] <==> forall k :: from <= k < to ==> s[k] != c
  {
    assert forall k :: from <= k < to ==> s[k] == s[from..to][k - from];
  }
}
