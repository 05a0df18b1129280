/** The elements of a logical path: where each one starts in the text, and the
    bidirectional iterator that walks them. */
module PathElements {

  const SEPARATOR: char := '/'

  // ----- What the elements of a path are, position by position

  /** An element starts at `i`: the first character of the path, the first character of a
      name, or the separator that ends the whole path. */
  predicate IsStart(fp: string, i: int) {
    && 0 <= i < |fp|
    && (i == 0 || (fp[i] != SEPARATOR && fp[i - 1] == SEPARATOR) || (i == |fp| - 1 && fp[i] == SEPARATOR))
  }

  predicate IsPosition(fp: string, i: int) {
    i == |fp| || IsStart(fp, i)
  }

  predicate IsAbsolute(fp: string) {
    fp != "" && fp[0] == SEPARATOR
  }

  /** A separator other than the root ends the path. */
  predicate EndsWithSeparator(fp: string) {
    |fp| > 1 && fp[|fp| - 1] == SEPARATOR
  }

  function RunEnd(fp: string, i: nat): (r: nat)
    requires i <= |fp|
    ensures i <= r <= |fp|
    ensures forall k :: i <= k < r ==> fp[k] != SEPARATOR
    ensures r < |fp| ==> fp[r] == SEPARATOR
    decreases |fp| - i
  {
    if i == |fp| || fp[i] == SEPARATOR then i else RunEnd(fp, i + 1)
  }

  /** The element at a position: the root, a name, or the empty one after a trailing separator. */
  function ElementAt(fp: string, i: nat): string
    requires i <= |fp|
  {
    if i == |fp| then "" else
    if fp[i] == SEPARATOR then (if i == 0 then [SEPARATOR] else "") else
    fp[i..RunEnd(fp, i)]
  }

  function NextStart(fp: string, i: nat): (j: nat)
    requires i <= |fp|
    ensures i <= j && IsPosition(fp, j)
    ensures forall k :: i <= k < j ==> !IsStart(fp, k)
    decreases |fp| - i
  {
    if i == |fp| || IsStart(fp, i) then i else NextStart(fp, i + 1)
  }

  function PrevStart(fp: string, i: nat): (j: nat)
    requires i < |fp|
    ensures j <= i && IsStart(fp, j)
    ensures forall k :: j < k <= i ==> !IsStart(fp, k)
  {
    if IsStart(fp, i) then i else PrevStart(fp, i - 1)
  }

  /** The position after `i` and the one before it. */
  function Next(fp: string, i: nat): nat
    requires i < |fp|
  {
    NextStart(fp, i + 1)
  }

  function Prev(fp: string, i: nat): nat
    requires 0 < i <= |fp|
  {
    PrevStart(fp, i - 1)
  }

  function ElementsFrom(fp: string, i: nat): seq<string>
    requires i <= |fp|
    decreases |fp| - i
  {
    if i == |fp| then [] else [ElementAt(fp, i)] + ElementsFrom(fp, Next(fp, i))
  }

  function Elements(fp: string): seq<string> {
    ElementsFrom(fp, 0)
  }

  /** Stepping backwards from `i` arrives at the root separator but reads an empty element there. */
  predicate LosesRoot(fp: string, i: nat)
    requires 0 < i <= |fp|
  {
    i > 1 && fp[0] == SEPARATOR && Prev(fp, i) == 0
  }

  /** The path starts with two separators and something follows them. */
  predicate HasDoubledRoot(fp: string) {
    |fp| > 2 && fp[0] == SEPARATOR && fp[1] == SEPARATOR
  }

  // ----- Forward and backward steps undo each other

  lemma PrevUndoesNext(fp: string, i: nat)
    requires IsStart(fp, i)
    ensures i < Next(fp, i) <= |fp|
    ensures Prev(fp, Next(fp, i)) == i
  {
    var j := Next(fp, i);
    assert !(Prev(fp, j) < i);
    assert !(i < Prev(fp, j));
  }

  lemma NextUndoesPrev(fp: string, i: nat)
    requires 0 < i && IsPosition(fp, i)
    ensures Prev(fp, i) < i
    ensures Next(fp, Prev(fp, i)) == i
  {
    var j := Prev(fp, i);
    assert !(Next(fp, j) < i);
    assert !(i < Next(fp, j));
  }

  /** Some reachable position loses the root exactly when the root separator is doubled. */
  lemma RootIsLostExactlyWhenDoubled(fp: string)
    ensures (exists i: nat :: 0 < i <= |fp| && IsPosition(fp, i) && LosesRoot(fp, i)) <==> HasDoubledRoot(fp)
  {
    if HasDoubledRoot(fp) {
      var i := Next(fp, 0);
      assert !IsStart(fp, 1);
      PrevUndoesNext(fp, 0);
      assert LosesRoot(fp, i);
    }
    if i: nat :| 0 < i <= |fp| && IsPosition(fp, i) && LosesRoot(fp, i) {
      assert !IsStart(fp, 1);
    }
  }

  // ----- The elements are the names between separators

  function Names(s: string): seq<string>
    decreases |s|
  {
    if s == "" then [] else
    if s[0] == SEPARATOR then Names(s[1..]) else
    var e := RunEnd(s, 0);
    [s[..e]] + Names(s[e..])
  }

  function RootPart(fp: string): seq<string> {
    if IsAbsolute(fp) then [[SEPARATOR]] else []
  }

  function TrailingPart(fp: string): seq<string> {
    if EndsWithSeparator(fp) then [""] else []
  }

  function SkipSeparators(fp: string, i: nat): (j: nat)
    requires i <= |fp|
    ensures i <= j <= |fp|
    ensures forall k :: i <= k < j ==> fp[k] == SEPARATOR
    ensures j < |fp| ==> fp[j] != SEPARATOR
    decreases |fp| - i
  {
    if i == |fp| || fp[i] != SEPARATOR then i else SkipSeparators(fp, i + 1)
  }

  lemma {:induction false} SeparatorsHoldNoName(fp: string, i: nat)
    requires i <= |fp|
    ensures Names(fp[i..]) == Names(fp[SkipSeparators(fp, i)..])
    decreases |fp| - i
  {
    if i < |fp| && fp[i] == SEPARATOR {
      assert fp[i..][1..] == fp[i + 1..];
      SeparatorsHoldNoName(fp, i + 1);
    }
  }

  lemma RunEndOfSuffix(fp: string, i: nat)
    requires i <= |fp|
    ensures RunEnd(fp[i..], 0) == RunEnd(fp, i) - i
  {
    var s, r := fp[i..], RunEnd(fp, i) - i;
    assert r < |s| ==> s[r] == fp[i + r];
    assert forall k :: 0 <= k < r ==> s[k] == fp[i + k];
    assert !(RunEnd(s, 0) < r) && !(r < RunEnd(s, 0));
  }

  /** Where the walk goes from the element at `i`: past the separators that end it, or back to
      the last one when they end the path. */
  lemma NextIsAfterSeparators(fp: string, i: nat)
    requires IsStart(fp, i) && fp[i] != SEPARATOR
    ensures var e := RunEnd(fp, i); var j := SkipSeparators(fp, e);
            Next(fp, i) == if j == |fp| && e < |fp| then |fp| - 1 else j
  {
    var e := RunEnd(fp, i);
    var j := SkipSeparators(fp, e);
    var n := if j == |fp| && e < |fp| then |fp| - 1 else j;
    assert IsPosition(fp, n);
    assert forall k :: i < k < n ==> !IsStart(fp, k);
    assert !(Next(fp, i) < n) && !(n < Next(fp, i));
  }

  lemma NamesSplit(s: string)
    requires s != "" && s[0] != SEPARATOR
    ensures Names(s) == [s[..RunEnd(s, 0)]] + Names(s[RunEnd(s, 0)..])
  {
  }

  lemma SlicesOfSuffix(s: string, i: nat, j: nat)
    requires i <= j <= |s|
    ensures s[i..][..j - i] == s[i..j] && s[i..][j - i..] == s[j..]
  {
  }

  lemma FirstName(fp: string, i: nat)
    requires i < |fp| && fp[i] != SEPARATOR
    ensures Names(fp[i..]) == [fp[i..RunEnd(fp, i)]] + Names(fp[SkipSeparators(fp, RunEnd(fp, i))..])
  {
    hide Names, RunEnd, SkipSeparators;
    var e := RunEnd(fp, i);
    NamesSplit(fp[i..]);
    RunEndOfSuffix(fp, i);
    SlicesOfSuffix(fp, i, e);
    SeparatorsHoldNoName(fp, e);
  }

  lemma NamesOfEmpty()
    ensures Names("") == []
  {
  }

  lemma NoNameInLastSeparator(fp: string)
    requires fp != "" && fp[|fp| - 1] == SEPARATOR
    ensures Names(fp[|fp| - 1..]) == []
  {
    assert fp[|fp| - 1..][1..] == "";
  }

  lemma NamesFromNext(fp: string, i: nat)
    requires IsStart(fp, i) && fp[i] != SEPARATOR
    ensures i < Next(fp, i) <= |fp|
    ensures Names(fp[i..]) == [ElementAt(fp, i)] + Names(fp[Next(fp, i)..])
  {
    hide Names, RunEnd, SkipSeparators, NextStart, PrevStart;
    PrevUndoesNext(fp, i);
    FirstName(fp, i);
    NextIsAfterSeparators(fp, i);
    NamesOfEmpty();
    assert fp[|fp|..] == "";
    if Next(fp, i) < |fp| && fp[Next(fp, i)] == SEPARATOR {
      NoNameInLastSeparator(fp);
    }
  }

  lemma {:induction false} ElementsFromAreNames(fp: string, i: nat)
    requires IsStart(fp, i) && (i == 0 ==> !IsAbsolute(fp))
    ensures ElementsFrom(fp, i) == Names(fp[i..]) + TrailingPart(fp)
    decreases |fp| - i
  {
    hide Names, RunEnd, SkipSeparators, NextStart, PrevStart;
    var n := Next(fp, i);
    PrevUndoesNext(fp, i);
    var here, rest := ElementAt(fp, i), ElementsFrom(fp, n);
    assert ElementsFrom(fp, i) == [here] + rest;
    if fp[i] == SEPARATOR {
      NoNameInLastSeparator(fp);
      assert rest == [];
    } else {
      NamesFromNext(fp, i);
      var names := Names(fp[n..]);
      if n < |fp| {
        ElementsFromAreNames(fp, n);
      } else {
        NextIsAfterSeparators(fp, i);
        NamesOfEmpty();
        assert fp[n..] == "";
        assert TrailingPart(fp) == [] && names == [] && rest == [];
      }
      assert rest == names + TrailingPart(fp);
    }
  }

  lemma NextAfterRoot(fp: string)
    requires IsAbsolute(fp)
    ensures 0 < Next(fp, 0) <= |fp|
    ensures Next(fp, 0) == |fp| ==> |fp| == 1
    ensures Names(fp) == Names(fp[Next(fp, 0)..])
  {
    hide Names;
    var j := SkipSeparators(fp, 0);
    var n := if j == |fp| && |fp| > 1 then |fp| - 1 else j;
    PrevUndoesNext(fp, 0);
    assert IsPosition(fp, n) && forall k :: 0 < k < n ==> !IsStart(fp, k);
    assert !(Next(fp, 0) < n) && !(n < Next(fp, 0));
    SeparatorsHoldNoName(fp, 0);
    assert fp[0..] == fp;
    if n != j {
      NoNameInLastSeparator(fp);
      assert Names(fp[j..]) == [] by { assert fp[j..] == ""; NamesOfEmpty(); }
    }
  }

  /** The walk by positions sees a root, the non-empty pieces between separators, and an empty
      element after a trailing separator. */
  lemma ElementsAreNames(fp: string)
    ensures Elements(fp) == RootPart(fp) + Names(fp) + TrailingPart(fp)
  {
    hide Names;
    if fp == "" {
      NamesOfEmpty();
    } else if fp[0] != SEPARATOR {
      ElementsFromAreNames(fp, 0);
      assert fp[0..] == fp;
      assert [] + Names(fp) == Names(fp);
    } else {
      var n := Next(fp, 0);
      NextAfterRoot(fp);
      assert Elements(fp) == [[SEPARATOR]] + ElementsFrom(fp, n);
      if n < |fp| {
        ElementsFromAreNames(fp, n);
      } else {
        assert fp[n..] == "";
        NamesOfEmpty();
      }
    }
  }

  // ----- The iterator

  class PathIterator {
    const path: string
    var pos: nat
    var element: string

    /** The iterator stands on a position and shows the element there. */
    ghost predicate Valid()
      reads this
    {
      pos <= |path| && IsPosition(path, pos) && element == ElementAt(path, pos)
    }

    /** The iterator stands on the root without showing it, after a step back. */
    ghost predicate HasLostRoot()
      reads this
    {
      pos == 0 && element == "" && HasDoubledRoot(path)
    }

    constructor Begin(fp: string)
      ensures Valid() && path == fp && pos == 0
    {
      path := fp;
      pos := 0;
      if fp == "" {
        element := "";
      } else if fp[0] == SEPARATOR {
        element := [SEPARATOR];
      } else {
        var end := FindSeparator(fp, 0);
        element := fp[..end];
      }
    }

    constructor End(fp: string)
      ensures Valid() && path == fp && pos == |fp|
    {
      path := fp;
      pos := |fp|;
      element := "";
    }

    /** `operator++`, from where a step back lost the root as from anywhere else. */
    method Advance()
      requires (Valid() || HasLostRoot()) && pos < |path|
      modifies this
      ensures Valid()
      ensures pos == Next(path, old(pos))
    {
      hide NextStart, RunEnd;
      ghost var was := pos;
      if |path| - 1 == pos && element == "" {
        pos := pos + 1;
        return;
      }
      pos := pos + |element|;
      if |path| == pos {
        element := "";
        return;
      }
      ghost var run := pos;
      while pos < |path| && path[pos] == SEPARATOR
        invariant was <= run <= pos <= |path| && (was == run ==> was == 0 && path[0] == SEPARATOR)
        invariant forall k :: run <= k < pos ==> path[k] == SEPARATOR
      {
        pos := pos + 1;
      }
      if |path| == pos && path[|path| - 1] == SEPARATOR {
        element := "";
        pos := |path| - 1;
      } else {
        var end := FindSeparator(path, pos);
        element := path[pos..end];
      }
    }

    /** `operator--`. */
    method Retreat()
      requires Valid() && 0 < pos
      modifies this
      ensures pos == Prev(path, old(pos))
      ensures element == if LosesRoot(path, old(pos)) then "" else ElementAt(path, pos)
      ensures if LosesRoot(path, old(pos)) then HasLostRoot() else Valid()
    {
      hide NextStart, PrevStart, RunEnd;
      ghost var was := pos;
      if |path| == pos && |path| > 1 && path[pos - 1] == SEPARATOR {
        pos := pos - 1;
        element := "";
        assert IsStart(path, pos);
        return;
      }
      if path[pos - 1] == SEPARATOR {
        if pos - 1 == 0 {
          pos := 0;
          element := [SEPARATOR];
          assert IsStart(path, 0);
          return;
        }
        while pos > 0 && path[pos - 1] == SEPARATOR
          invariant pos <= was
          invariant forall k :: pos <= k < was ==> path[k] == SEPARATOR
        {
          pos := pos - 1;
        }
      }
      var end := pos;
      while pos > 0 && path[pos - 1] != SEPARATOR
        invariant pos <= end
        invariant forall k :: pos <= k < end ==> path[k] != SEPARATOR
      {
        pos := pos - 1;
      }
      element := path[pos..end];
      assert IsStart(path, pos);
      assert forall k :: pos < k < was ==> !IsStart(path, k);
      assert !(Prev(path, was) < pos);
      assert end == |path| || path[end] == SEPARATOR;
      assert !(RunEnd(path, pos) < end) && !(end < RunEnd(path, pos));
    }
  }

  /** `find_first_of(separator, from)`, with the length of the text standing for `npos`. */
  method FindSeparator(fp: string, from: nat) returns (end: nat)
    requires from <= |fp|
    ensures end == RunEnd(fp, from)
  {
    end := from;
    while end < |fp| && fp[end] != SEPARATOR
      invariant from <= end <= |fp|
      invariant forall k :: from <= k < end ==> fp[k] != SEPARATOR
    {
      end := end + 1;
    }
  }
}
