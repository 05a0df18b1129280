/** The path object: its in-place changes and the loops over its elements. */
module Paths {
  import opened Strings
  import opened PathElements
  import opened PathNames
  import opened PathLexical

  /** The elements between two positions. */
  function ElementsBetween(fp: string, i: nat, j: nat): seq<string>
    requires i <= |fp|
    decreases |fp| - i
  {
    if i == |fp| || i >= j then [] else [ElementAt(fp, i)] + ElementsBetween(fp, Next(fp, i), j)
  }

  lemma {:induction false} ElementsUpTo(fp: string, i: nat, j: nat)
    requires i <= j <= |fp| && IsPosition(fp, i) && IsPosition(fp, j)
    ensures ElementsFrom(fp, i) == ElementsBetween(fp, i, j) + ElementsFrom(fp, j)
    decreases j - i
  {
    if i < j {
      PrevUndoesNext(fp, i);
      assert Next(fp, i) <= j;
      ElementsUpTo(fp, Next(fp, i), j);
    }
  }

  /** The elements before the last position are all elements but the last. */
  lemma ElementsBeforeLast(fp: string)
    requires fp != ""
    ensures var last := Prev(fp, |fp|); var es := Elements(fp);
            es != [] && es[|es| - 1] == ElementAt(fp, last) && es[..|es| - 1] == ElementsBetween(fp, 0, last)
            && (last == 0 <==> |es| == 1)
  {
    var last := Prev(fp, |fp|);
    NextUndoesPrev(fp, |fp|);
    ElementsUpTo(fp, 0, last);
    assert ElementsFrom(fp, last) == [ElementAt(fp, last)] + ElementsFrom(fp, |fp|);
    assert ElementsFrom(fp, last) == [ElementAt(fp, last)];
  }

  lemma LastStepKeepsElement(fp: string)
    requires fp != ""
    ensures !LosesRoot(fp, |fp|)
  {
    if |fp| > 1 {
      if fp[|fp| - 1] == SEPARATOR {
        assert IsStart(fp, |fp| - 1);
      } else if fp[0] == SEPARATOR {
        LastCharacterBelongsToName(fp);
        ElementsAreNames(fp);
        ElementsBeforeLast(fp);
      }
    }
  }

  function Reverse(es: seq<string>): seq<string> {
    if es == [] then [] else Reverse(es[1..]) + [es[0]]
  }

  /** What the backward walk reads: the elements in reverse, the first one read wrongly as empty
      when the root separator is doubled. */
  function BackwardElements(fp: string): seq<string> {
    var es := Elements(fp);
    Reverse(if HasDoubledRoot(fp) then [""] + es[1..] else es)
  }

  // ----- Comparison

  function CompareElements(es: seq<string>, fs: seq<string>): int
    decreases |es|
  {
    if es == [] && fs == [] then 0 else
    if es == [] then -1 else
    if fs == [] then 1 else
    if StringLess(es[0], fs[0]) then -1 else
    if StringLess(fs[0], es[0]) then 1 else
    CompareElements(es[1..], fs[1..])
  }

  /** Comparing element lists gives opposite signs in opposite order, and zero for equal lists only. */
  lemma {:induction false} ComparisonIsConsistent(es: seq<string>, fs: seq<string>)
    ensures CompareElements(es, fs) == -CompareElements(fs, es)
    ensures CompareElements(es, fs) == 0 <==> es == fs
    decreases |es|
  {
    if es != [] && fs != [] {
      StringLessIsTotal(es[0], fs[0]);
      ComparisonIsConsistent(es[1..], fs[1..]);
      if es[0] == fs[0] {
        assert es == [es[0]] + es[1..] && fs == [fs[0]] + fs[1..];
      }
    }
  }

  /** The lists agree before place `k`, where the first one ends or has the smaller element. */
  predicate FirstElementLess(es: seq<string>, fs: seq<string>, k: nat) {
    k <= |es| && k < |fs| && es[..k] == fs[..k] && (k < |es| ==> StringLess(es[k], fs[k]))
  }

  lemma FirstElementLessNext(es: seq<string>, fs: seq<string>, k: nat)
    requires es != [] && fs != [] && es[0] == fs[0]
    ensures FirstElementLess(es, fs, k + 1) <==> FirstElementLess(es[1..], fs[1..], k)
  {
    hide StringLess;
    if k <= |es[1..]| && k < |fs[1..]| {
      assert es[..k + 1] == [es[0]] + es[1..][..k] && fs[..k + 1] == [fs[0]] + fs[1..][..k];
    }
  }

  /** The sign is negative when the first element that differs is the smaller one, or is missing. */
  lemma {:induction false} ComparisonMeans(es: seq<string>, fs: seq<string>)
    ensures CompareElements(es, fs) < 0 <==> exists k: nat :: FirstElementLess(es, fs, k)
    decreases |es|
  {
    hide StringLess;
    assert FirstElementLess(es, fs, 0) <==> fs != [] && (es != [] ==> StringLess(es[0], fs[0]));
    if k: nat :| k > 0 && FirstElementLess(es, fs, k) {
      assert es[0] == es[..k][0] && fs[0] == fs[..k][0];
    }
    if es != [] && fs != [] {
      StringLessIsTotal(es[0], fs[0]);
      if es[0] == fs[0] {
        ComparisonMeans(es[1..], fs[1..]);
        if k: nat :| FirstElementLess(es[1..], fs[1..], k) {
          FirstElementLessNext(es, fs, k);
        }
        if k: nat :| FirstElementLess(es, fs, k) {
          FirstElementLessNext(es, fs, k - 1);
        }
      }
    }
  }

  /** Two spellings are the same path when they share root, names and a trailing separator. */
  lemma SamePathIsSameNames(p: string, q: string)
    ensures SamePath(p, q) <==>
            IsAbsolute(p) == IsAbsolute(q) && Names(p) == Names(q) && EndsWithSeparator(p) == EndsWithSeparator(q)
  {
    ElementsAreNames(p);
    ElementsAreNames(q);
    if SamePath(p, q) {
      NamesFollowElements(p, q);
      NamesAreNames(p);
      NamesAreNames(q);
      if Elements(p) != [] {
        assert Names(p) != [] ==> Names(p)[0] in Names(p);
        assert IsAbsolute(p) == (Elements(p)[0] == [SEPARATOR]);
        assert IsAbsolute(q) == (Elements(q)[0] == [SEPARATOR]);
      }
    }
  }

  // ----- The object

  class Path {
    var value: string

    constructor (text: string)
      ensures value == text
    {
      value := text;
    }

    /** `operator/=`. */
    method Extend(p: string)
      modifies this
      ensures value == Append(old(value), p)
    {
      if p != "" {
        if p[0] == SEPARATOR {
          value := p;
          return;
        }
        if !(value == "" || value[|value| - 1] == SEPARATOR || p[0] == SEPARATOR) {
          value := value + [SEPARATOR];
        }
        value := value + p;
      }
    }

    /** `remove_object_name`. */
    method RemoveObjectName()
      modifies this
      ensures value == WithoutObjectName(old(value))
    {
      var pos := |value|;
      while pos > 0 && value[pos - 1] != SEPARATOR
        invariant 0 <= pos <= |value| && value == old(value)
        invariant forall k :: pos <= k < |value| ==> value[k] != SEPARATOR
      {
        pos := pos - 1;
      }
      assert !(LastSeparator(value) < pos - 1) && !(pos - 1 < LastSeparator(value));
      if pos > 0 {
        value := value[..pos];
      }
    }

    /** `compare`. */
    method Compare(p: string) returns (r: int)
      ensures r == CompareElements(Elements(value), Elements(p))
    {
      var first1 := new PathIterator.Begin(value);
      var first2 := new PathIterator.Begin(p);
      while first1.pos < |value| && first2.pos < |p|
        invariant fresh(first1) && fresh(first2) && first1 != first2
        invariant first1.Valid() && first1.path == value && first2.Valid() && first2.path == p
        invariant CompareElements(ElementsFrom(value, first1.pos), ElementsFrom(p, first2.pos)) ==
                  CompareElements(Elements(value), Elements(p))
        decreases |value| - first1.pos
      {
        var less := StringLess(first1.element, first2.element);
        if less {
          return -1;
        }
        var greater := StringLess(first2.element, first1.element);
        if greater {
          return 1;
        }
        first1.Advance();
        first2.Advance();
      }
      if first1.pos == |value| {
        return if first2.pos == |p| then 0 else -1;
      }
      return 1;
    }

    /** `operator==`. */
    method Equals(p: string) returns (same: bool)
      ensures same <==> SamePath(value, p)
    {
      var c := Compare(p);
      ComparisonIsConsistent(Elements(value), Elements(p));
      return c == 0;
    }

    /** `relative_path`. */
    method RelativePath() returns (r: Path)
      ensures fresh(r) && r.value == RelativePathOf(value)
    {
      if value != "" && value[0] == SEPARATOR {
        var first := new PathIterator.Begin(value);
        first.Advance();
        r := JoinRange(first, |value|);
        ElementsUpTo(value, Next(value, 0), |value|);
        var next := Next(value, 0);
        assert Elements(value)[1..] == ElementsFrom(value, next) == ElementsBetween(value, next, |value|);
      } else {
        r := new Path(value);
      }
    }

    /** `parent_path`. */
    method ParentPath() returns (r: Path)
      ensures fresh(r) && r.value == ParentPathOf(value)
    {
      if value == "" {
        r := new Path("");
        return;
      }
      var last := new PathIterator.End(value);
      last.Retreat();
      ElementsBeforeLast(value);
      if last.pos == 0 {
        r := new Path("");
      } else {
        var first := new PathIterator.Begin(value);
        r := JoinRange(first, last.pos);
      }
    }

    /** `object_name`. */
    method ObjectName() returns (r: Path)
      ensures fresh(r) && r.value == ObjectNameOf(value)
    {
      var relative := RelativePath();
      if relative.value == "" {
        r := new Path("");
      } else {
        var last := new PathIterator.End(value);
        last.Retreat();
        LastStepKeepsElement(value);
        ElementsBeforeLast(value);
        r := new Path(last.element);
      }
    }

    /** `lexically_normal`. */
    method LexicallyNormal() returns (p: Path)
      ensures fresh(p) && p.value == LexicallyNormalOf(value)
    {
      p := new Path("");
      var it := new PathIterator.Begin(value);
      while it.pos < |value|
        invariant fresh(p) && fresh(it)
        invariant it.Valid() && it.path == value
        invariant NormalOnto(p.value, ElementsFrom(value, it.pos)) == LexicallyNormalOf(value)
        decreases |value| - it.pos
      {
        var e := new Path(it.element);
        var name := e.ObjectName();
        var isDot := name.Equals(DOT);
        var isDotDot := name.Equals(DOT_DOT);
        if isDot {
        } else if isDotDot {
          p.RemoveObjectName();
        } else {
          p.Extend(e.value);
        }
        it.Advance();
      }
    }

    /** `lexically_relative`. */
    method LexicallyRelative(base: string) returns (p: Path)
      ensures fresh(p) && p.value == LexicallyRelativeOf(value, base)
    {
      hide ElementsFrom, Repeat, CommonLength, JoinOnto;
      var first := new PathIterator.Begin(value);
      var second := new PathIterator.Begin(base);
      ghost var c := Mismatch(first, second);
      if first.pos == |value| && second.pos == |base| {
        p := new Path(DOT);
        return;
      }
      p := new Path("");
      ClimbFrom(p, second);
      DescendTo(p, first);
    }
  }

  lemma JoinRepeated(p: string, e: string, n: nat)
    requires n > 0
    ensures JoinOnto(p, Repeat(e, n)) == JoinOnto(Append(p, e), Repeat(e, n - 1))
  {
    assert Repeat(e, n)[1..] == Repeat(e, n - 1);
  }

  /** One ".." for every element the base has left. */
  method ClimbFrom(p: Path, second: PathIterator)
    requires second.Valid()
    modifies p, second
    ensures p.value == JoinOnto(old(p.value), Repeat(DOT_DOT, |ElementsFrom(second.path, old(second.pos))|))
  {
    ghost var left := |ElementsFrom(second.path, second.pos)|;
    ghost var goal := JoinOnto(p.value, Repeat(DOT_DOT, left));
    while second.pos < |second.path|
      invariant second.Valid() && left == |ElementsFrom(second.path, second.pos)|
      invariant JoinOnto(p.value, Repeat(DOT_DOT, left)) == goal
      decreases |second.path| - second.pos
    {
      JoinRepeated(p.value, DOT_DOT, left);
      p.Extend(DOT_DOT);
      second.Advance();
      left := left - 1;
    }
  }

  /** Every element the path has left. */
  method DescendTo(p: Path, first: PathIterator)
    requires first.Valid()
    modifies p, first
    ensures p.value == JoinOnto(old(p.value), ElementsFrom(first.path, old(first.pos)))
  {
    while first.pos < |first.path|
      invariant first.Valid()
      invariant JoinOnto(p.value, ElementsFrom(first.path, first.pos)) ==
                JoinOnto(old(p.value), ElementsFrom(first.path, old(first.pos)))
      decreases |first.path| - first.pos
    {
      p.Extend(first.element);
      first.Advance();
    }
  }

  lemma CommonStep(es: seq<string>, bs: seq<string>, c: nat)
    requires c < |es| && c < |bs|
    ensures CommonLength(es[c..], bs[c..]) == if es[c] == bs[c] then 1 + CommonLength(es[c + 1..], bs[c + 1..]) else 0
  {
    assert es[c..][1..] == es[c + 1..] && bs[c..][1..] == bs[c + 1..];
  }

  lemma FirstElementFrom(fp: string, i: nat, es: seq<string>, c: nat)
    requires i <= |fp| && c <= |es| && es[c..] == ElementsFrom(fp, i)
    ensures i == |fp| <==> c == |es|
    ensures i < |fp| ==> es[c] == ElementAt(fp, i) && es[c + 1..] == ElementsFrom(fp, Next(fp, i))
  {
    if i < |fp| {
      assert es[c] == es[c..][0];
      assert es[c + 1..] == es[c..][1..];
    }
  }

  /** `std::mismatch` over two paths: both iterators stop at the first difference. */
  method Mismatch(first: PathIterator, second: PathIterator) returns (ghost c: nat)
    requires first != second && first.Valid() && second.Valid() && first.pos == second.pos == 0
    modifies first, second
    ensures first.Valid() && second.Valid()
    ensures c == CommonLength(Elements(first.path), Elements(second.path))
    ensures ElementsFrom(first.path, first.pos) == Elements(first.path)[c..]
    ensures ElementsFrom(second.path, second.pos) == Elements(second.path)[c..]
    ensures first.pos == |first.path| <==> c == |Elements(first.path)|
    ensures second.pos == |second.path| <==> c == |Elements(second.path)|
  {
    ghost var es, bs := Elements(first.path), Elements(second.path);
    hide ElementsFrom, CommonLength, NextStart, RunEnd, PrevStart, SamePath;
    c := 0;
    assert es[0..] == es && bs[0..] == bs;
    FirstElementFrom(first.path, first.pos, es, 0);
    FirstElementFrom(second.path, second.pos, bs, 0);
    while first.pos < |first.path| && second.pos < |second.path|
      invariant first.Valid() && second.Valid()
      invariant c <= |es| && c <= |bs|
      invariant es[c..] == ElementsFrom(first.path, first.pos) && bs[c..] == ElementsFrom(second.path, second.pos)
      invariant first.pos == |first.path| <==> c == |es|
      invariant second.pos == |second.path| <==> c == |bs|
      invariant CommonLength(es, bs) == c + CommonLength(es[c..], bs[c..])
      decreases |first.path| - first.pos
    {
      FirstElementFrom(first.path, first.pos, es, c);
      FirstElementFrom(second.path, second.pos, bs, c);
      CommonStep(es, bs, c);
      SameElementIsSameText(first.path, first.pos, second.path, second.pos);
      var e := new Path(first.element);
      var same := e.Equals(second.element);
      if !same {
        return;
      }
      first.Advance();
      second.Advance();
      c := c + 1;
      FirstElementFrom(first.path, first.pos, es, c);
      FirstElementFrom(second.path, second.pos, bs, c);
    }
    NothingInCommonWithEmpty(es[c..], bs[c..]);
  }

  lemma NothingInCommonWithEmpty(es: seq<string>, bs: seq<string>)
    ensures es == [] || bs == [] ==> CommonLength(es, bs) == 0
  {
  }

  lemma ElementTextElements(fp: string, i: nat)
    requires IsStart(fp, i)
    ensures Elements(ElementAt(fp, i)) == if ElementAt(fp, i) == "" then [] else [ElementAt(fp, i)]
  {
    var e := ElementAt(fp, i);
    if e == ROOT {
      ElementsAreNames(e);
      assert e[1..] == "";
    } else if e != "" {
      ElementsOfSingle(e);
    }
  }

  lemma SameElementIsSameText(p: string, i: nat, q: string, j: nat)
    requires IsStart(p, i) && IsStart(q, j)
    ensures SamePath(ElementAt(p, i), ElementAt(q, j)) <==> ElementAt(p, i) == ElementAt(q, j)
  {
    ElementTextElements(p, i);
    ElementTextElements(q, j);
  }

  /** `join`: the elements from an iterator up to a position. */
  method JoinRange(first: PathIterator, last: nat) returns (p: Path)
    requires first.Valid() && first.pos <= last <= |first.path| && IsPosition(first.path, last)
    modifies first
    ensures fresh(p) && p.value == Join(ElementsBetween(first.path, old(first.pos), last))
  {
    p := new Path("");
    while first.pos != last
      invariant fresh(p) && first.Valid() && first.pos <= last
      invariant JoinOnto(p.value, ElementsBetween(first.path, first.pos, last)) ==
                Join(ElementsBetween(first.path, old(first.pos), last))
      decreases last - first.pos
    {
      p.Extend(first.element);
      PrevUndoesNext(first.path, first.pos);
      first.Advance();
    }
  }

  /** The range-for loop over a path. */
  method WalkForward(fp: string) returns (es: seq<string>)
    ensures es == Elements(fp)
  {
    hide NextStart, PrevStart, RunEnd, ElementAt;
    es := [];
    var it := new PathIterator.Begin(fp);
    while it.pos < |fp|
      invariant fresh(it) && it.Valid() && it.path == fp
      invariant es + ElementsFrom(fp, it.pos) == Elements(fp)
      decreases |fp| - it.pos
    {
      es := es + [it.element];
      it.Advance();
    }
  }

  lemma FirstStepBackToRoot(fp: string, i: nat)
    requires 0 < i <= |fp| && IsPosition(fp, i) && Prev(fp, i) == 0
    ensures LosesRoot(fp, i) <==> HasDoubledRoot(fp)
  {
    RootIsLostExactlyWhenDoubled(fp);
    if HasDoubledRoot(fp) {
      assert !IsStart(fp, 1);
    }
  }

  lemma ReverseCons(e: string, es: seq<string>)
    ensures Reverse([e] + es) == Reverse(es) + [e]
  {
    assert ([e] + es)[1..] == es;
  }

  /** Stepping back from the end to the beginning reads the elements in reverse, exactly when the
      root separator is not doubled. */
  method WalkBackward(fp: string) returns (es: seq<string>)
    ensures es == BackwardElements(fp)
    ensures es == Reverse(Elements(fp)) <==> !HasDoubledRoot(fp)
  {
    es := [];
    var it := new PathIterator.End(fp);
    while it.pos != 0
      invariant fresh(it) && it.path == fp && it.pos <= |fp| && IsPosition(fp, it.pos)
      invariant it.pos > 0 || fp == "" ==> it.Valid() && es == Reverse(ElementsFrom(fp, it.pos))
      invariant it.pos == 0 && fp != "" ==>
                es == Reverse(ElementsFrom(fp, Next(fp, 0))) + [if HasDoubledRoot(fp) then "" else ElementAt(fp, 0)]
      decreases it.pos
    {
      ghost var was := it.pos;
      it.Retreat();
      es := es + [it.element];
      NextUndoesPrev(fp, was);
      if it.pos == 0 {
        FirstStepBackToRoot(fp, was);
      } else {
        ReverseCons(it.element, ElementsFrom(fp, was));
      }
    }
    if fp != "" {
      ghost var rest := ElementsFrom(fp, Next(fp, 0));
      assert Elements(fp)[1..] == rest;
      ReverseCons("", rest);
      ReverseCons(ElementAt(fp, 0), rest);
      assert (Reverse(rest) + [""])[|Reverse(rest)|] == "";
      assert (Reverse(rest) + [ElementAt(fp, 0)])[|Reverse(rest)|] == ElementAt(fp, 0);
    }
  }

  // ----- Inputs on which the code does less

  /** `//a` read backwards begins with its name and ends with an empty element for the root. */
  lemma DoubledRootIsLost()
    ensures LosesRoot("//a", 2) && Elements("//a") == ["/", "a"] && BackwardElements("//a") == ["a", ""]
  {
    ElementsAreNames("//a");
    NamesOfConcat("//", "a");
    NamesOfName("a");
    assert Prev("//a", 2) == 0;
    assert Names("//") == [];
    assert [""] + Elements("//a")[1..] == ["", "a"];
    assert ["", "a"][1..] == ["a"] && ["a"][1..] == [];
  }

  lemma NamesOfTwo(a: string, b: string)
    requires IsName(a) && IsName(b)
    ensures var p := "/" + a + "/" + b;
            && Names(p) == Names(p + "/") == [a, b] && TrailingPart(p) == [] && TrailingPart(p + "/") == [""]
            && Elements(p) == ["/", a, b] && Elements(p + "/") == ["/", a, b, ""]
  {
    hide Names;
    var p := "/" + a + "/" + b;
    NamesOfName(a);
    NamesOfName(b);
    NoNameInSeparator();
    NamesOfConcat("/", a);
    NamesOfConcat("/" + a, "/");
    NamesOfConcat("/" + a + "/", b);
    NamesOfConcat(p, "/");
    ElementsAreNames(p);
    ElementsAreNames(p + "/");
    assert p[|p| - 1] == b[|b| - 1] && b[|b| - 1] in b;
  }

  lemma NoNameInSeparator()
    ensures Names("/") == []
  {
  }

  lemma SharedOfTwo()
    ensures CommonLength(["/", "a", "b"], ["/", "a", "c", ""]) == 2
  {
    var es, bs := ["/", "a", "b"], ["/", "a", "c", ""];
    assert es[2] != bs[2] && es[0] == bs[0] && es[1] == bs[1];
  }

  lemma ClimbOneTooMany()
    ensures Resolve([], ["a", "c"] + ["..", "..", "b"]) == ["b"]
    ensures Repeat(DOT_DOT, 2) + ["b"] == ["..", "..", "b"]
  {
    ResolvePlainNames([], ["a", "c"]);
    ResolveConcat([], ["a", "c"], ["..", "..", "b"]);
    ResolveClimb(["a", "c"], 2, ["b"]);
    hide Resolve;
    assert [] + ["a", "c"] == ["a", "c"] && [] + ["b"] == ["b"];
  }

  lemma TextOfThree()
    ensures Render(false, ["..", "..", "b"]) == "../../b"
  {
    assert ["..", "..", "b"][..2] == ["..", ".."] && ["..", ".."][..1] == [".."];
    assert Render(false, [".."]) == "..";
    assert Render(false, ["..", ".."]) == "../..";
  }

  /** From the base `/a/c/` the relative path of `/a/b` climbs one step too many. */
  lemma BaseSeparatorIsCounted()
    ensures LexicallyRelativeOf("/a/b", "/a/c/") == "../../b" && Append("/a/c/", "../../b") == "/a/c/../../b"
    ensures Resolve([], Names("/a/c/../../b")) == ["b"] && Names("/a/b") == ["a", "b"]
  {
    hide Names, Elements, LexicallyRelativeOf, Resolve, CommonLength, Repeat, Render;
    NamesOfTwo("a", "b");
    NamesOfTwo("a", "c");
    assert "/a/b" == "/" + "a" + "/" + "b" && "/a/c/" == "/" + "a" + "/" + "c" + "/";
    SharedOfTwo();
    RelativeText("/a/b", "/a/c/");
    RelativeNames("/a/b", "/a/c/");
    assert ["/", "a", "b"][2..] == ["b"];
    NamesOfName("b");
    assert NonEmpty(["b"]) == ["b"];
    ClimbOneTooMany();
    TextOfThree();
    NamesOfAppend("/a/c/", "../../b");
    assert Append("/a/c/", "../../b") == "/a/c/../../b";
  }
}
