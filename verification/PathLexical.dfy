/** What the lexical operations on a path compute, and what they mean. */
module PathLexical {
  import opened PathElements
  import opened PathNames

  const DOT := "."
  const DOT_DOT := ".."
  const ROOT := "/"

  // ----- The operations on the text

  function RelativePathOf(fp: string): string {
    if IsAbsolute(fp) then Join(Elements(fp)[1..]) else fp
  }

  function ParentPathOf(fp: string): string {
    var es := Elements(fp);
    if |es| <= 1 then "" else Join(es[..|es| - 1])
  }

  function ObjectNameOf(fp: string): string {
    var es := Elements(fp);
    if RelativePathOf(fp) == "" || es == [] then "" else es[|es| - 1]
  }

  /** Path equality compares element by element. */
  predicate SamePath(p: string, q: string) {
    Elements(p) == Elements(q)
  }

  function NormalStep(p: string, e: string): string {
    if SamePath(ObjectNameOf(e), DOT) then p else
    if SamePath(ObjectNameOf(e), DOT_DOT) then WithoutObjectName(p) else
    Append(p, e)
  }

  function NormalOnto(p: string, es: seq<string>): string
    decreases |es|
  {
    if es == [] then p else NormalOnto(NormalStep(p, es[0]), es[1..])
  }

  function LexicallyNormalOf(fp: string): string {
    NormalOnto("", Elements(fp))
  }

  function Repeat(e: string, n: nat): seq<string> {
    if n == 0 then [] else [e] + Repeat(e, n - 1)
  }

  function CommonLength(es: seq<string>, fs: seq<string>): (c: nat)
    ensures c <= |es| && c <= |fs|
    ensures es[..c] == fs[..c]
    ensures c < |es| && c < |fs| ==> es[c] != fs[c]
  {
    if es == [] || fs == [] || es[0] != fs[0] then 0 else 1 + CommonLength(es[1..], fs[1..])
  }

  function LexicallyRelativeOf(p: string, base: string): string {
    var es, bs := Elements(p), Elements(base);
    var c := CommonLength(es, bs);
    if c == |es| && c == |bs| then DOT else
    JoinOnto(Join(Repeat(DOT_DOT, |bs| - c)), es[c..])
  }

  // ----- Parent and object name

  lemma {:induction false} LastCharacterBelongsToName(s: string)
    requires s != "" && s[|s| - 1] != SEPARATOR
    ensures Names(s) != []
    decreases |s|
  {
    if s[0] == SEPARATOR {
      LastCharacterBelongsToName(s[1..]);
    }
  }

  lemma NoNames(fp: string)
    requires Names(fp) == [] && !EndsWithSeparator(fp)
    ensures fp == "" || fp == ROOT
  {
    if fp != "" && fp[|fp| - 1] != SEPARATOR {
      LastCharacterBelongsToName(fp);
    }
  }

  /** What is below the root is its names with single separators; a relative path stays as it is. */
  lemma RelativePathShape(fp: string)
    ensures RelativePathOf(fp) == if IsAbsolute(fp) then Render(false, Names(fp)) else fp
    ensures IsAbsolute(fp) ==> Append(ROOT, RelativePathOf(fp)) == Join(Elements(fp))
  {
    if IsAbsolute(fp) {
      hide Names, NonEmpty, Render;
      ElementsAreNames(fp);
      NamesAreNames(fp);
      var below := Elements(fp)[1..];
      assert below == Names(fp) + TrailingPart(fp);
      JoinOntoRendered(false, [], below);
      NonEmptyElements(fp);
      assert [] + Names(fp) == Names(fp);
      JoinOfElements(fp);
      RenderShape(false, Names(fp));
      RootedRender(Names(fp));
    }
  }

  lemma {:induction false} RootedRender(ns: seq<string>)
    requires AreNames(ns)
    ensures Render(true, ns) == ROOT + Render(false, ns)
    decreases |ns|
  {
    if |ns| > 1 {
      assert forall m :: m in ns[..|ns| - 1] ==> m in ns;
      RootedRender(ns[..|ns| - 1]);
    }
  }

  /** A path is empty below the root exactly when it has no names. */
  lemma NothingBelowRoot(fp: string)
    ensures RelativePathOf(fp) == "" <==> Names(fp) == []
  {
    if IsAbsolute(fp) {
      hide Names;
      NamesAreNames(fp);
      RelativePathShape(fp);
      RenderShape(false, Names(fp));
    } else if fp != "" {
      assert RunEnd(fp, 0) > 0;
    }
  }

  lemma ObjectNameShape(fp: string)
    ensures ObjectNameOf(fp) == if Names(fp) == [] || EndsWithSeparator(fp) then "" else Names(fp)[|Names(fp)| - 1]
  {
    hide Names, RelativePathOf;
    NothingBelowRoot(fp);
    ElementsAreNames(fp);
  }

  /** The names among all elements but the last. */
  lemma NamesBeforeLast(fp: string)
    requires |Elements(fp)| > 1
    ensures var es, ns := Elements(fp), Names(fp); var init := es[..|es| - 1];
            (EndsWithSeparator(fp) || ns != []) &&
            NonEmpty(if IsAbsolute(fp) then init[1..] else init) ==
              if EndsWithSeparator(fp) then ns else ns[..|ns| - 1]
  {
    var es, ns := Elements(fp), Names(fp);
    ElementsAreNames(fp);
    NamesAreNames(fp);
    var names := if EndsWithSeparator(fp) then ns else ns[..|ns| - 1];
    var init := es[..|es| - 1];
    assert (if IsAbsolute(fp) then init[1..] else init) == names;
    assert AreNames(names) by { assert forall n :: n in names ==> n in ns; }
    NonEmptyOfNames(names, []);
    assert names + [] == names;
  }

  lemma ParentShape(fp: string)
    ensures ParentPathOf(fp) ==
            if EndsWithSeparator(fp) then Render(IsAbsolute(fp), Names(fp)) else
            if Names(fp) == [] then "" else
            Render(IsAbsolute(fp), Names(fp)[..|Names(fp)| - 1])
  {
    hide Names, NonEmpty, JoinOnto;
    var es, ns := Elements(fp), Names(fp);
    ElementsAreNames(fp);
    if |es| > 1 {
      JoinOfSlice(fp, |es| - 1);
      NamesBeforeLast(fp);
    } else if EndsWithSeparator(fp) {
      assert !IsAbsolute(fp) && ns == [];
      LastSeparatorFollowsName(fp);
    }
  }

  lemma LastSeparatorFollowsName(fp: string)
    requires EndsWithSeparator(fp) && !IsAbsolute(fp)
    ensures Names(fp) != []
  {
    assert RunEnd(fp, 0) > 0;
  }

  lemma AppendLastName(root: bool, ns: seq<string>)
    requires AreNames(ns) && ns != []
    ensures Append(Render(root, ns[..|ns| - 1]), ns[|ns| - 1]) == Render(root, ns)
  {
    var init, n := ns[..|ns| - 1], ns[|ns| - 1];
    assert n in ns && ns == init + [n];
    assert AreNames(init) by { assert forall m :: m in init ==> m in ns; }
    RenderSnoc(root, init, n);
  }

  /** Parent and object name put together give the path respelled with single separators, for
      every path but the root itself. */
  lemma ParentAndObjectName(fp: string)
    ensures Append(ParentPathOf(fp), ObjectNameOf(fp)) == Join(Elements(fp)) <==> fp != ROOT
  {
    var ns, root := Names(fp), IsAbsolute(fp);
    var parent, name, joined := ParentPathOf(fp), ObjectNameOf(fp), Join(Elements(fp));
    assert parent == if EndsWithSeparator(fp) then Render(root, ns) else
                     if ns == [] then "" else Render(root, ns[..|ns| - 1]) by { ParentShape(fp); }
    assert name == if ns == [] || EndsWithSeparator(fp) then "" else ns[|ns| - 1] by { ObjectNameShape(fp); }
    assert joined == Render(root, ns) by { JoinOfElements(fp); }
    if EndsWithSeparator(fp) {
    } else if ns == [] {
      NoNames(fp);
    } else {
      NamesAreNames(fp);
      AppendLastName(root, ns);
    }
  }

  /** The respelled path has single separators, none at the end, and the same elements but for
      the empty one after a trailing separator. */
  lemma RespelledPath(fp: string)
    ensures IsCanonical(Join(Elements(fp)))
    ensures Elements(fp) == Elements(Join(Elements(fp))) + TrailingPart(fp)
  {
    JoinOfElements(fp);
    NamesAreNames(fp);
    RenderShape(IsAbsolute(fp), Names(fp));
    ElementsOfRender(IsAbsolute(fp), Names(fp));
    ElementsAreNames(fp);
  }

  // ----- Parents get shorter

  /** Room taken by names, each followed by a separator. */
  function Room(ns: seq<string>): nat {
    if ns == [] then 0 else |ns[0]| + 1 + Room(ns[1..])
  }

  lemma {:induction false} RoomSnoc(ns: seq<string>, n: string)
    ensures Room(ns + [n]) == Room(ns) + |n| + 1
    decreases |ns|
  {
    if ns == [] {
      assert [n][1..] == [];
    } else {
      assert (ns + [n])[1..] == ns[1..] + [n];
      RoomSnoc(ns[1..], n);
    }
  }

  lemma {:induction false} RenderLength(root: bool, ns: seq<string>)
    ensures |Render(root, ns)| == |RootText(root)| + if ns == [] then 0 else Room(ns) - 1
    decreases |ns|
  {
    if ns != [] {
      var init, n := ns[..|ns| - 1], ns[|ns| - 1];
      assert ns == init + [n];
      RoomSnoc(init, n);
      RenderLength(root, init);
    }
  }

  function SeparatorAt(s: string, i: nat): nat {
    if i < |s| && s[i] == SEPARATOR then 1 else 0
  }

  lemma {:induction false} NamesFitInText(s: string)
    requires s != ""
    ensures Room(Names(s)) + SeparatorAt(s, 0) + SeparatorAt(s, |s| - 1) <= |s| + 1
    decreases |s|
  {
    if s[0] == SEPARATOR {
      if |s| > 1 {
        NamesFitInText(s[1..]);
      }
    } else {
      var e := RunEnd(s, 0);
      assert Names(s) == [s[..e]] + Names(s[e..]);
      assert Names(s)[1..] == Names(s[e..]);
      if e < |s| {
        NamesFitInText(s[e..]);
      } else {
        assert s[e..] == "";
      }
    }
  }

  /** Going to the parent shortens every non-empty path, so it ends at the empty one. */
  lemma ParentIsShorter(fp: string)
    requires fp != ""
    ensures |ParentPathOf(fp)| < |fp|
  {
    var ns, root := Names(fp), IsAbsolute(fp);
    ParentShape(fp);
    NamesFitInText(fp);
    RenderLength(root, ns);
    if ns != [] && !EndsWithSeparator(fp) {
      NamesAreNames(fp);
      assert ns[|ns| - 1] in ns;
    }
  }

  function ParentSteps(fp: string): nat
    decreases |fp|
  {
    if fp == "" then 0 else
    ParentIsShorter(fp);
    1 + ParentSteps(ParentPathOf(fp))
  }

  /** The chain of parents has one step for each element. */
  lemma {:induction false} ParentStepsAreElements(fp: string)
    ensures ParentSteps(fp) == |Elements(fp)|
    decreases |fp|
  {
    if fp != "" {
      var ns, root := Names(fp), IsAbsolute(fp);
      ParentIsShorter(fp);
      ParentStepsAreElements(ParentPathOf(fp));
      ParentShape(fp);
      NamesAreNames(fp);
      ElementsAreNames(fp);
      if EndsWithSeparator(fp) {
        ElementsOfRender(root, ns);
      } else if ns == [] {
        NoNames(fp);
      } else {
        assert AreNames(ns[..|ns| - 1]);
        ElementsOfRender(root, ns[..|ns| - 1]);
      }
    }
  }

  // ----- Normal form against a stack of names

  /** What a reader expects: names are pushed, ".." takes the last one off, "." does nothing. */
  function Resolve(st: seq<string>, ns: seq<string>): seq<string>
    decreases |ns|
  {
    if ns == [] then st else Resolve(Resolved(st, ns[0]), ns[1..])
  }

  function Resolved(st: seq<string>, n: string): seq<string> {
    if n == DOT then st else
    if n != DOT_DOT then st + [n] else
    if st == [] then [] else st[..|st| - 1]
  }

  /** What the code does instead: names with a flag for a separator left behind by a removal.
      While it stands, ".." removes nothing; nor does it ever remove a relative path's first name. */
  datatype Partial = Partial(names: seq<string>, open: bool)

  function Floor(root: bool): nat {
    if root then 0 else 1
  }

  function Removed(root: bool, m: Partial): Partial {
    if m.open || |m.names| <= Floor(root) then m else Partial(m.names[..|m.names| - 1], |m.names| > 1)
  }

  function Taken(root: bool, m: Partial, n: string): Partial {
    if n == DOT then m else if n == DOT_DOT then Removed(root, m) else Partial(m.names + [n], false)
  }

  function Run(root: bool, m: Partial, ns: seq<string>): Partial
    decreases |ns|
  {
    if ns == [] then m else Run(root, Taken(root, m, ns[0]), ns[1..])
  }

  predicate IsPartial(m: Partial) {
    AreNames(m.names) && (m.open ==> m.names != [])
  }

  function PartialText(root: bool, m: Partial): string {
    Render(root, m.names) + if m.open then [SEPARATOR] else ""
  }

  lemma ElementsOfSingle(e: string)
    requires IsName(e)
    ensures Elements(e) == [e]
  {
    NamesOfName(e);
    ElementsAreNames(e);
  }

  /** On a single element the comparison of object names is comparison of text. */
  lemma ObjectNameOfElement(e: string)
    requires e == "" || IsName(e)
    ensures SamePath(ObjectNameOf(e), DOT) <==> e == DOT
    ensures SamePath(ObjectNameOf(e), DOT_DOT) <==> e == DOT_DOT
  {
    ElementsOfSingle(DOT);
    ElementsOfSingle(DOT_DOT);
    if e != "" {
      ElementsOfSingle(e);
    }
  }

  lemma RemovalFromRendered(root: bool, ns: seq<string>)
    requires AreNames(ns) && ns != []
    ensures WithoutObjectName(Render(root, ns)) ==
            if |ns| > 1 then Render(root, ns[..|ns| - 1]) + [SEPARATOR] else
            if root then ROOT else ns[0]
  {
    var n, text := ns[|ns| - 1], Render(root, ns);
    assert n in ns;
    var before := if |ns| > 1 then Render(root, ns[..|ns| - 1]) + [SEPARATOR] else RootText(root);
    assert text == before + n;
    assert forall k :: |before| <= k < |text| ==> text[k] == n[k - |before|] && text[k] in n;
    if before != "" {
      assert text[|before| - 1] == SEPARATOR;
      assert LastSeparator(text) == |before| - 1;
      assert text[..|before|] == before;
    } else {
      assert LastSeparator(text) < 0;
    }
  }

  lemma PushOnPartial(root: bool, m: Partial, n: string)
    requires IsPartial(m) && IsName(n)
    ensures Append(PartialText(root, m), n) == Render(root, m.names + [n])
    ensures AreNames(m.names + [n])
  {
    RenderSnoc(root, m.names, n);
    if m.names != [] {
      RenderShape(root, m.names);
    }
  }

  lemma PopFromPartial(root: bool, m: Partial)
    requires IsPartial(m)
    ensures WithoutObjectName(PartialText(root, m)) ==
            PartialText(root, Removed(root, m))
  {
    var p, ns := PartialText(root, m), m.names;
    if m.open {
      assert LastSeparator(p) == |p| - 1;
    } else {
      assert p == Render(root, ns);
      if ns == [] {
        assert p == RootText(root);
      } else {
        RemovalFromRendered(root, ns);
        assert |ns| == 1 ==> ns[..0] == [];
      }
    }
  }

  lemma StepOnPartial(root: bool, m: Partial, e: string)
    requires IsPartial(m) && IsName(e)
    ensures IsPartial(Taken(root, m, e))
    ensures NormalStep(PartialText(root, m), e) == PartialText(root, Taken(root, m, e))
  {
    var p := PartialText(root, m);
    ObjectNameOfElement(e);
    if e == DOT {
    } else if e == DOT_DOT {
      PopFromPartial(root, m);
    } else {
      PushOnPartial(root, m, e);
    }
  }

  lemma {:induction false} NormalOntoPartial(root: bool, m: Partial, es: seq<string>)
    requires IsPartial(m) && AreNamesOrEmpty(es)
    ensures IsPartial(Run(root, m, NonEmpty(es)))
    ensures NormalOnto(PartialText(root, m), es) == PartialText(root, Run(root, m, NonEmpty(es)))
    decreases |es|
  {
    if es != [] {
      var e, rest := es[0], es[1..];
      assert e in es;
      assert AreNamesOrEmpty(rest) by { assert forall f :: f in rest ==> f in es; }
      if e == "" {
        ObjectNameOfElement(e);
        assert NonEmpty(es) == NonEmpty(rest);
        NormalOntoPartial(root, m, rest);
      } else {
        StepOnPartial(root, m, e);
        assert NonEmpty(es)[1..] == NonEmpty(rest);
        NormalOntoPartial(root, Taken(root, m, e), rest);
      }
    }
  }

  lemma NormalOntoFirst(p: string, e: string, es: seq<string>)
    ensures NormalOnto(p, [e] + es) == NormalOnto(NormalStep(p, e), es)
  {
    assert ([e] + es)[1..] == es;
  }

  lemma NormalFromRoot()
    ensures NormalStep("", ROOT) == ROOT == PartialText(true, Partial([], false))
    ensures PartialText(false, Partial([], false)) == ""
  {
    RootIsNoDot();
  }

  lemma NormalText(fp: string)
    ensures var m := Run(IsAbsolute(fp), Partial([], false), Names(fp));
            IsPartial(m) && LexicallyNormalOf(fp) == PartialText(IsAbsolute(fp), m)
  {
    hide Names, NonEmpty, Run, NormalOnto, NormalStep, PartialText, TrailingPart, Elements;
    var after := Names(fp) + TrailingPart(fp);
    ElementsAreNames(fp);
    NamesAreNames(fp);
    NonEmptyElements(fp);
    TrailingIsEmpty(fp);
    NormalOntoPartial(IsAbsolute(fp), Partial([], false), after);
    NormalFromRoot();
    if IsAbsolute(fp) {
      assert Elements(fp) == [ROOT] + after;
      NormalOntoFirst("", ROOT, after);
    } else {
      assert Elements(fp) == after;
    }
  }

  lemma TrailingIsEmpty(fp: string)
    ensures forall e :: e in TrailingPart(fp) ==> e == ""
  {
  }

  lemma RootIsNoDot()
    ensures ObjectNameOf(ROOT) == ""
  {
    assert Names(ROOT) == [] by { assert ROOT[1..] == ""; }
    ObjectNameShape(ROOT);
    ElementsOfSingle(DOT);
    ElementsOfSingle(DOT_DOT);
  }

  lemma PartialTextShape(root: bool, m: Partial)
    requires IsPartial(m)
    ensures Names(PartialText(root, m)) == m.names
    ensures IsAbsolute(PartialText(root, m)) == root
  {
    var text := Render(root, m.names);
    RenderShape(root, m.names);
    NamesOfRender(root, m.names);
    if m.open {
      NamesOfConcat(text, [SEPARATOR]);
      assert Names([SEPARATOR]) == [] by { assert [SEPARATOR][1..] == ""; }
    } else {
      assert text + "" == text;
    }
  }

  /** Reading the names once, counting depth: no ".." comes directly after another (dots aside)
      while a name is left, and in a relative path none meets the first name. */
  predicate NothingLeftBehind(root: bool, depth: nat, open: bool, ns: seq<string>)
    decreases |ns|
  {
    if ns == [] then true else
    if ns[0] == DOT then NothingLeftBehind(root, depth, open, ns[1..]) else
    if ns[0] != DOT_DOT then NothingLeftBehind(root, depth + 1, false, ns[1..]) else
    if depth == 0 then NothingLeftBehind(root, 0, open, ns[1..]) else
    !open && depth > Floor(root) && NothingLeftBehind(root, depth - 1, depth > 1, ns[1..])
  }

  lemma {:induction false} RunIsResolution(root: bool, m: Partial, ns: seq<string>)
    requires m.open ==> m.names != []
    ensures NothingLeftBehind(root, |m.names|, m.open, ns) ==> Run(root, m, ns).names == Resolve(m.names, ns)
    decreases |ns|
  {
    if ns != [] {
      RunIsResolution(root, Taken(root, m, ns[0]), ns[1..]);
    }
  }

  /** Once the code keeps more names than the stack, it keeps more for good. */
  lemma {:induction false} RunStaysAhead(root: bool, m: Partial, st: seq<string>, ns: seq<string>)
    requires |m.names| > |st| && (m.open || st != [] || |m.names| <= Floor(root))
    ensures |Run(root, m, ns).names| > |Resolve(st, ns)|
    decreases |ns|
  {
    if ns != [] {
      RunStaysAhead(root, Taken(root, m, ns[0]), Resolved(st, ns[0]), ns[1..]);
    }
  }

  lemma {:induction false} RunIsNotResolution(root: bool, m: Partial, ns: seq<string>)
    requires m.open ==> m.names != []
    requires !NothingLeftBehind(root, |m.names|, m.open, ns)
    ensures |Run(root, m, ns).names| > |Resolve(m.names, ns)|
    decreases |ns|
  {
    var n, rest := ns[0], ns[1..];
    if n == DOT_DOT && m.names != [] && (m.open || |m.names| <= Floor(root)) {
      RunStaysAhead(root, m, Resolved(m.names, n), rest);
    } else {
      RunIsNotResolution(root, Taken(root, m, n), rest);
    }
  }

  /** `lexically_normal` resolves "." and ".." like a stack exactly when nothing is left behind;
      the result keeps the root. */
  lemma NormalIsResolution(fp: string)
    ensures IsAbsolute(LexicallyNormalOf(fp)) == IsAbsolute(fp)
    ensures Names(LexicallyNormalOf(fp)) == Resolve([], Names(fp))
            <==> NothingLeftBehind(IsAbsolute(fp), 0, false, Names(fp))
  {
    var root, start, ns := IsAbsolute(fp), Partial([], false), Names(fp);
    NormalText(fp);
    PartialTextShape(root, Run(root, start, ns));
    if NothingLeftBehind(root, 0, false, ns) {
      RunIsResolution(root, start, ns);
    } else {
      RunIsNotResolution(root, start, ns);
    }
  }

  /** Two ".." with nothing but dots between them, the first with two names or more before it. */
  predicate Meet(st: seq<string>, ns: seq<string>, i: nat, j: nat) {
    && i < j < |ns| && ns[i] == DOT_DOT && ns[j] == DOT_DOT
    && (forall k :: i < k < j ==> ns[k] == DOT)
    && |Resolve(st, ns[..i])| >= 2
  }

  predicate IsFirstAfterDots(ns: seq<string>, j: nat) {
    j < |ns| && ns[j] == DOT_DOT && forall k :: 0 <= k < j ==> ns[k] == DOT
  }

  ghost predicate SomeMeet(st: seq<string>, ns: seq<string>) {
    exists i: nat, j: nat :: Meet(st, ns, i, j)
  }

  ghost predicate BeginsWithDotDot(ns: seq<string>) {
    exists j: nat :: IsFirstAfterDots(ns, j)
  }

  lemma BeginsNext(ns: seq<string>)
    requires ns != []
    ensures BeginsWithDotDot(ns) <==> ns[0] == DOT_DOT || (ns[0] == DOT && BeginsWithDotDot(ns[1..]))
  {
    if j: nat :| IsFirstAfterDots(ns, j) && j > 0 {
      assert IsFirstAfterDots(ns[1..], j - 1);
    }
    if j: nat :| IsFirstAfterDots(ns[1..], j) && ns[0] == DOT {
      assert IsFirstAfterDots(ns, j + 1);
    }
    if ns[0] == DOT_DOT {
      assert IsFirstAfterDots(ns, 0);
    }
  }

  lemma MeetNext(st: seq<string>, ns: seq<string>, i: nat, j: nat)
    requires ns != [] && 0 < i < j < |ns|
    ensures Meet(st, ns, i, j) <==> Meet(Resolved(st, ns[0]), ns[1..], i - 1, j - 1)
  {
    assert ns[..i] == [ns[0]] + ns[1..][..i - 1];
    FirstOfResolve(st, ns[0], ns[1..][..i - 1]);
    assert forall k :: 0 < k < |ns| ==> ns[k] == ns[1..][k - 1];
    hide Resolve, Resolved;
    if Meet(Resolved(st, ns[0]), ns[1..], i - 1, j - 1) {
      assert forall k :: i < k < j ==> ns[k] == ns[1..][k - 1];
    }
  }

  lemma MeetFirst(st: seq<string>, ns: seq<string>, j: nat)
    requires ns != [] && 0 < j
    ensures Meet(st, ns, 0, j) <==> ns[0] == DOT_DOT && |st| >= 2 && IsFirstAfterDots(ns[1..], j - 1)
  {
    assert ns[..0] == [];
    if IsFirstAfterDots(ns[1..], j - 1) {
      assert forall k :: 0 < k < j ==> ns[k] == ns[1..][k - 1];
    }
  }

  lemma SomeMeetNext(st: seq<string>, ns: seq<string>)
    requires ns != []
    ensures SomeMeet(st, ns) <==>
              || SomeMeet(Resolved(st, ns[0]), ns[1..])
              || (ns[0] == DOT_DOT && |st| >= 2 && BeginsWithDotDot(ns[1..]))
  {
    hide Resolve, Resolved, Meet, IsFirstAfterDots;
    var rest, next := ns[1..], Resolved(st, ns[0]);
    if i: nat, j: nat :| Meet(st, ns, i, j) {
      MeetInRange(st, ns, i, j);
      if i == 0 {
        MeetFirst(st, ns, j);
      } else {
        MeetNext(st, ns, i, j);
      }
    }
    if i: nat, j: nat :| Meet(next, rest, i, j) {
      MeetInRange(next, rest, i, j);
      MeetNext(st, ns, i + 1, j + 1);
    }
    if j: nat :| IsFirstAfterDots(rest, j) && ns[0] == DOT_DOT && |st| >= 2 {
      MeetFirst(st, ns, j + 1);
    }
  }

  lemma MeetInRange(st: seq<string>, ns: seq<string>, i: nat, j: nat)
    requires Meet(st, ns, i, j)
    ensures i < j < |ns|
  {
  }

  lemma {:induction false} LeftBehindByMeeting(st: seq<string>, open: bool, ns: seq<string>)
    requires open ==> st != []
    ensures NothingLeftBehind(true, |st|, open, ns) <==> !(open && BeginsWithDotDot(ns)) && !SomeMeet(st, ns)
    decreases |ns|
  {
    hide SomeMeet, BeginsWithDotDot;
    if ns == [] {
      NothingMeets(st);
    } else {
      SomeMeetNext(st, ns);
      BeginsNext(ns);
      var next := Resolved(st, ns[0]);
      LeftBehindByMeeting(next, if ns[0] == DOT then open else ns[0] == DOT_DOT && |st| > 1, ns[1..]);
    }
  }

  lemma NothingMeets(st: seq<string>)
    ensures !SomeMeet(st, []) && !BeginsWithDotDot([])
  {
  }

  /** For an absolute path that condition is one on the text alone: no two ".." stand with nothing
      but dots between them where the first still has two names to take from. */
  lemma NormalOfAbsoluteIsResolution(fp: string)
    requires IsAbsolute(fp)
    ensures Names(LexicallyNormalOf(fp)) == Resolve([], Names(fp))
            <==> !exists i: nat, j: nat :: Meet([], Names(fp), i, j)
  {
    hide Names, LexicallyNormalOf, Resolve, NothingLeftBehind, Meet;
    NormalIsResolution(fp);
    LeftBehindByMeeting([], false, Names(fp));
  }

  lemma {:induction false} RunHasNoDots(root: bool, m: Partial, ns: seq<string>)
    requires DOT !in m.names && DOT_DOT !in m.names
    ensures DOT !in Run(root, m, ns).names && DOT_DOT !in Run(root, m, ns).names
    decreases |ns|
  {
    if ns != [] {
      RunHasNoDots(root, Taken(root, m, ns[0]), ns[1..]);
    }
  }

  /** Whatever the path, its normal form has no dots left. */
  lemma NormalHasNoDots(fp: string)
    ensures DOT !in Elements(LexicallyNormalOf(fp)) && DOT_DOT !in Elements(LexicallyNormalOf(fp))
  {
    var m := Run(IsAbsolute(fp), Partial([], false), Names(fp));
    NormalText(fp);
    PartialTextShape(IsAbsolute(fp), m);
    RunHasNoDots(IsAbsolute(fp), Partial([], false), Names(fp));
    ElementsAreNames(LexicallyNormalOf(fp));
  }

  /** The last name that is not "." is "..". */
  predicate EndsWithDotDot(ns: seq<string>) {
    ns != [] && (ns[|ns| - 1] == DOT_DOT || (ns[|ns| - 1] == DOT && EndsWithDotDot(ns[..|ns| - 1])))
  }

  /** How many of the names are ordinary ones. */
  function OrdinaryNames(ns: seq<string>): nat {
    if ns == [] then 0 else
    OrdinaryNames(ns[..|ns| - 1]) + if ns[|ns| - 1] == DOT || ns[|ns| - 1] == DOT_DOT then 0 else 1
  }

  lemma {:induction false} RunLast(root: bool, m: Partial, ns: seq<string>)
    requires ns != []
    ensures Run(root, m, ns) == Taken(root, Run(root, m, ns[..|ns| - 1]), ns[|ns| - 1])
    decreases |ns|
  {
    hide Taken;
    if |ns| == 1 {
      assert ns[1..] == [];
    } else {
      RunLast(root, Taken(root, m, ns[0]), ns[1..]);
      assert ns[..|ns| - 1][1..] == ns[1..][..|ns| - 2];
    }
  }

  /** When a separator is left behind by the last removal. */
  lemma {:induction false} OpenMeans(root: bool, ns: seq<string>)
    ensures var m := Run(root, Partial([], false), ns);
            && (m.open <==> EndsWithDotDot(ns) && if root then m.names != [] else OrdinaryNames(ns) >= 2)
            && (!root ==> (if OrdinaryNames(ns) < 2 then |m.names| == OrdinaryNames(ns) else m.names != []))
            && (!root && OrdinaryNames(ns) >= 2 && !m.open ==> |m.names| >= 2)
    decreases |ns|
  {
    hide Run;
    if ns == [] {
      RunOfNothing(root);
    } else {
      RunLast(root, Partial([], false), ns);
      OpenMeans(root, ns[..|ns| - 1]);
    }
  }

  lemma RunOfNothing(root: bool)
    ensures Run(root, Partial([], false), []) == Partial([], false)
  {
  }

  /** The text of a normal form is its root and names with single separators. One more stands at the
      end exactly when the path ends with "..", but for dots, and, if it is absolute, names are left,
      or, if it is relative, it had two ordinary names. */
  lemma NormalShape(fp: string)
    ensures var normal, ns := LexicallyNormalOf(fp), Names(fp);
            var more := if IsAbsolute(fp) then Names(normal) != [] else OrdinaryNames(ns) >= 2;
            && AreNames(Names(normal))
            && normal == Render(IsAbsolute(fp), Names(normal)) + if EndsWithDotDot(ns) && more then [SEPARATOR] else ""
  {
    hide Names, Run, LexicallyNormalOf, Render, EndsWithDotDot, OrdinaryNames;
    NormalText(fp);
    OpenMeans(IsAbsolute(fp), Names(fp));
    PartialTextShape(IsAbsolute(fp), Run(IsAbsolute(fp), Partial([], false), Names(fp)));
  }

  /** Every ".." is separated from the one before it by an ordinary name. */
  predicate DotDotsAreSpaced(afterDotDot: bool, ns: seq<string>)
    decreases |ns|
  {
    if ns == [] then true else
    if ns[0] == DOT then DotDotsAreSpaced(afterDotDot, ns[1..]) else
    if ns[0] != DOT_DOT then DotDotsAreSpaced(false, ns[1..]) else
    !afterDotDot && DotDotsAreSpaced(true, ns[1..])
  }

  /** Spacing is enough in an absolute path. */
  lemma {:induction false} SpacedDotDotsLeaveNothing(depth: nat, open: bool, afterDotDot: bool, ns: seq<string>)
    requires DotDotsAreSpaced(afterDotDot, ns) && (open ==> afterDotDot)
    ensures NothingLeftBehind(true, depth, open, ns)
    decreases |ns|
  {
    if ns != [] {
      if ns[0] == DOT {
        SpacedDotDotsLeaveNothing(depth, open, afterDotDot, ns[1..]);
      } else if ns[0] != DOT_DOT {
        SpacedDotDotsLeaveNothing(depth + 1, false, false, ns[1..]);
      } else if depth == 0 {
        SpacedDotDotsLeaveNothing(0, open, true, ns[1..]);
      } else {
        SpacedDotDotsLeaveNothing(depth - 1, depth > 1, true, ns[1..]);
      }
    }
  }

  lemma FirstOfRun(root: bool, m: Partial, n: string, ns: seq<string>)
    ensures Run(root, m, [n] + ns) == Run(root, Taken(root, m, n), ns)
  {
    assert ([n] + ns)[1..] == ns;
  }

  lemma FirstOfResolve(st: seq<string>, n: string, ns: seq<string>)
    ensures Resolve(st, [n] + ns) == Resolve(Resolved(st, n), ns)
  {
    assert ([n] + ns)[1..] == ns;
  }

  lemma RunOnAdjacent(a: string, b: string)
    requires a != DOT && a != DOT_DOT && b != DOT && b != DOT_DOT
    ensures Run(true, Partial([], false), [a] + ([b] + ([DOT_DOT] + ([DOT_DOT] + [])))) == Partial([a], true)
  {
    var last: seq<string> := [DOT_DOT] + [];
    var up := [DOT_DOT] + last;
    FirstOfRun(true, Partial([], false), a, [b] + up);
    FirstOfRun(true, Partial([a], false), b, up);
    FirstOfRun(true, Partial([a, b], false), DOT_DOT, last);
    FirstOfRun(true, Partial([a], true), DOT_DOT, []);
    assert [] + [a] == [a] && [a] + [b] == [a, b] && [a, b][..1] == [a];
  }

  lemma ResolveOnAdjacent(a: string, b: string)
    requires a != DOT && a != DOT_DOT && b != DOT && b != DOT_DOT
    ensures Resolve([], [a] + ([b] + ([DOT_DOT] + ([DOT_DOT] + [])))) == []
  {
    var last: seq<string> := [DOT_DOT] + [];
    var up := [DOT_DOT] + last;
    FirstOfResolve([], a, [b] + up);
    FirstOfResolve([a], b, up);
    FirstOfResolve([a, b], DOT_DOT, last);
    FirstOfResolve([a], DOT_DOT, []);
    assert [] + [a] == [a] && [a] + [b] == [a, b] && [a, b][..1] == [a] && [a][..0] == [];
  }

  /** "/a/b/../.." comes out with its first name still there, whatever the two names. */
  lemma AdjacentDotDotsKeepName(a: string, b: string)
    requires IsName(a) && IsName(b) && a != DOT && a != DOT_DOT && b != DOT && b != DOT_DOT
    ensures var ns := [a, b, DOT_DOT, DOT_DOT];
            Names(LexicallyNormalOf(Render(true, ns))) == [a] && Resolve([], ns) == []
  {
    hide Names, Resolve, Run, Render, LexicallyNormalOf, PartialText, IsCanonical, WithoutObjectName;
    var ns := [a, b, DOT_DOT, DOT_DOT];
    assert ns == [a] + ([b] + ([DOT_DOT] + ([DOT_DOT] + [])));
    RunOnAdjacent(a, b);
    ResolveOnAdjacent(a, b);
    RenderShape(true, ns);
    NamesOfRender(true, ns);
    NormalText(Render(true, ns));
    PartialTextShape(true, Partial([a], true));
  }

  // ----- Relative form

  lemma {:induction false} ResolveConcat(st: seq<string>, ns: seq<string>, ms: seq<string>)
    ensures Resolve(st, ns + ms) == Resolve(Resolve(st, ns), ms)
    decreases |ns|
  {
    if ns == [] {
      assert ns + ms == ms;
    } else {
      assert (ns + ms)[1..] == ns[1..] + ms;
      ResolveConcat(Resolved(st, ns[0]), ns[1..], ms);
    }
  }

  lemma {:induction false} ResolvePlainNames(st: seq<string>, ns: seq<string>)
    requires DOT !in ns && DOT_DOT !in ns
    ensures Resolve(st, ns) == st + ns
    decreases |ns|
  {
    if ns == [] {
      assert st + ns == st;
    } else {
      assert ns[0] in ns;
      ResolvePlainNames(st + [ns[0]], ns[1..]);
      assert st + ns == st + [ns[0]] + ns[1..];
    }
  }

  lemma {:induction false} ResolveRepeated(st: seq<string>, k: nat)
    ensures Resolve(st, Repeat(DOT_DOT, k)) == if k <= |st| then st[..|st| - k] else []
    decreases k
  {
    if k > 0 {
      assert Repeat(DOT_DOT, k)[1..] == Repeat(DOT_DOT, k - 1);
      ResolveRepeated(Resolved(st, DOT_DOT), k - 1);
    }
  }

  lemma {:induction false} RepeatedDotDots(k: nat)
    ensures |Repeat(DOT_DOT, k)| == k
    ensures AreNames(Repeat(DOT_DOT, k))
    ensures NonEmpty(Repeat(DOT_DOT, k)) == Repeat(DOT_DOT, k)
  {
    if k > 0 {
      RepeatedDotDots(k - 1);
      assert Repeat(DOT_DOT, k)[1..] == Repeat(DOT_DOT, k - 1);
    }
  }

  lemma TextOfUpsAndDowns(k: nat, rest: seq<string>)
    requires AreNamesOrEmpty(rest)
    ensures AreNames(Repeat(DOT_DOT, k) + NonEmpty(rest))
    ensures JoinOnto(Join(Repeat(DOT_DOT, k)), rest) == Render(false, Repeat(DOT_DOT, k) + NonEmpty(rest))
  {
    var ups := Repeat(DOT_DOT, k);
    RepeatedDotDots(k);
    JoinOntoRendered(false, [], ups);
    assert [] + ups == ups;
    JoinOntoRendered(false, ups, rest);
    NonEmptyAreNames(rest);
  }

  /** Where the root of the path stands alone, nothing is left of what it is appended to. */
  lemma JoinOntoRoot(fp: string, ups: string)
    requires IsAbsolute(fp)
    ensures JoinOnto(ups, Elements(fp)) == Join(Elements(fp))
  {
    ElementsAreNames(fp);
    assert Elements(fp)[0] == [SEPARATOR];
  }

  lemma OnlyRootsAreShared(p: string, base: string)
    ensures IsAbsolute(p) != IsAbsolute(base) ==> CommonLength(Elements(p), Elements(base)) == 0
    ensures IsAbsolute(p) && IsAbsolute(base) ==> CommonLength(Elements(p), Elements(base)) >= 1
    ensures IsAbsolute(p) == (Elements(p) != [] && Elements(p)[0] == [SEPARATOR])
  {
    ElementsAreNames(p);
    ElementsAreNames(base);
    NamesAreNames(p);
    NamesAreNames(base);
    assert forall n :: n in Names(p) ==> n != [SEPARATOR];
    assert forall n :: n in Names(base) ==> n != [SEPARATOR];
  }

  lemma ElementsBelowRoot(p: string, c: nat)
    requires c <= |Elements(p)| && (IsAbsolute(p) ==> c >= 1)
    ensures AreNamesOrEmpty(Elements(p)[c..])
  {
    ElementsAreNames(p);
    NamesAreNames(p);
  }

  /** The text written for two paths that share their first `c` elements: one ".." for each element
      the base has left, then what the path has left. An absolute path has nothing to share with a
      relative base, and takes the place of what was written before it. */
  lemma RelativeText(p: string, base: string)
    ensures var es, bs := Elements(p), Elements(base); var c := CommonLength(es, bs);
            var ns := Repeat(DOT_DOT, |bs| - c) + NonEmpty(es[c..]);
            LexicallyRelativeOf(p, base) ==
              if c == |es| && c == |bs| then DOT else
              if IsAbsolute(p) && !IsAbsolute(base) then Join(es) else
              Render(false, ns)
  {
    hide Names, Elements, NonEmpty, JoinOnto, Render;
    var es, bs := Elements(p), Elements(base);
    var c := CommonLength(es, bs);
    OnlyRootsAreShared(p, base);
    if IsAbsolute(p) && !IsAbsolute(base) {
      JoinOntoRoot(p, Join(Repeat(DOT_DOT, |bs| - c)));
      assert es[0..] == es;
    } else {
      ElementsBelowRoot(p, c);
      TextOfUpsAndDowns(|bs| - c, es[c..]);
    }
  }

  /** The relative form is a relative path, with single separators and none at the end; only that of
      an absolute path from a relative base is absolute, and then it is the path itself respelled. */
  lemma RelativeShape(p: string, base: string)
    ensures var rel := LexicallyRelativeOf(p, base);
            && IsCanonical(rel)
            && (IsAbsolute(rel) <==> IsAbsolute(p) && !IsAbsolute(base))
            && (IsAbsolute(rel) ==> rel == Join(Elements(p)) == Append(base, rel))
  {
    hide Elements, Render, LexicallyRelativeOf, Repeat, NonEmpty, Join;
    var es, bs := Elements(p), Elements(base);
    var c := CommonLength(es, bs);
    OnlyRootsAreShared(p, base);
    OnlyRootsAreShared(base, p);
    RelativeText(p, base);
    if c == |es| && c == |bs| {
      assert es[..c] == es && bs[..c] == bs;
    } else if IsAbsolute(p) && !IsAbsolute(base) {
      JoinOfElements(p);
      NamesAreNames(p);
      RenderShape(true, Names(p));
    } else {
      ElementsBelowRoot(p, c);
      TextOfUpsAndDowns(|bs| - c, es[c..]);
      RenderShape(false, Repeat(DOT_DOT, |bs| - c) + NonEmpty(es[c..]));
    }
  }

  lemma RelativeNames(p: string, base: string)
    requires IsAbsolute(p) ==> IsAbsolute(base)
    ensures var es, bs := Elements(p), Elements(base); var c := CommonLength(es, bs);
            (IsAbsolute(p) ==> c >= 1) && AreNamesOrEmpty(es[c..]) &&
            Names(LexicallyRelativeOf(p, base)) ==
              if c == |es| && c == |bs| then [DOT] else Repeat(DOT_DOT, |bs| - c) + NonEmpty(es[c..])
  {
    hide Names, Elements, Render, LexicallyRelativeOf, Repeat, NonEmpty, Join;
    var es, bs := Elements(p), Elements(base);
    var c := CommonLength(es, bs);
    OnlyRootsAreShared(p, base);
    RelativeText(p, base);
    ElementsBelowRoot(p, c);
    if c == |es| && c == |bs| {
      NamesOfName(DOT);
    } else {
      TextOfUpsAndDowns(|bs| - c, es[c..]);
      NamesOfRender(false, Repeat(DOT_DOT, |bs| - c) + NonEmpty(es[c..]));
    }
  }

  predicate HasPlainNames(fp: string) {
    DOT !in Names(fp) && DOT_DOT !in Names(fp)
  }

  /** The base ends with a separator that the path does not share: the empty element is then written
      as one ".." too many. It does no harm where there is nothing left to take back. */
  predicate CountsTrailingSeparator(p: string, base: string, st: seq<string>) {
    && EndsWithSeparator(base) && Elements(p) != Elements(base)
    && (st != [] || (Names(p) != [] && Names(base) != [] && Names(p)[0] == Names(base)[0]))
  }

  lemma EmptyElementIsLast(p: string, i: nat)
    requires i < |Elements(p)|
    ensures Elements(p)[i] == "" <==> i == |RootPart(p)| + |Names(p)|
    ensures |RootPart(p)| + |Names(p)| <= |Elements(p)| <= |RootPart(p)| + |Names(p)| + 1
  {
    hide Names;
    ElementsAreNames(p);
    NamesAreNames(p);
    var r := |RootPart(p)|;
    if r <= i < r + |Names(p)| {
      assert Elements(p)[i] == Names(p)[i - r] && Names(p)[i - r] in Names(p);
    }
  }

  /** Only equal paths share more elements than the names of one of them. */
  lemma SharedWithinNames(p: string, base: string)
    requires IsAbsolute(p) == IsAbsolute(base)
    requires var d := CommonLength(Elements(p), Elements(base)) - |RootPart(p)|; d > |Names(p)| || d > |Names(base)|
    ensures Elements(p) == Elements(base)
  {
    hide Names, Elements;
    var es, bs := Elements(p), Elements(base);
    var c := CommonLength(es, bs);
    assert es[c - 1] == es[..c][c - 1] == bs[..c][c - 1] == bs[c - 1];
    EmptyElementIsLast(p, c - 1);
    EmptyElementIsLast(base, c - 1);
    assert es == es[..c] && bs == bs[..c];
  }

  lemma NamesAfterShared(p: string, d: nat)
    requires d <= |Names(p)|
    ensures var r := |RootPart(p)|;
            && d + r <= |Elements(p)| && NonEmpty(Elements(p)[d + r..]) == Names(p)[d..]
            && (d < |Names(p)| ==> d + r < |Elements(p)| && Elements(p)[d + r] == Names(p)[d])
            && Elements(p)[r..d + r] == Names(p)[..d]
  {
    hide Names, Elements, NonEmpty;
    var ns, r := Names(p), |RootPart(p)|;
    ElementsAreNames(p);
    NamesAreNames(p);
    NothingInEmptyElement();
    assert Elements(p)[d + r..] == ns[d..] + TrailingPart(p);
    assert AreNames(ns[d..]) by { assert forall n :: n in ns[d..] ==> n in ns; }
    NonEmptyOfNames(ns[d..], TrailingPart(p));
  }

  lemma NothingInEmptyElement()
    ensures NonEmpty([""]) == [] && NonEmpty([]) == []
  {
    assert [""][1..] == [];
  }

  /** How many names the two paths share, and what is left of the path after them. */
  lemma SharedNames(p: string, base: string) returns (d: nat)
    requires IsAbsolute(p) == IsAbsolute(base) && Elements(p) != Elements(base)
    ensures d + |RootPart(p)| == CommonLength(Elements(p), Elements(base))
    ensures d <= |Names(p)| && d <= |Names(base)| && Names(p)[..d] == Names(base)[..d]
    ensures d < |Names(p)| && d < |Names(base)| ==> Names(p)[d] != Names(base)[d]
    ensures NonEmpty(Elements(p)[d + |RootPart(p)|..]) == Names(p)[d..]
  {
    hide Names, Elements, NonEmpty;
    var es, bs, r := Elements(p), Elements(base), |RootPart(p)|;
    var c := CommonLength(es, bs);
    OnlyRootsAreShared(p, base);
    d := c - r;
    if d > |Names(p)| || d > |Names(base)| {
      SharedWithinNames(p, base);
    }
    NamesAfterShared(p, d);
    NamesAfterShared(base, d);
    assert es[..c][r..] == es[r..c] && bs[..c][r..] == bs[r..c];
  }

  lemma ResolveClimb(ms: seq<string>, k: nat, rest: seq<string>)
    requires DOT !in rest && DOT_DOT !in rest
    ensures Resolve(ms, Repeat(DOT_DOT, k) + rest) == (if k <= |ms| then ms[..|ms| - k] else []) + rest
  {
    ResolveConcat(ms, Repeat(DOT_DOT, k), rest);
    ResolveRepeated(ms, k);
    ResolvePlainNames(if k <= |ms| then ms[..|ms| - k] else [], rest);
  }

  /** Climbing from `ms` to the names shared with `ns`, or one further, and descending again. */
  lemma ClimbAndDescend(ns: seq<string>, ms: seq<string>, d: nat, extra: bool)
    requires d <= |ns| && d <= |ms| && ns[..d] == ms[..d]
    requires DOT !in ns[d..] && DOT_DOT !in ns[d..]
    ensures var k := |ms| - d + if extra then 1 else 0;
            Resolve(ms, Repeat(DOT_DOT, k) + ns[d..]) == ns <==> !(extra && d > 0)
  {
    hide Resolve, Repeat;
    var k := |ms| - d + if extra then 1 else 0;
    var kept := if k <= |ms| then ms[..|ms| - k] else [];
    ResolveClimb(ms, k, ns[d..]);
    assert ns == ns[..d] + ns[d..];
    if extra && d > 0 {
      assert |kept + ns[d..]| != |ns|;
    } else {
      assert kept == ns[..d];
    }
  }

  /** The same from below `st`. */
  lemma ClimbBelow(st: seq<string>, ns: seq<string>, ms: seq<string>, d: nat, extra: bool)
    requires d <= |ns| && d <= |ms| && ns[..d] == ms[..d]
    requires DOT !in ns && DOT_DOT !in ns
    ensures var k := |ms| - d + if extra then 1 else 0;
            Resolve(st + ms, Repeat(DOT_DOT, k) + ns[d..]) == st + ns <==> !(extra && (d > 0 || st != []))
  {
    hide Resolve, Repeat;
    var e := |st| + d;
    assert (st + ns)[e..] == ns[d..] && (st + ns)[..e] == st + ns[..d] && (st + ms)[..e] == st + ms[..d];
    assert forall n :: n in ns[d..] ==> n in ns;
    ClimbAndDescend(st + ns, st + ms, e, extra);
  }

  lemma RestLeadsToPath(p: string, base: string, st: seq<string>)
    requires IsAbsolute(p) == IsAbsolute(base) && HasPlainNames(p) && Elements(p) != Elements(base)
    ensures Resolve(st + Names(base), Names(LexicallyRelativeOf(p, base))) == st + Names(p)
            <==> !CountsTrailingSeparator(p, base, st)
  {
    hide Names, Elements, Resolve, LexicallyRelativeOf, Repeat, CommonLength, NonEmpty;
    var ns, ms := Names(p), Names(base);
    var d := SharedNames(p, base);
    var c := CommonLength(Elements(p), Elements(base));
    RelativeNames(p, base);
    assert |Elements(base)| - c == |ms| - d + if EndsWithSeparator(base) then 1 else 0 by { ElementsAreNames(base); }
    ClimbBelow(st, ns, ms, d, EndsWithSeparator(base));
    if d > 0 {
      assert ns[0] == ns[..d][0] && ms[0] == ms[..d][0];
    }
  }

  lemma DotStays(st: seq<string>)
    ensures Resolve(st, [DOT]) == st
  {
    assert [DOT][1..] == [];
    assert Resolve(st, [DOT]) == Resolve(Resolved(st, DOT), []);
  }

  /** Appending the relative form to the base and following the result from a directory `st` leads to
      where the path leads, exactly when no trailing separator of the base was counted as a name.
      Absolute paths are followed from the root, relative ones from anywhere. */
  lemma RelativeLeadsToPath(p: string, base: string, st: seq<string>)
    requires IsAbsolute(p) == IsAbsolute(base) && HasPlainNames(p) && HasPlainNames(base)
    requires IsAbsolute(p) ==> st == []
    ensures var there := Append(base, LexicallyRelativeOf(p, base));
            && IsAbsolute(there) == IsAbsolute(p)
            && Resolve(st, Names(p)) == st + Names(p)
            && (Resolve(st, Names(there)) == Resolve(st, Names(p)) <==> !CountsTrailingSeparator(p, base, st))
  {
    hide Names, Elements, Resolve, LexicallyRelativeOf, CommonLength, NonEmpty, CountsTrailingSeparator;
    var ms, rel := Names(base), LexicallyRelativeOf(p, base);
    RelativeShape(p, base);
    NamesOfAppend(base, rel);
    ResolveConcat(st, ms, Names(rel));
    ResolvePlainNames(st, ms);
    ResolvePlainNames(st, Names(p));
    if Elements(p) == Elements(base) {
      NamesFollowElements(p, base);
      SharedWithItself(Elements(p));
      RelativeNames(p, base);
      DotStays(st + ms);
      NotCountedWhenEqual(p, base, st);
    } else {
      RestLeadsToPath(p, base, st);
    }
  }

  lemma SharedWithItself(es: seq<string>)
    ensures CommonLength(es, es) == |es|
  {
  }

  lemma NotCountedWhenEqual(p: string, base: string, st: seq<string>)
    ensures Elements(p) == Elements(base) ==> !CountsTrailingSeparator(p, base, st)
  {
  }

  lemma NamesFollowElements(p: string, q: string)
    requires Elements(p) == Elements(q)
    ensures Names(p) == Names(q)
  {
    JoinOfElements(p);
    JoinOfElements(q);
    NamesAreNames(p);
    NamesAreNames(q);
    NamesOfRender(IsAbsolute(p), Names(p));
    NamesOfRender(IsAbsolute(q), Names(q));
  }
}
