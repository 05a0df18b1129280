/** Paths as sequences of names: how text is put together from names and read back. */
module PathNames {
  import opened PathElements

  predicate IsName(n: string) {
    n != "" && SEPARATOR !in n
  }

  predicate AreNames(ns: seq<string>) {
    forall n :: n in ns ==> IsName(n)
  }

  /** An element after the root: a name, or the empty element of a trailing separator. */
  predicate AreNamesOrEmpty(es: seq<string>) {
    forall e :: e in es ==> e == "" || IsName(e)
  }

  /** No separator next to another, and none at the end other than the root. */
  predicate IsCanonical(s: string) {
    && !EndsWithSeparator(s)
    && forall k :: 0 < k < |s| && s[k] == SEPARATOR ==> s[k - 1] != SEPARATOR
  }

  function RootText(root: bool): string {
    if root then [SEPARATOR] else ""
  }

  /** The text with single separators between the names. */
  function Render(root: bool, ns: seq<string>): string {
    if ns == [] then RootText(root) else
    var n := ns[|ns| - 1];
    if |ns| == 1 then RootText(root) + n else Render(root, ns[..|ns| - 1]) + [SEPARATOR] + n
  }

  function NonEmpty(es: seq<string>): seq<string> {
    if es == [] then [] else (if es[0] == "" then [] else [es[0]]) + NonEmpty(es[1..])
  }

  // ----- Text operations

  /** `operator/=` on the text of the two paths. */
  function Append(p: string, e: string): string {
    if e == "" then p else
    if IsAbsolute(e) then e else
    if p == "" || p[|p| - 1] == SEPARATOR || e[0] == SEPARATOR then p + e else
    p + [SEPARATOR] + e
  }

  function JoinOnto(p: string, es: seq<string>): string
    decreases |es|
  {
    if es == [] then p else JoinOnto(Append(p, es[0]), es[1..])
  }

  function Join(es: seq<string>): string {
    JoinOnto("", es)
  }

  function LastSeparator(s: string): (r: int)
    ensures -1 <= r < |s|
    ensures r >= 0 ==> s[r] == SEPARATOR
    ensures forall k :: r < k < |s| ==> s[k] != SEPARATOR
  {
    if s == "" then -1 else
    if s[|s| - 1] == SEPARATOR then |s| - 1 else LastSeparator(s[..|s| - 1])
  }

  /** `remove_object_name`: everything after the last separator goes, the separator stays. */
  function WithoutObjectName(s: string): string {
    if LastSeparator(s) < 0 then s else s[..LastSeparator(s) + 1]
  }

  /** A name after a separator goes and the separator stays; without a separator nothing goes. */
  lemma WithoutObjectNameShape(before: string, n: string)
    requires SEPARATOR !in n
    ensures WithoutObjectName(before + [SEPARATOR] + n) == before + [SEPARATOR]
    ensures WithoutObjectName(n) == n
  {
    var kept, s := before + [SEPARATOR], before + [SEPARATOR] + n;
    assert s[|before|] == SEPARATOR;
    assert forall k :: |before| < k < |s| ==> s[k] == n[k - |kept|];
    assert LastSeparator(s) == |before| && s[..|kept|] == kept;
  }

  // ----- Names of put-together text

  lemma {:induction false} NamesAreNames(s: string)
    ensures AreNames(Names(s))
    decreases |s|
  {
    if s == "" {
    } else if s[0] == SEPARATOR {
      NamesAreNames(s[1..]);
    } else {
      var e := RunEnd(s, 0);
      assert e > 0;
      NamesAreNames(s[e..]);
    }
  }

  lemma NamesOfName(n: string)
    requires IsName(n)
    ensures Names(n) == [n]
  {
    assert RunEnd(n, 0) == |n|;
    assert n[..|n|] == n && n[|n|..] == "";
  }

  lemma RunEndOfConcat(a: string, b: string)
    requires a != "" && b != "" && (a[|a| - 1] == SEPARATOR || b[0] == SEPARATOR)
    ensures RunEnd(a + b, 0) == RunEnd(a, 0)
  {
    hide RunEnd;
    var e, f := RunEnd(a, 0), RunEnd(a + b, 0);
    assert forall k :: 0 <= k < e ==> (a + b)[k] == a[k];
    assert (a + b)[e] == SEPARATOR;
    assert !(f < e) && !(e < f);
  }

  /** Names do not run together across a separator. */
  lemma {:induction false} NamesOfConcat(a: string, b: string)
    requires a == "" || b == "" || a[|a| - 1] == SEPARATOR || b[0] == SEPARATOR
    ensures Names(a + b) == Names(a) + Names(b)
    decreases |a|
  {
    if a == "" {
      assert a + b == b;
    } else if b == "" {
      assert a + b == a;
    } else if a[0] == SEPARATOR {
      assert (a + b)[1..] == a[1..] + b;
      NamesOfConcat(a[1..], b);
    } else {
      var e := RunEnd(a, 0);
      RunEndOfConcat(a, b);
      assert e > 0;
      hide RunEnd;
      assert (a + b)[..e] == a[..e];
      assert (a + b)[e..] == a[e..] + b;
      NamesOfConcat(a[e..], b);
    }
  }

  lemma NamesOfAppend(p: string, e: string)
    requires !IsAbsolute(e)
    ensures Names(Append(p, e)) == Names(p) + Names(e)
  {
    if e != "" && p != "" && p[|p| - 1] != SEPARATOR {
      var q := p + [SEPARATOR];
      NamesOfConcat(p, [SEPARATOR]);
      assert Names([SEPARATOR]) == [] by { assert [SEPARATOR][1..] == ""; }
      NamesOfConcat(q, e);
    } else {
      NamesOfConcat(p, e);
    }
  }

  /** Appending puts names behind names, and an absolute argument in their place. */
  lemma AppendMeans(p: string, e: string)
    ensures Names(Append(p, e)) == if IsAbsolute(e) then Names(e) else Names(p) + Names(e)
    ensures IsAbsolute(e) ==> Append(p, e) == e
    ensures e == "" ==> Append(p, e) == p
    ensures IsAbsolute(Append(p, e)) <==> IsAbsolute(p) || IsAbsolute(e)
    ensures e != "" ==> EndsWithSeparator(Append(p, e)) == (e[|e| - 1] == SEPARATOR && Append(p, e) != [SEPARATOR])
  {
    if !IsAbsolute(e) {
      NamesOfAppend(p, e);
    }
  }

  // ----- Rendered text

  lemma RenderSnoc(root: bool, ns: seq<string>, n: string)
    requires AreNames(ns) && IsName(n)
    ensures AreNames(ns + [n])
    ensures Render(root, ns + [n]) == Append(Render(root, ns), n)
  {
    var ms := ns + [n];
    assert ms[..|ms| - 1] == ns;
    if ns != [] {
      RenderShape(root, ns);
    }
  }

  /** The shape of rendered text. */
  lemma RenderShape(root: bool, ns: seq<string>)
    requires AreNames(ns)
    ensures IsAbsolute(Render(root, ns)) == root
    ensures IsCanonical(Render(root, ns))
    ensures ns != [] ==> Render(root, ns) != "" && Render(root, ns)[|Render(root, ns)| - 1] != SEPARATOR
  {
    if ns != [] {
      var n := ns[|ns| - 1];
      assert n in ns;
      if |ns| > 1 {
        assert forall m :: m in ns[..|ns| - 1] ==> m in ns;
        RenderShape(root, ns[..|ns| - 1]);
      }
    }
  }

  /** Reading rendered names gives them back. */
  lemma {:induction false} NamesOfRender(root: bool, ns: seq<string>)
    requires AreNames(ns)
    ensures Names(Render(root, ns)) == ns
    decreases |ns|
  {
    if ns == [] {
      assert RootText(root) == [SEPARATOR] ==> RootText(root)[1..] == "";
    } else {
      var init, n := ns[..|ns| - 1], ns[|ns| - 1];
      assert n in ns && AreNames(init);
      NamesOfRender(root, init);
      RenderSnoc(root, init, n);
      assert ns == init + [n];
      assert !IsAbsolute(n);
      NamesOfAppend(Render(root, init), n);
      NamesOfName(n);
    }
  }

  /** Rendered text read back element by element: the same root and names and nothing more. */
  lemma ElementsOfRender(root: bool, ns: seq<string>)
    requires AreNames(ns)
    ensures Elements(Render(root, ns)) == (if root then [[SEPARATOR]] else []) + ns
  {
    RenderShape(root, ns);
    NamesOfRender(root, ns);
    ElementsAreNames(Render(root, ns));
  }

  lemma {:induction false} NonEmptyAreNames(es: seq<string>)
    requires AreNamesOrEmpty(es)
    ensures AreNames(NonEmpty(es))
  {
    if es != [] {
      assert es[0] in es;
      assert forall e :: e in es[1..] ==> e in es;
      NonEmptyAreNames(es[1..]);
    }
  }

  lemma {:induction false} JoinOntoRendered(root: bool, ns: seq<string>, es: seq<string>)
    requires AreNames(ns) && AreNamesOrEmpty(es)
    ensures JoinOnto(Render(root, ns), es) == Render(root, ns + NonEmpty(es))
    decreases |es|
  {
    hide Render;
    if es == [] {
      assert ns + NonEmpty(es) == ns;
    } else {
      var e, rest := es[0], es[1..];
      var p := Render(root, ns);
      assert e in es;
      assert AreNamesOrEmpty(rest) by { assert forall e :: e in rest ==> e in es; }
      assert JoinOnto(p, es) == JoinOnto(Append(p, e), rest);
      if e == "" {
        JoinOntoRendered(root, ns, rest);
        assert NonEmpty(es) == NonEmpty(rest);
      } else {
        RenderSnoc(root, ns, e);
        JoinOntoRendered(root, ns + [e], rest);
        assert ns + NonEmpty(es) == ns + [e] + NonEmpty(rest);
      }
    }
  }

  lemma {:induction false} NonEmptyOfNames(ns: seq<string>, es: seq<string>)
    requires AreNames(ns)
    ensures NonEmpty(ns + es) == ns + NonEmpty(es)
    decreases |ns|
  {
    if ns == [] {
      assert ns + es == es;
    } else {
      assert ns[0] in ns;
      assert (ns + es)[1..] == ns[1..] + es;
      NonEmptyOfNames(ns[1..], es);
    }
  }

  lemma NonEmptyElements(fp: string)
    ensures NonEmpty(Names(fp) + TrailingPart(fp)) == Names(fp)
  {
    NamesAreNames(fp);
    NonEmptyOfNames(Names(fp), TrailingPart(fp));
    assert NonEmpty([""]) == [] by { assert [""][1..] == []; }
  }

  /** What joining a whole path's elements gives: single separators, none at the end. */
  lemma JoinOfElements(fp: string)
    ensures Join(Elements(fp)) == Render(IsAbsolute(fp), Names(fp))
  {
    hide Names, ElementsFrom, Render, NonEmpty, JoinOnto;
    var es := Elements(fp);
    ElementsAreNames(fp);
    NonEmptyElements(fp);
    JoinOfSlice(fp, |es|);
    assert es[..|es|] == es;
    if IsAbsolute(fp) {
      assert es[1..] == Names(fp) + TrailingPart(fp);
    } else {
      assert es == Names(fp) + TrailingPart(fp);
    }
  }

  /** Joining the first `k` elements keeps the root and the names among them. */
  lemma JoinOfSlice(fp: string, k: nat)
    requires k <= |Elements(fp)|
    ensures var es := Elements(fp)[..k]; var root := k > 0 && IsAbsolute(fp);
            Join(es) == Render(root, NonEmpty(if root then es[1..] else es))
  {
    var es := Elements(fp)[..k];
    ElementsAreNames(fp);
    NamesAreNames(fp);
    if k > 0 && IsAbsolute(fp) {
      assert AreNamesOrEmpty(es[1..]);
      JoinOntoRendered(true, [], es[1..]);
      assert [] + NonEmpty(es[1..]) == NonEmpty(es[1..]);
    } else {
      assert AreNamesOrEmpty(es);
      JoinOntoRendered(false, [], es);
      assert [] + NonEmpty(es) == NonEmpty(es);
    }
  }
}
