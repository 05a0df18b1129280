/** The children of a resource, kept as a map and written as `name{context};name{context}`. */
module ChildrenParser {
  import opened Wrappers
  import opened Strings

  datatype Status = Success | ChildExists | ChildNotFound

  type Children = map<string, string>

  // ----- The order of the map

  predicate IsLeast(k: string, keys: set<string>) {
    k in keys && forall x :: x in keys && x != k ==> StringLess(k, x)
  }

  lemma {:induction false} LeastExists(keys: set<string>)
    requires keys != {}
    ensures exists k :: IsLeast(k, keys)
  {
    var x :| x in keys;
    var rest := keys - {x};
    assert forall y :: y in keys && y != x ==> y in rest;
    if rest == {} {
      assert IsLeast(x, keys);
    } else {
      LeastExists(rest);
      var y :| IsLeast(y, rest);
      StringLessIsTotal(x, y);
      if StringLess(x, y) {
        forall z | z in rest && z != y ensures StringLess(x, z) {
          StringLessIsTransitive(x, y, z);
        }
        assert IsLeast(x, keys);
      } else {
        assert IsLeast(y, keys);
      }
    }
  }

  lemma LeastIsUnique(j: string, k: string, keys: set<string>)
    requires IsLeast(j, keys) && IsLeast(k, keys)
    ensures j == k
  {
    StringLessIsTotal(j, k);
  }

  ghost function KeysInOrder(keys: set<string>): (ks: seq<string>)
    decreases |keys|
  {
    if keys == {} then [] else
    LeastExists(keys);
    var k :| IsLeast(k, keys);
    [k] + KeysInOrder(keys - {k})
  }

  lemma KeysAfterLeast(k: string, keys: set<string>)
    requires IsLeast(k, keys)
    ensures KeysInOrder(keys) == [k] + KeysInOrder(keys - {k})
  {
    LeastExists(keys);
    forall j | IsLeast(j, keys) ensures j == k {
      LeastIsUnique(j, k, keys);
    }
  }

  predicate IsAscending(ks: seq<string>) {
    forall i, j :: 0 <= i < j < |ks| ==> StringLess(ks[i], ks[j])
  }

  lemma AscendsOn(k: string, ks: seq<string>)
    requires IsAscending(ks) && forall x :: x in ks ==> StringLess(k, x)
    ensures IsAscending([k] + ks)
  {
    hide StringLess;
  }

  /** The keys in order are the keys of the map, and ascending. */
  lemma {:induction false} OrderOfKeys(keys: set<string>)
    ensures IsAscending(KeysInOrder(keys)) && forall k :: k in KeysInOrder(keys) <==> k in keys
    decreases |keys|
  {
    hide StringLess, IsAscending, KeysInOrder;
    NoKeys([]);
    if keys != {} {
      LeastExists(keys);
      var k :| IsLeast(k, keys);
      KeysAfterLeast(k, keys);
      OrderOfKeys(keys - {k});
      AscendsOn(k, KeysInOrder(keys - {k}));
    }
  }

  // ----- Printing

  function Printed(name: string, context: string): string {
    name + "{" + context + "}"
  }

  /** Children in a given order, separated by semicolons. */
  function PrintedIn(m: Children, ks: seq<string>): string
    requires forall k :: k in ks ==> k in m
  {
    if ks == [] then "" else
    if |ks| == 1 then Printed(ks[0], m[ks[0]]) else
    Printed(ks[0], m[ks[0]]) + ";" + PrintedIn(m, ks[1..])
  }

  ghost function Print(m: Children): string {
    OrderOfKeys(m.Keys);
    PrintedIn(m, KeysInOrder(m.Keys))
  }

  lemma {:induction false} PrintedNext(m: Children, ks: seq<string>, k: string)
    requires forall x :: x in ks + [k] ==> x in m
    ensures k in m && forall x :: x in ks ==> x in m
    ensures PrintedIn(m, ks + [k]) == (if ks == [] then "" else PrintedIn(m, ks) + ";") + Printed(k, m[k])
    decreases |ks|
  {
    hide Printed;
    assert k in ks + [k];
    if ks == [] {
      assert ks + [k] == [k];
    } else {
      assert (ks + [k])[1..] == ks[1..] + [k];
      PrintedNext(m, ks[1..], k);
    }
  }

  // ----- Parsing

  /** The name and the context of one child; a name alone has no context, and an opening brace
      needs a closing one after it. */
  function ParseChild(text: string): Option<(string, string)> {
    var start := Find(text, '{', 0);
    if start == |text| then Some((text, "")) else
    var end := Find(text, '}', start + 1);
    if end == |text| then None else Some((text[..start], text[start + 1..end]))
  }

  /** The texts between semicolons; a last semicolon opens no text. */
  function Texts(s: string): seq<string> {
    if s == "" then [] else
    var end := Find(s, ';', 0);
    if end == |s| then [s] else [s[..end]] + Texts(s[end + 1..])
  }

  datatype Parsed = Parsed(children: Children, ok: bool)

  /** Children are entered one by one; the first malformed one stops the parser. */
  function Entered(texts: seq<string>, m: Children): Parsed {
    if texts == [] then Parsed(m, true) else
    match ParseChild(texts[0])
    case None => Parsed(m, false)
    case Some((name, context)) => Entered(texts[1..], m[name := context])
  }

  function Parse(s: string): Parsed {
    Entered(Texts(s), map[])
  }

  // ----- What is parsed

  function JoinedTexts(texts: seq<string>): string {
    if texts == [] then "" else texts[0] + ";" + JoinedTexts(texts[1..])
  }

  function Closed(s: string): string {
    if s == "" || s[|s| - 1] == ';' then s else s + ";"
  }

  lemma ClosedParts(s: string, end: nat)
    requires end < |s| && s[end] == ';'
    ensures s[..end] + ";" + Closed(s[end + 1..]) == Closed(s)
  {
    assert s == s[..end] + ";" + s[end + 1..];
  }

  /** The texts hold no semicolon and, each followed by one, make up the string, whose own last
      semicolon may be left out. */
  lemma {:induction false} TextsOfString(s: string)
    ensures forall i :: 0 <= i < |Texts(s)| ==> ';' !in Texts(s)[i]
    ensures JoinedTexts(Texts(s)) == Closed(s)
    decreases |s|
  {
    hide Find, Closed;
    ClosedOfNothing();
    if s != "" {
      var end := Find(s, ';', 0);
      assert s[0..end] == s[..end];
      if end == |s| {
        assert s[..end] == s;
        assert JoinedTexts([s]) == s + ";";
        ClosedWithout(s);
      } else {
        var rest := s[end + 1..];
        TextsOfString(rest);
        ClosedParts(s, end);
        JoinedNext(s[..end], Texts(rest));
      }
    }
  }

  lemma ClosedOfNothing()
    ensures Closed("") == ""
  {
  }

  lemma ClosedWithout(s: string)
    requires s != "" && ';' !in s
    ensures Closed(s) == s + ";"
  {
  }

  lemma JoinedNext(text: string, texts: seq<string>)
    ensures JoinedTexts([text] + texts) == text + ";" + JoinedTexts(texts)
  {
    assert ([text] + texts)[1..] == texts;
  }

  predicate IsChild(text: string) {
    ParseChild(text).Some?
  }

  function NameOf(text: string): string
    requires IsChild(text)
  {
    ParseChild(text).value.0
  }

  function ContextOf(text: string): string
    requires IsChild(text)
  {
    ParseChild(text).value.1
  }

  /** A text without an opening brace is the name of a child without context. */
  lemma TextWithoutBrace(text: string)
    requires '{' !in text
    ensures IsChild(text) && NameOf(text) == text && ContextOf(text) == ""
  {
  }

  /** A text with one is a child exactly when a closing brace stands after the first opening one: the
      name is what precedes that, the context is what stands between it and the first closing brace
      after it, and whatever follows is dropped. */
  lemma TextWithBrace(text: string, i: nat)
    requires i < |text| && text[i] == '{' && '{' !in text[..i]
    ensures IsChild(text) <==> '}' in text[i + 1..]
    ensures forall j: nat :: i < j < |text| && text[j] == '}' && '}' !in text[i + 1..j] ==>
              IsChild(text) && NameOf(text) == text[..i] && ContextOf(text) == text[i + 1..j]
  {
    assert text[..i] == text[0..i] && text[i + 1..] == text[i + 1..|text|];
    FindIsFirst(text, '{', 0, i);
    forall j: nat | i < j < |text| && text[j] == '}' && '}' !in text[i + 1..j] ensures Find(text, '}', i + 1) == j {
      FindIsFirst(text, '}', i + 1, j);
    }
    var end := Find(text, '}', i + 1);
    if end < |text| {
      assert text[i + 1..][end - i - 1] == '}';
    }
  }

  /** The number of texts before the first malformed one. */
  function WellFormed(texts: seq<string>): (n: nat)
    ensures n <= |texts| && (forall i :: 0 <= i < n ==> IsChild(texts[i]))
    ensures n < |texts| ==> !IsChild(texts[n])
  {
    if texts == [] || !IsChild(texts[0]) then 0 else 1 + WellFormed(texts[1..])
  }

  predicate Names(texts: seq<string>, n: nat, k: string)
    requires n <= |texts| && forall i :: 0 <= i < n ==> IsChild(texts[i])
  {
    exists i :: 0 <= i < n && NameOf(texts[i]) == k
  }

  lemma NamesNext(texts: seq<string>, k: string)
    requires texts != [] && IsChild(texts[0])
    ensures var n := WellFormed(texts);
            Names(texts, n, k) <==> NameOf(texts[0]) == k || Names(texts[1..], n - 1, k)
  {
    hide ParseChild;
    var n := WellFormed(texts);
    if Names(texts[1..], n - 1, k) {
      var i :| 0 <= i < n - 1 && NameOf(texts[1..][i]) == k;
      assert NameOf(texts[i + 1]) == k;
    }
    if Names(texts, n, k) && NameOf(texts[0]) != k {
      var i :| 0 <= i < n && NameOf(texts[i]) == k;
      assert NameOf(texts[1..][i - 1]) == k;
    }
  }

  /** The result is a success when no text is malformed; its names are the old ones and those of the
      texts before the first malformed one, and what these do not name is as it was. */
  ghost predicate HoldsEntered(p: Parsed, texts: seq<string>, m: Children) {
    var n := WellFormed(texts);
    && (p.ok <==> n == |texts|)
    && (forall k :: k in p.children <==> k in m || Names(texts, n, k))
    && (forall k :: k in m && !Names(texts, n, k) ==> p.children[k] == m[k])
  }

  lemma {:induction false} EnteredHolds(texts: seq<string>, m: Children)
    ensures HoldsEntered(Entered(texts, m), texts, m)
  {
    hide ParseChild, NameOf, ContextOf, Names;
    var n := WellFormed(texts);
    if n == 0 {
      NothingNamed(texts);
    } else {
      EntersChild(texts, m);
      EnteredHolds(texts[1..], m[NameOf(texts[0]) := ContextOf(texts[0])]);
      forall k ensures Names(texts, n, k) <==> NameOf(texts[0]) == k || Names(texts[1..], n - 1, k) {
        NamesNext(texts, k);
      }
    }
  }

  lemma {:induction false} LastContextStays(texts: seq<string>, m: Children, i: nat)
    requires i < WellFormed(texts)
    requires forall j :: i < j < WellFormed(texts) ==> NameOf(texts[j]) != NameOf(texts[i])
    ensures var p, name := Entered(texts, m), NameOf(texts[i]);
            name in p.children && p.children[name] == ContextOf(texts[i])
  {
    hide ParseChild, NameOf, ContextOf, Names;
    var n, rest, next := WellFormed(texts), texts[1..], m[NameOf(texts[0]) := ContextOf(texts[0])];
    EntersChild(texts, m);
    assert forall j :: 0 <= j < n - 1 ==> rest[j] == texts[j + 1];
    if i == 0 {
      NotNamed(rest, n - 1, NameOf(texts[0]));
      EnteredHolds(rest, next);
    } else {
      LastContextStays(rest, next, i - 1);
    }
  }

  /** The map holds exactly the children before the first malformed one, each name with the context
      that came last; the result is a success when there is no malformed one. */
  lemma EnteredMeans(texts: seq<string>, m: Children)
    ensures HoldsEntered(Entered(texts, m), texts, m)
    ensures var p, n := Entered(texts, m), WellFormed(texts);
            forall i :: 0 <= i < n && (forall j :: i < j < n ==> NameOf(texts[j]) != NameOf(texts[i])) ==>
              NameOf(texts[i]) in p.children && p.children[NameOf(texts[i])] == ContextOf(texts[i])
  {
    hide Entered, NameOf, ContextOf, Names, HoldsEntered;
    EnteredHolds(texts, m);
    var p, n := Entered(texts, m), WellFormed(texts);
    forall i | 0 <= i < n && (forall j :: i < j < n ==> NameOf(texts[j]) != NameOf(texts[i]))
      ensures NameOf(texts[i]) in p.children && p.children[NameOf(texts[i])] == ContextOf(texts[i])
    {
      LastContextStays(texts, m, i);
    }
  }

  lemma NothingNamed(texts: seq<string>)
    ensures forall k :: !Names(texts, 0, k)
  {
  }

  lemma NotNamed(texts: seq<string>, n: nat, k: string)
    requires n <= |texts| && forall i :: 0 <= i < n ==> IsChild(texts[i]) && NameOf(texts[i]) != k
    ensures !Names(texts, n, k)
  {
  }

  lemma EntersChild(texts: seq<string>, m: Children)
    requires texts != [] && IsChild(texts[0])
    ensures Entered(texts, m) == Entered(texts[1..], m[NameOf(texts[0]) := ContextOf(texts[0])])
  {
    hide ParseChild;
  }

  // ----- What is printed

  /** The text of each child, as it is written. */
  function ChildTexts(m: Children, ks: seq<string>): seq<string>
    requires forall k :: k in ks ==> k in m
  {
    seq(|ks|, i requires 0 <= i < |ks| => ks[i] + "{" + m[ks[i]] + "}")
  }

  lemma {:induction false} PrintedInIsJoined(m: Children, ks: seq<string>)
    requires (forall k :: k in ks ==> k in m) && ks != []
    ensures PrintedIn(m, ks) + ";" == JoinedTexts(ChildTexts(m, ks))
    decreases |ks|
  {
    var first, rest := Printed(ks[0], m[ks[0]]), ChildTexts(m, ks[1..]);
    assert ChildTexts(m, ks) == [first] + rest;
    JoinedNext(first, rest);
    if |ks| == 1 {
      assert JoinedTexts(rest) == "";
    } else {
      PrintedInIsJoined(m, ks[1..]);
    }
  }

  /** The printed children stand in the order of their names, and semicolons only between them. */
  lemma PrintedIsJoined(m: Children)
    ensures var ks := KeysInOrder(m.Keys);
            && (forall k :: k in ks <==> k in m) && IsAscending(ks)
            && if m == map[] then Print(m) == "" else Print(m) + ";" == JoinedTexts(ChildTexts(m, ks))
  {
    OrderOfKeys(m.Keys);
    var ks := KeysInOrder(m.Keys);
    hide KeysInOrder, PrintedIn;
    if m == map[] {
      assert m.Keys == {} && [] + KeysInOrder({}) == KeysInOrder({});
      NoKeys([]);
      NothingPrinted(m);
    } else {
      var k :| k in m;
      assert k in ks;
      PrintedInIsJoined(m, ks);
    }
  }

  // ----- Parsing undoes printing

  predicate IsCleanChild(name: string, context: string) {
    ';' !in name && '{' !in name && ';' !in context && '}' !in context
  }

  predicate IsClean(m: Children) {
    forall k :: k in m ==> IsCleanChild(k, m[k])
  }

  lemma ParsedChildIsClean(text: string)
    requires ';' !in text && IsChild(text)
    ensures IsCleanChild(NameOf(text), ContextOf(text))
  {
    var start := Find(text, '{', 0);
    assert text[0..start] == text[..start];
    assert text[..|text|] == text;
  }

  lemma {:induction false} EnteredIsClean(texts: seq<string>, m: Children)
    requires IsClean(m) && forall i :: 0 <= i < |texts| ==> ';' !in texts[i]
    ensures IsClean(Entered(texts, m).children)
  {
    hide ParseChild, IsCleanChild;
    if texts != [] && IsChild(texts[0]) {
      ParsedChildIsClean(texts[0]);
      EnteredIsClean(texts[1..], m[NameOf(texts[0]) := ContextOf(texts[0])]);
    }
  }

  /** Whatever is parsed, the map is clean. */
  lemma ParsedIsClean(s: string)
    ensures IsClean(Parse(s).children)
  {
    TextsOfString(s);
    EnteredIsClean(Texts(s), map[]);
  }

  lemma ParsePrintedChild(name: string, context: string)
    requires IsCleanChild(name, context)
    ensures ParseChild(Printed(name, context)) == Some((name, context))
    ensures ';' !in Printed(name, context) && Printed(name, context) != ""
  {
    var text := Printed(name, context);
    var open, close := |name|, |name| + 1 + |context|;
    assert text[0..open] == name && text[open + 1..close] == context && text[..open] == name;
    FindIsFirst(text, '{', 0, open);
    FindIsFirst(text, '}', open + 1, close);
  }

  lemma TextsFollow(text: string, rest: string)
    requires ';' !in text
    ensures text != "" ==> Texts(text) == [text]
    ensures Texts(text + ";" + rest) == [text] + Texts(rest)
  {
    var s := text + ";" + rest;
    assert s[0..|text|] == text && s[..|text|] == text && s[|text| + 1..] == rest;
    FindIsFirst(s, ';', 0, |text|);
    assert text[0..|text|] == text;
    FindIsFirst(text, ';', 0, |text|);
  }

  function Restricted(m: Children, ks: seq<string>): Children
    requires forall k :: k in ks ==> k in m
  {
    map k | k in ks :: m[k]
  }

  lemma RestrictedNext(m: Children, ks: seq<string>, into: Children)
    requires (forall k :: k in ks ==> k in m) && ks != []
    ensures into[ks[0] := m[ks[0]]] + Restricted(m, ks[1..]) == into + Restricted(m, ks)
  {
    assert ks == [ks[0]] + ks[1..];
  }

  lemma TextsOfPrinted(m: Children, ks: seq<string>)
    requires IsClean(m) && (forall k :: k in ks ==> k in m) && ks != []
    ensures Texts(PrintedIn(m, ks)) == [Printed(ks[0], m[ks[0]])] + Texts(PrintedIn(m, ks[1..]))
  {
    hide Printed, ParseChild, IsCleanChild, Texts;
    NoTexts();
    ParsePrintedChild(ks[0], m[ks[0]]);
    TextsFollow(Printed(ks[0], m[ks[0]]), PrintedIn(m, ks[1..]));
  }

  lemma EntersFirst(text: string, texts: seq<string>, m: Children)
    ensures Entered([text] + texts, m) == match ParseChild(text)
                                          case None => Parsed(m, false)
                                          case Some((name, context)) => Entered(texts, m[name := context])
  {
    hide ParseChild;
    assert ([text] + texts)[1..] == texts;
  }

  /** Parsing printed children enters them, in any order and into any map. */
  lemma {:induction false} ParsePrintedIn(m: Children, ks: seq<string>, into: Children)
    requires IsClean(m) && (forall k :: k in ks ==> k in m)
    ensures Entered(Texts(PrintedIn(m, ks)), into) == Parsed(into + Restricted(m, ks), true)
    decreases |ks|
  {
    hide Printed, ParseChild, IsCleanChild, Texts;
    if ks == [] {
      NoTexts();
      assert into + Restricted(m, ks) == into;
    } else {
      hide PrintedIn, Entered, Restricted;
      ParsePrintedChild(ks[0], m[ks[0]]);
      TextsOfPrinted(m, ks);
      EntersFirst(Printed(ks[0], m[ks[0]]), Texts(PrintedIn(m, ks[1..])), into);
      ParsePrintedIn(m, ks[1..], into[ks[0] := m[ks[0]]]);
      RestrictedNext(m, ks, into);
    }
  }

  lemma NoTexts()
    ensures Texts("") == []
  {
  }

  /** Parsing what was printed gives the map back exactly when its names and contexts avoid the
      characters that end them. */
  lemma ParsingUndoesPrinting(m: Children)
    ensures Parse(Print(m)) == Parsed(m, true) <==> IsClean(m)
  {
    hide PrintedIn, Texts, KeysInOrder, IsCleanChild;
    ParsedIsClean(Print(m));
    if IsClean(m) {
      var ks := KeysInOrder(m.Keys);
      OrderOfKeys(m.Keys);
      ParsePrintedIn(m, ks, map[]);
      assert map[] + Restricted(m, ks) == m;
    }
  }

  /** Printing what was parsed, even in part, and parsing that changes nothing. */
  lemma PrintedParsesTheSame(s: string)
    ensures Parse(Print(Parse(s).children)) == Parsed(Parse(s).children, true)
  {
    ParsedIsClean(s);
    ParsingUndoesPrinting(Parse(s).children);
  }

  // ----- The parser object

  class Parser {
    var children: Children

    constructor ()
      ensures children == map[]
    {
      children := map[];
    }

    /** `str`. */
    method Str() returns (printed: string)
      ensures printed == Print(children)
    {
      hide PrintedIn, Printed, KeysInOrder, StringLess;
      printed := "";
      var first := true;
      var rest := children.Keys;
      ghost var done: seq<string> := [];
      OrderOfKeys(children.Keys);
      NothingPrinted(children);
      while rest != {}
        invariant rest <= children.Keys && (forall k :: k in done ==> k in children)
        invariant done + KeysInOrder(rest) == KeysInOrder(children.Keys)
        invariant printed == PrintedIn(children, done) && (first <==> done == [])
      {
        LeastExists(rest);
        var k :| k in rest && forall x :: x in rest && x != k ==> StringLess(k, x);
        KeyMoves(done, k, rest);
        PrintedNext(children, done, k);
        if first {
          first := false;
        } else {
          printed := printed + ";";
        }
        printed := printed + Printed(k, children[k]);
        done := done + [k];
        rest := rest - {k};
      }
      NoKeys(done);
    }

    /** `add_child`. */
    method AddChild(child: string, context: string) returns (r: Status)
      modifies this
      ensures r == if child in old(children) then ChildExists else Success
      ensures children == if r == Success then old(children)[child := context] else old(children)
      ensures r == Success ==> (IsClean(children) <==> old(IsClean(children)) && IsCleanChild(child, context))
    {
      hide IsCleanChild;
      if child in children {
        return ChildExists;
      }
      AddedIsClean(children, child, context);
      children := children[child := context];
      return Success;
    }

    /** `remove_child`. */
    method RemoveChild(child: string) returns (r: Status)
      modifies this
      ensures r == if child in old(children) then Success else ChildNotFound
      ensures children == old(children) - {child}
      ensures old(IsClean(children)) ==> IsClean(children)
    {
      hide IsCleanChild;
      if child !in children {
        assert children == old(children) - {child};
        return ChildNotFound;
      }
      children := children - {child};
      return Success;
    }

    /** `set_string`. */
    method SetString(str: string) returns (r: Status)
      modifies this
      ensures r == Success || r == ChildNotFound
      ensures Parsed(children, r == Success) == Parse(str)
    {
      hide ParseChild, Find, Entered, Texts;
      r := Success;
      children := map[];
      NothingEntered();
      if str == "" {
        return;
      }
      var done := false;
      var current := 0;
      assert str[0..] == str && str[|str|..] == "";
      while r == Success && !done
        invariant r == Success || r == ChildNotFound
        invariant current <= |str| && (r == Success && !done ==> current < |str|)
        invariant Parse(str) ==
                    if r == Success && !done then Entered(Texts(str[current..]), children)
                    else Parsed(children, r == Success)
        decreases |str| - current, !done, r == Success
      {
        var end := Find(str, ';', current);
        EntersNext(str, current, children);
        var text := str[current..end];
        match ParseChild(text) {
          case None =>
            r := ChildNotFound;
          case Some((child, context)) =>
            children := children[child := context];
            if end == |str| {
              done := true;
            } else {
              current := end + 1;
              if current >= |str| {
                done := true;
              }
            }
        }
      }
    }
  }

  lemma {:induction false} FindFrom(s: string, c: char, from: nat)
    requires from <= |s|
    ensures Find(s[from..], c, 0) == Find(s, c, from) - from
  {
    var i := Find(s, c, from);
    assert s[from..][0..i - from] == s[from..i];
    FindIsFirst(s[from..], c, 0, i - from);
  }

  /** The first text from a position on ends at the next semicolon. */
  lemma TextsNext(s: string, current: nat)
    requires current < |s|
    ensures var end := Find(s, ';', current);
            Texts(s[current..]) == [s[current..end]] + if end == |s| then [] else Texts(s[end + 1..])
  {
    hide Find;
    var end, tail := Find(s, ';', current), s[current..];
    FindFrom(s, ';', current);
    assert tail[..end - current] == s[current..end];
    if end < |s| {
      assert tail[end - current + 1..] == s[end + 1..];
    } else {
      assert tail == s[current..end];
      assert Texts(tail) == [tail];
    }
  }

  lemma EntersNext(s: string, current: nat, m: Children)
    requires current < |s|
    ensures var end := Find(s, ';', current);
            Entered(Texts(s[current..]), m) == match ParseChild(s[current..end])
                                               case None => Parsed(m, false)
                                               case Some((name, context)) =>
                                                 if end == |s| then Parsed(m[name := context], true)
                                                 else Entered(Texts(s[end + 1..]), m[name := context])
  {
    hide ParseChild, Find, Entered, Texts;
    var end := Find(s, ';', current);
    TextsNext(s, current);
    NothingEntered();
    EntersFirst(s[current..end], if end == |s| then [] else Texts(s[end + 1..]), m);
  }

  lemma NothingEntered()
    ensures Texts("") == [] && forall m :: Entered([], m) == Parsed(m, true)
  {
  }

  lemma AddedIsClean(m: Children, child: string, context: string)
    requires child !in m
    ensures IsClean(m[child := context]) <==> IsClean(m) && IsCleanChild(child, context)
  {
    hide IsCleanChild;
    var more := m[child := context];
    assert forall k :: k in m ==> more[k] == m[k] && k in more;
    assert more[child] == context;
  }

  lemma KeyMoves(done: seq<string>, k: string, rest: set<string>)
    requires IsLeast(k, rest)
    ensures done + [k] + KeysInOrder(rest - {k}) == done + KeysInOrder(rest)
  {
    hide IsLeast, KeysInOrder;
    KeysAfterLeast(k, rest);
  }

  lemma NoKeys(done: seq<string>)
    ensures done + KeysInOrder({}) == done && KeysInOrder({}) == [] && IsAscending([])
  {
  }

  lemma NothingPrinted(m: Children)
    ensures PrintedIn(m, []) == ""
  {
  }
}
