/** The recursive collection iterator: a stack of listings walked in place. */
module RecursiveIterator {

  datatype Entry = DataObject(name: string) | Collection(name: string, entries: seq<Entry>)

  /** What a user does after looking at an entry. */
  datatype Decision = Descend | SkipSubtree | LeaveCollection

  /** A user of the iterator decides from everything seen so far. */
  type Policy = seq<Entry> -> Decision

  // ----- The walk a reader expects

  /** Pre-order: an entry, then what is inside it, then what follows it. */
  function PreorderOf(e: Entry): seq<Entry>
    decreases e, 1
  {
    [e] + if e.Collection? then Preorder(e.entries) else []
  }

  function Preorder(es: seq<Entry>): seq<Entry>
    decreases es, 0
  {
    if es == [] then [] else PreorderOf(es[0]) + Preorder(es[1..])
  }

  /** Everything seen when a listing is walked under a policy: a subtree is entered, skipped, or
      the rest of the listing is left. */
  function SeenInside(e: Entry, policy: Policy, seen: seq<Entry>): seq<Entry>
    decreases e, 1
  {
    if e.Collection? then SeenIn(e.entries, policy, seen) else seen
  }

  function SeenIn(es: seq<Entry>, policy: Policy, seen: seq<Entry>): seq<Entry>
    decreases es, 0
  {
    if es == [] then seen else
    var now := seen + [es[0]];
    match policy(now)
    case Descend => SeenIn(es[1..], policy, SeenInside(es[0], policy, now))
    case SkipSubtree => SeenIn(es[1..], policy, now)
    case LeaveCollection => now
  }

  // ----- What a stack of listings still holds

  function Held(stack: seq<seq<Entry>>): seq<Entry>
    decreases |stack|
  {
    if stack == [] then [] else Preorder(stack[|stack| - 1]) + Held(stack[..|stack| - 1])
  }

  function SeenFrom(stack: seq<seq<Entry>>, policy: Policy, seen: seq<Entry>): seq<Entry>
    decreases |stack|
  {
    if stack == [] then seen else
    SeenFrom(stack[..|stack| - 1], policy, SeenIn(stack[|stack| - 1], policy, seen))
  }

  /** The depth reported for each entry still held, and the depth it has in the tree. */
  function ReportedOf(e: Entry, last: bool, k: nat): seq<nat>
    decreases e, 1
  {
    [k] + if e.Collection? then Reported(e.entries, if last then k else k + 1) else []
  }

  function Reported(es: seq<Entry>, k: nat): seq<nat>
    decreases es, 0
  {
    if es == [] then [] else ReportedOf(es[0], |es| == 1, k) + Reported(es[1..], k)
  }

  function DepthsOf(e: Entry, k: nat): seq<nat>
    decreases e, 1
  {
    [k] + if e.Collection? then Depths(e.entries, k + 1) else []
  }

  function Depths(es: seq<Entry>, k: nat): seq<nat>
    decreases es, 0
  {
    if es == [] then [] else DepthsOf(es[0], k) + Depths(es[1..], k)
  }

  function ReportedFrom(stack: seq<seq<Entry>>): seq<nat>
    decreases |stack|
  {
    if stack == [] then [] else
    Reported(stack[|stack| - 1], |stack| - 1) + ReportedFrom(stack[..|stack| - 1])
  }

  // ----- The stack before and after the top moves

  lemma PushPop<T>(below: seq<T>, top: T)
    ensures (below + [top])[|below|] == top
    ensures (below + [top])[..|below|] == below
  {
  }

  /** The stack with the top's first entry passed, and its listing dropped when that was the last. */
  function Passed(stack: seq<seq<Entry>>): seq<seq<Entry>>
    requires stack != [] && stack[|stack| - 1] != []
  {
    var below, top := stack[..|stack| - 1], stack[|stack| - 1];
    if |top| == 1 then below else below + [top[1..]]
  }

  lemma Associate<T>(a: seq<T>, b: seq<T>, c: seq<T>)
    ensures (a + b) + c == a + (b + c)
  {
  }

  lemma HeldIsTopAndBelow(stack: seq<seq<Entry>>)
    requires stack != []
    ensures Held(stack) == Preorder(stack[|stack| - 1]) + Held(stack[..|stack| - 1])
  {
    hide Preorder;
  }

  lemma PreorderIsFirstAndRest(es: seq<Entry>)
    requires es != []
    ensures Preorder(es) == PreorderOf(es[0]) + Preorder(es[1..])
    ensures |es| == 1 ==> Preorder(es[1..]) == []
  {
    hide PreorderOf;
  }

  lemma HeldAfterPush(stack: seq<seq<Entry>>, es: seq<Entry>)
    ensures Held(stack + [es]) == Preorder(es) + Held(stack)
  {
    hide Held, Preorder;
    HeldIsTopAndBelow(stack + [es]);
    PushPop(stack, es);
  }

  lemma HeldAfterPass(stack: seq<seq<Entry>>)
    requires stack != [] && stack[|stack| - 1] != []
    ensures Held(stack) == PreorderOf(stack[|stack| - 1][0]) + Held(Passed(stack))
  {
    hide Held, Preorder, PreorderOf;
    var below, top := stack[..|stack| - 1], stack[|stack| - 1];
    HeldIsTopAndBelow(stack);
    PreorderIsFirstAndRest(top);
    Associate(PreorderOf(top[0]), Preorder(top[1..]), Held(below));
    if |top| == 1 {
      assert [] + Held(below) == Held(below);
    } else {
      HeldAfterPush(below, top[1..]);
    }
  }

  lemma SeenAfterPush(stack: seq<seq<Entry>>, es: seq<Entry>, policy: Policy, seen: seq<Entry>)
    ensures SeenFrom(stack + [es], policy, seen) == SeenFrom(stack, policy, SeenIn(es, policy, seen))
  {
    hide SeenIn;
    PushPop(stack, es);
  }

  lemma SeenAfterPass(stack: seq<seq<Entry>>, policy: Policy, seen: seq<Entry>)
    requires stack != [] && stack[|stack| - 1] != []
    ensures SeenFrom(Passed(stack), policy, seen) ==
            SeenFrom(stack[..|stack| - 1], policy, SeenIn(stack[|stack| - 1][1..], policy, seen))
  {
    var below, top := stack[..|stack| - 1], stack[|stack| - 1];
    if |top| > 1 {
      SeenAfterPush(below, top[1..], policy, seen);
    }
  }

  lemma ReportedAfterPush(stack: seq<seq<Entry>>, es: seq<Entry>)
    ensures ReportedFrom(stack + [es]) == Reported(es, |stack|) + ReportedFrom(stack)
  {
    hide Reported;
    PushPop(stack, es);
  }

  lemma ReportedAfterPass(stack: seq<seq<Entry>>)
    requires stack != [] && stack[|stack| - 1] != []
    ensures ReportedFrom(stack) ==
            ReportedOf(stack[|stack| - 1][0], |stack[|stack| - 1]| == 1, |stack| - 1) + ReportedFrom(Passed(stack))
  {
    hide ReportedOf;
    var below, top := stack[..|stack| - 1], stack[|stack| - 1];
    var first, rest := ReportedOf(top[0], |top| == 1, |stack| - 1), Reported(top[1..], |stack| - 1);
    assert Reported(top, |stack| - 1) == first + rest;
    if |top| == 1 {
      assert rest == [] && first + rest == first;
    } else {
      ReportedAfterPush(below, top[1..]);
      assert (first + rest) + ReportedFrom(below) == first + (rest + ReportedFrom(below));
    }
  }

  lemma PreorderOfShape(e: Entry)
    ensures PreorderOf(e) == [e] + if e.Collection? then Preorder(e.entries) else []
    ensures e.DataObject? || e.entries == [] ==> |PreorderOf(e)| == 1
  {
  }

  /** What `++` leaves: the entry's inside and what follows, or only what follows. */
  lemma HeldAfterNext(stack: seq<seq<Entry>>)
    requires stack != [] && stack[|stack| - 1] != []
    ensures var e := stack[|stack| - 1][0]; var held, n := Held(stack), |PreorderOf(e)|;
            && 1 <= n <= |held| && held[0] == e
            && Held(Passed(stack)) == held[n..]
            && (e.Collection? ==> Held(Passed(stack) + [e.entries]) == held[1..])
            && (e.DataObject? || e.entries == [] ==> n == 1)
  {
    hide Held, Preorder, PreorderOf, Passed;
    var e := stack[|stack| - 1][0];
    var after := Held(Passed(stack));
    HeldAfterPass(stack);
    PreorderOfShape(e);
    assert (PreorderOf(e) + after)[|PreorderOf(e)|..] == after;
    if e.Collection? {
      HeldAfterPush(Passed(stack), e.entries);
      Associate([e], Preorder(e.entries), after);
      assert ([e] + (Preorder(e.entries) + after))[1..] == Preorder(e.entries) + after;
    }
  }

  lemma ListingHoldsSomething(es: seq<Entry>)
    requires es != []
    ensures Preorder(es) != []
  {
    PreorderIsFirstAndRest(es);
    PreorderOfShape(es[0]);
  }

  // ----- The iterator

  class RecursiveCollectionIterator {
    var ended: bool
    var stack: seq<seq<Entry>>
    var recurse: bool

    /** Every listing on the stack has a current entry; the end iterator has no stack. */
    predicate Valid()
      reads this
    {
      && (ended <==> stack == [])
      && forall i :: 0 <= i < |stack| ==> stack[i] != []
    }

    function Remaining(): seq<Entry>
      reads this
    {
      Held(stack)
    }

    constructor (root: seq<Entry>)
      ensures !ended && recurse && stack == [root]
      ensures Valid() <==> root != []
      ensures Remaining() == Preorder(root)
    {
      ended := false;
      stack := [root];
      recurse := true;
      new;
      HeldAfterPush([], root);
      assert [] + [root] == [root] && Preorder(root) + [] == Preorder(root);
    }

    /** `operator*`. */
    function Current(): Entry
      requires Valid() && !ended
      reads this
    {
      stack[|stack| - 1][0]
    }

    /** `depth`. */
    function Depth(): nat
      requires Valid() && !ended
      reads this
    {
      |stack| - 1
    }

    method DisableRecursionPending()
      modifies this`recurse
      ensures !recurse
    {
      recurse := false;
    }

    /** `++` on the top listing's own iterator: answers whether it reached the end. */
    method AdvanceTop() returns (atEnd: bool)
      requires stack != [] && stack[|stack| - 1] != []
      modifies this`stack
      ensures stack == old(stack[..|stack| - 1]) + [old(stack[|stack| - 1])[1..]]
      ensures atEnd <==> old(|stack[|stack| - 1]|) == 1
    {
      var top := stack[|stack| - 1][1..];
      stack := stack[..|stack| - 1] + [top];
      atEnd := top == [];
    }

    /** `operator++`: the parent is advanced before the child listing is pushed. */
    method Next()
      requires Valid() && !ended
      modifies this
      ensures Valid() && (recurse || ended)
      ensures old(Remaining()) != [] && old(Remaining())[0] == old(Current())
      ensures |PreorderOf(old(Current()))| <= |old(Remaining())|
      ensures Remaining() == old(Remaining())[if old(recurse) then 1 else |PreorderOf(old(Current()))|..]
      ensures |Remaining()| < |old(Remaining())|
      ensures stack == if old(recurse && Current().Collection? && Current().entries != [])
                       then Passed(old(stack)) + [old(Current()).entries] else Passed(old(stack))
    {
      hide Held, Preorder, PreorderOf;
      ghost var was := stack;
      var current := stack[|stack| - 1][0];
      HeldAfterNext(was);
      var addedNewCollection := false;
      if current.Collection? && recurse {
        if current.entries != [] {
          addedNewCollection := true;
          var atEnd := AdvanceTop();
          if atEnd {
            stack := stack[..|stack| - 1];
          }
          assert stack == Passed(was);
          stack := stack + [current.entries];
        }
      }
      if !addedNewCollection {
        var atEnd := AdvanceTop();
        if atEnd {
          stack := stack[..|stack| - 1];
          assert stack == Passed(was);
          if stack == [] {
            ended := true;
            return;
          }
        }
      }
      recurse := true;
    }

    /** `pop`. */
    method Pop()
      requires Valid() && !ended
      modifies this
      ensures Valid() && recurse == old(recurse)
      ensures stack == old(stack)[..|old(stack)| - 1]
      ensures old(Remaining()) == Preorder(old(stack)[|old(stack)| - 1]) + Remaining()
      ensures |Remaining()| < |old(Remaining())|
    {
      hide Held, Preorder;
      HeldIsTopAndBelow(stack);
      ListingHoldsSomething(stack[|stack| - 1]);
      if |stack| == 1 {
        ended := true;
        stack := [];
        return;
      }
      stack := stack[..|stack| - 1];
    }
  }

  // ----- Whole walks

  lemma SeenStep(stack: seq<seq<Entry>>, policy: Policy, seen: seq<Entry>)
    requires stack != [] && stack[|stack| - 1] != []
    ensures var e := stack[|stack| - 1][0]; var now := seen + [e];
            SeenFrom(stack, policy, seen) ==
            match policy(now)
            case Descend => SeenFrom(Passed(stack), policy, SeenInside(e, policy, now))
            case SkipSubtree => SeenFrom(Passed(stack), policy, now)
            case LeaveCollection => SeenFrom(stack[..|stack| - 1], policy, now)
  {
    var e := stack[|stack| - 1][0];
    var now := seen + [e];
    SeenAfterPass(stack, policy, SeenInside(e, policy, now));
    SeenAfterPass(stack, policy, now);
  }

  lemma SeenDescending(stack: seq<seq<Entry>>, policy: Policy, e: Entry, now: seq<Entry>)
    ensures SeenFrom(if e.Collection? && e.entries != [] then stack + [e.entries] else stack, policy, now) ==
            SeenFrom(stack, policy, SeenInside(e, policy, now))
  {
    if e.Collection? && e.entries != [] {
      SeenAfterPush(stack, e.entries, policy, now);
    }
  }

  /** A whole walk under any policy sees what the recursive definition sees, in that order. */
  method Walk(root: seq<Entry>, policy: Policy) returns (seen: seq<Entry>)
    requires root != []
    ensures seen == SeenIn(root, policy, [])
  {
    hide SeenFrom, SeenIn, SeenInside, Held, Preorder, PreorderOf;
    seen := [];
    var it := new RecursiveCollectionIterator(root);
    SeenOfOne(root, policy);
    while !it.ended
      invariant fresh(it) && it.Valid() && (it.ended || it.recurse)
      invariant SeenFrom(it.stack, policy, seen) == SeenIn(root, policy, [])
      decreases |it.Remaining()|
    {
      SeenStep(it.stack, policy, seen);
      ghost var was := it.stack;
      var e := it.Current();
      seen := seen + [e];
      SeenDescending(Passed(was), policy, e, seen);
      match policy(seen) {
        case Descend =>
          it.Next();
        case SkipSubtree =>
          it.DisableRecursionPending();
          it.Next();
        case LeaveCollection =>
          it.Pop();
      }
    }
    SeenOfNone(policy, seen);
  }

  lemma SeenOfOne(root: seq<Entry>, policy: Policy)
    ensures SeenFrom([root], policy, []) == SeenIn(root, policy, [])
  {
    SeenAfterPush([], root, policy, []);
    assert [] + [root] == [root];
  }

  lemma SeenOfNone(policy: Policy, seen: seq<Entry>)
    ensures SeenFrom([], policy, seen) == seen
  {
  }

  /** Always descending sees the full pre-order. */
  lemma {:induction false} DescendingSeesAll(es: seq<Entry>, policy: Policy, seen: seq<Entry>)
    requires forall s :: policy(s) == Descend
    ensures SeenIn(es, policy, seen) == seen + Preorder(es)
    decreases es, 0
  {
    if es != [] {
      var now := seen + [es[0]];
      var inside := SeenInside(es[0], policy, now);
      DescendingSeesInside(es[0], policy, seen);
      DescendingSeesAll(es[1..], policy, inside);
      assert SeenIn(es, policy, seen) == SeenIn(es[1..], policy, inside);
      assert (seen + PreorderOf(es[0])) + Preorder(es[1..]) == seen + (PreorderOf(es[0]) + Preorder(es[1..]));
    }
  }

  lemma {:induction false} DescendingSeesInside(e: Entry, policy: Policy, seen: seq<Entry>)
    requires forall s :: policy(s) == Descend
    ensures SeenInside(e, policy, seen + [e]) == seen + PreorderOf(e)
    decreases e, 1
  {
    if e.Collection? {
      DescendingSeesAll(e.entries, policy, seen + [e]);
      assert (seen + [e]) + Preorder(e.entries) == seen + ([e] + Preorder(e.entries));
    }
  }

  // ----- Depth

  lemma ReportedOfShape(e: Entry, last: bool, k: nat)
    ensures ReportedOf(e, last, k) == [k] + if e.Collection? then Reported(e.entries, if last then k else k + 1) else []
    ensures e.DataObject? || e.entries == [] ==> ReportedOf(e, last, k) == [k]
  {
  }

  lemma ReportedDescending(stack: seq<seq<Entry>>)
    requires stack != [] && stack[|stack| - 1] != []
    ensures var e := stack[|stack| - 1][0]; var after := Passed(stack);
            ReportedFrom(stack) ==
            [|stack| - 1] + ReportedFrom(if e.Collection? && e.entries != [] then after + [e.entries] else after)
  {
    hide ReportedFrom, Reported, ReportedOf;
    var e, after, k := stack[|stack| - 1][0], Passed(stack), |stack| - 1;
    ReportedAfterPass(stack);
    ReportedOfShape(e, |stack[|stack| - 1]| == 1, k);
    if e.Collection? && e.entries != [] {
      ReportedAfterPush(after, e.entries);
      Associate([k], Reported(e.entries, |after|), ReportedFrom(after));
    }
  }

  /** A walk that notes `depth` at each entry. */
  method WalkDepths(root: seq<Entry>) returns (depths: seq<nat>)
    requires root != []
    ensures depths == Reported(root, 0)
  {
    hide ReportedFrom, Reported, ReportedOf, Held, Preorder, PreorderOf;
    depths := [];
    var it := new RecursiveCollectionIterator(root);
    ReportedOfOne(root);
    while !it.ended
      invariant fresh(it) && it.Valid() && (it.ended || it.recurse)
      invariant depths + ReportedFrom(it.stack) == Reported(root, 0)
      decreases |it.Remaining()|
    {
      ReportedDescending(it.stack);
      depths := depths + [it.Depth()];
      it.Next();
    }
    ReportedOfNone();
  }

  lemma ReportedOfOne(root: seq<Entry>)
    ensures ReportedFrom([root]) == Reported(root, 0)
  {
    ReportedAfterPush([], root);
    assert [] + [root] == [root];
  }

  lemma ReportedOfNone()
    ensures ReportedFrom([]) == []
  {
  }

  /** Some listing ends with a collection that has something in it. */
  predicate EndsInFullCollection(es: seq<Entry>)
    decreases es, 0
  {
    es != [] && (FullInside(es[0]) || EndsInFullCollection(es[1..]) ||
                 (|es| == 1 && es[0].Collection? && es[0].entries != []))
  }

  predicate FullInside(e: Entry)
    decreases e, 1
  {
    e.Collection? && EndsInFullCollection(e.entries)
  }

  lemma {:induction false} ReportedLength(es: seq<Entry>, j: nat, k: nat)
    ensures |Reported(es, j)| == |Depths(es, k)|
    decreases es, 0
  {
    if es != [] {
      ReportedLengthOf(es[0], |es| == 1, j, k);
      ReportedLength(es[1..], j, k);
    }
  }

  lemma {:induction false} ReportedLengthOf(e: Entry, last: bool, j: nat, k: nat)
    ensures |ReportedOf(e, last, j)| == |DepthsOf(e, k)|
    decreases e, 1
  {
    if e.Collection? {
      ReportedLength(e.entries, if last then j else j + 1, k + 1);
    }
  }

  /** `depth` is right for every entry exactly when no listing ends with a non-empty collection:
      such a listing's own frame is dropped before the collection's is pushed. */
  lemma {:induction false} DepthIsRight(es: seq<Entry>, k: nat)
    ensures Reported(es, k) == Depths(es, k) <==> !EndsInFullCollection(es)
    decreases es, 0
  {
    if es != [] {
      var last := |es| == 1;
      DepthIsRightOf(es[0], last, k);
      DepthIsRight(es[1..], k);
      ReportedLengthOf(es[0], last, k, k);
      var r, d := ReportedOf(es[0], last, k), DepthsOf(es[0], k);
      assert Reported(es, k)[..|r|] == r && Reported(es, k)[|r|..] == Reported(es[1..], k);
      assert Depths(es, k)[..|r|] == d && Depths(es, k)[|r|..] == Depths(es[1..], k);
    }
  }

  lemma {:induction false} DepthIsRightOf(e: Entry, last: bool, k: nat)
    ensures ReportedOf(e, last, k) == DepthsOf(e, k) <==>
            !FullInside(e) && !(last && e.Collection? && e.entries != [])
    decreases e, 1
  {
    if e.Collection? {
      DepthIsRight(e.entries, k + 1);
      assert ReportedOf(e, last, k)[1..] == Reported(e.entries, if last then k else k + 1);
      assert DepthsOf(e, k)[1..] == Depths(e.entries, k + 1);
      if last && e.entries != [] {
        assert Reported(e.entries, k)[0] == k && Depths(e.entries, k + 1)[0] == k + 1;
      }
    }
  }

  /** An object in the last collection of a listing is reported beside it. */
  lemma LastChildLooksShallow()
    ensures var es := [Collection("a", [DataObject("b")])];
            Reported(es, 0) == [0, 0] && Depths(es, 0) == [0, 1]
  {
    var inner, es := [DataObject("b")], [Collection("a", [DataObject("b")])];
    assert Reported(inner[1..], 0) == [] && Depths(inner[1..], 1) == [];
    assert Reported(inner, 0) == [0] && Depths(inner, 1) == [1];
    assert Reported(es[1..], 0) == [] && Depths(es[1..], 0) == [];
  }
}
