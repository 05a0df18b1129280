/** A store of settings under nested keys. A reference into the nested maps is the key path that
    leads to what it refers to. */
module ConfigurationParser {
  import opened Wrappers

  type Path = seq<string>

  /** What a store can hold at a key: nothing yet, a value of some type other than a map, or a map. */
  datatype Value = Empty | Scalar(kind: nat, text: string) | Node(entries: map<string, Value>)

  /** The type asked of a value. */
  datatype Kind = AnyMap | AnyScalar(kind: nat)

  predicate HasKind(v: Value, kind: Kind) {
    match v
    case Empty => false
    case Scalar(k, _) => kind == AnyScalar(k)
    case Node(_) => kind == AnyMap
  }

  datatype Error = NoKeys | KeyNotFound | InvalidAnyCast

  // ----- References

  /** What a key path refers to. */
  function At(v: Value, path: Path): Option<Value>
    decreases |path|
  {
    if path == [] then Some(v) else
    if v.Node? && path[0] in v.entries then At(v.entries[path[0]], path[1..]) else None
  }

  /** Whether a path refers to an entry of a map that is there. */
  predicate HasPlace(v: Value, path: Path)
    decreases |path|
  {
    path == [] || (v.Node? && (|path| == 1 || (path[0] in v.entries && HasPlace(v.entries[path[0]], path[1..]))))
  }

  /** Assignment through a reference. */
  function Put(v: Value, path: Path, x: Value): Value
    requires HasPlace(v, path)
    decreases |path|
  {
    if path == [] then x else
    if |path| == 1 then Node(v.entries[path[0] := x]) else
    Node(v.entries[path[0] := Put(v.entries[path[0]], path[1..], x)])
  }

  lemma {:induction false} PutAt(v: Value, path: Path, x: Value)
    requires HasPlace(v, path)
    ensures At(Put(v, path, x), path) == Some(x)
    decreases |path|
  {
    if |path| > 1 {
      PutAt(v.entries[path[0]], path[1..], x);
    }
  }

  lemma {:induction false} PutTwice(v: Value, path: Path, x: Value, y: Value)
    requires HasPlace(v, path)
    ensures HasPlace(Put(v, path, x), path) && Put(Put(v, path, x), path, y) == Put(v, path, y)
    decreases |path|
  {
    if |path| == 1 {
      assert v.entries[path[0] := x][path[0] := y] == v.entries[path[0] := y];
    } else if |path| > 1 {
      var k, rest := path[0], path[1..];
      PutTwice(v.entries[k], rest, x, y);
      var inner := Put(v.entries[k], rest, x);
      assert v.entries[k := inner][k := Put(inner, rest, y)] == v.entries[k := Put(inner, rest, y)];
    }
  }

  /** There is a place below a reference exactly when it refers to a map. */
  lemma {:induction false} PlaceBelow(v: Value, path: Path, k: string)
    requires At(v, path).Some?
    ensures HasPlace(v, path)
    ensures HasPlace(v, path + [k]) <==> At(v, path).value.Node?
    ensures At(v, path).value.Node? ==>
              At(v, path + [k]) == if k in At(v, path).value.entries then Some(At(v, path).value.entries[k]) else None
    decreases |path|
  {
    if path == [] {
      assert [] + [k] == [k];
    } else {
      assert (path + [k])[1..] == path[1..] + [k];
      PlaceBelow(v.entries[path[0]], path[1..], k);
    }
  }

  /** Assignment below a reference is assignment of the changed map through it. */
  lemma {:induction false} PutBelow(v: Value, path: Path, k: string, x: Value)
    requires At(v, path).Some? && At(v, path).value.Node?
    ensures HasPlace(v, path) && HasPlace(v, path + [k])
    ensures Put(v, path + [k], x) == Put(v, path, Node(At(v, path).value.entries[k := x]))
    decreases |path|
  {
    PlaceBelow(v, path, k);
    if path == [] {
      assert [] + [k] == [k];
    } else {
      assert (path + [k])[1..] == path[1..] + [k];
      PutBelow(v.entries[path[0]], path[1..], k, x);
    }
  }

  // ----- Setting

  /** Maps made on the way down to a key path that starts from nothing. */
  function Chain(keys: Path, x: Value): Value
    decreases |keys|
  {
    if keys == [] then x else Node(map[keys[0] := Chain(keys[1..], x)])
  }

  /** The entry of a map that a key makes if it is not there. */
  function EntryOf(entries: map<string, Value>, k: string): Value {
    if k in entries then entries[k] else Empty
  }

  /** The value after setting below it: empty values on the way become maps, others are in the way. */
  function SetBelow(v: Value, keys: Path, x: Value): Option<Value>
    decreases |keys|
  {
    if keys == [] then Some(x) else
    match v
    case Empty => Some(Chain(keys, x))
    case Scalar(_, _) => None
    case Node(entries) =>
      match SetBelow(EntryOf(entries, keys[0]), keys[1..], x)
      case None => None
      case Some(inner) => Some(Node(entries[keys[0] := inner]))
  }

  lemma {:induction false} ChainAt(keys: Path, x: Value, more: Path)
    ensures At(Chain(keys, x), keys + more) == At(x, more)
    decreases |keys|
  {
    if keys == [] {
      assert [] + more == more;
    } else {
      assert (keys + more)[1..] == keys[1..] + more;
      ChainAt(keys[1..], x, more);
    }
  }

  /** Below a path that was set stands what was set there. */
  lemma {:induction false} SetThenGet(v: Value, keys: Path, x: Value, more: Path)
    requires SetBelow(v, keys, x).Some?
    ensures At(SetBelow(v, keys, x).value, keys + more) == At(x, more)
    decreases |keys|
  {
    if keys == [] {
      assert [] + more == more;
    } else if v.Empty? {
      ChainAt(keys, x, more);
    } else {
      assert (keys + more)[1..] == keys[1..] + more;
      SetThenGet(EntryOf(v.entries, keys[0]), keys[1..], x, more);
    }
  }

  predicate AreRelated(p: Path, q: Path) {
    p <= q || q <= p
  }

  lemma RelatedTails(p: Path, q: Path)
    requires p != [] && q != [] && p[0] == q[0]
    ensures AreRelated(p, q) <==> AreRelated(p[1..], q[1..])
  {
    assert p == [p[0]] + p[1..] && q == [q[0]] + q[1..];
  }

  lemma {:induction false} ChainAtOther(keys: Path, x: Value, q: Path)
    requires !AreRelated(keys, q)
    ensures At(Chain(keys, x), q) == None
    decreases |keys|
  {
    if q[0] == keys[0] {
      RelatedTails(keys, q);
      ChainAtOther(keys[1..], x, q[1..]);
    }
  }

  /** Everywhere else the store is what it was, present or absent. */
  lemma {:induction false} SetLeavesOthers(v: Value, keys: Path, x: Value, q: Path)
    requires SetBelow(v, keys, x).Some? && !AreRelated(keys, q)
    ensures At(SetBelow(v, keys, x).value, q) == At(v, q)
    decreases |keys|
  {
    if v.Empty? {
      ChainAtOther(keys, x, q);
    } else if q[0] == keys[0] {
      RelatedTails(keys, q);
      SetLeavesOthers(EntryOf(v.entries, keys[0]), keys[1..], x, q[1..]);
    }
  }

  lemma {:induction false} ChainOverride(keys: Path, x: Value, y: Value)
    ensures SetBelow(Chain(keys, x), keys, y) == Some(Chain(keys, y))
    decreases |keys|
  {
    if keys != [] {
      ChainOverride(keys[1..], x, y);
      var k, once, twice := keys[0], Chain(keys[1..], x), Chain(keys[1..], y);
      assert map[k := once][k := twice] == map[k := twice];
    }
  }

  /** A second set overrides the first. */
  lemma {:induction false} SetOverrides(v: Value, keys: Path, x: Value, y: Value)
    requires SetBelow(v, keys, x).Some?
    ensures SetBelow(SetBelow(v, keys, x).value, keys, y) == SetBelow(v, keys, y)
    decreases |keys|
  {
    if keys != [] && v.Empty? {
      ChainOverride(keys, x, y);
    } else if keys != [] {
      var k := keys[0];
      var inner := EntryOf(v.entries, k);
      SetOverrides(inner, keys[1..], x, y);
      var once := SetBelow(inner, keys[1..], x).value;
      match SetBelow(inner, keys[1..], y)
      case None =>
      case Some(twice) =>
        assert v.entries[k := once][k := twice] == v.entries[k := twice];
    }
  }

  /** Setting what is already there changes nothing. */
  lemma {:induction false} SetOfGotten(v: Value, keys: Path)
    requires At(v, keys).Some?
    ensures SetBelow(v, keys, At(v, keys).value) == Some(v)
    decreases |keys|
  {
    if keys != [] {
      SetOfGotten(v.entries[keys[0]], keys[1..]);
      assert v.entries[keys[0] := v.entries[keys[0]]] == v.entries;
    }
  }

  /** Whether a value that is not a map stands on the way to the last key. */
  predicate IsBlocked(v: Value, keys: Path) {
    exists i :: 0 <= i < |keys| && Blocks(v, keys[..i])
  }

  predicate Blocks(v: Value, path: Path) {
    At(v, path).Some? && At(v, path).value.Scalar?
  }

  lemma BlocksBelow(v: Value, keys: Path)
    requires v.Node? && keys != []
    ensures IsBlocked(v, keys) <==> keys[0] in v.entries && IsBlocked(v.entries[keys[0]], keys[1..])
  {
    forall i | 0 < i < |keys|
      ensures Blocks(v, keys[..i]) <==> keys[0] in v.entries && Blocks(v.entries[keys[0]], keys[1..][..i - 1])
    {
      assert keys[..i][1..] == keys[1..][..i - 1];
    }
    if keys[0] in v.entries && IsBlocked(v.entries[keys[0]], keys[1..]) {
      var i :| 0 <= i < |keys[1..]| && Blocks(v.entries[keys[0]], keys[1..][..i]);
      assert Blocks(v, keys[..i + 1]);
    }
  }

  /** Setting fails exactly when a value that is not a map stands on the way. */
  lemma {:induction false} SetFailsWhenBlocked(v: Value, keys: Path, x: Value)
    ensures SetBelow(v, keys, x).None? <==> IsBlocked(v, keys)
    decreases |keys|
  {
    if keys != [] {
      assert keys[..0] == [];
      if v.Node? {
        BlocksBelow(v, keys);
        var inner := EntryOf(v.entries, keys[0]);
        SetFailsWhenBlocked(inner, keys[1..], x);
        if inner.Empty? {
          NothingBelowEmpty(keys[1..]);
        }
      } else {
        if v.Scalar? {
          assert Blocks(v, keys[..0]);
        } else {
          NothingBelowEmpty(keys);
        }
      }
    }
  }

  lemma NothingBelowEmpty(keys: Path)
    ensures !IsBlocked(Empty, keys)
  {
  }

  lemma SetsCommuteApart(v: Value, p: Path, x: Value, q: Path, y: Value)
    requires v.Node? && p != [] && q != [] && p[0] != q[0]
    requires SetBelow(v, p, x).Some? && SetBelow(v, q, y).Some?
    ensures SetBelow(SetBelow(v, p, x).value, q, y) == SetBelow(SetBelow(v, q, y).value, p, x) != None
  {
    var i, j := p[0], q[0];
    var px := SetBelow(EntryOf(v.entries, i), p[1..], x).value;
    var qy := SetBelow(EntryOf(v.entries, j), q[1..], y).value;
    assert v.entries[i := px][j := qy] == v.entries[j := qy][i := px];
  }

  lemma SetTwiceBelow(v: Value, p: Path, x: Value, q: Path, y: Value)
    requires v.Node? && p != [] && q != [] && p[0] == q[0]
    requires SetBelow(v, p, x).Some?
    ensures var once := SetBelow(EntryOf(v.entries, p[0]), p[1..], x);
            && once.Some?
            && SetBelow(SetBelow(v, p, x).value, q, y) ==
                 match SetBelow(once.value, q[1..], y)
                 case None => None
                 case Some(twice) => Some(Node(v.entries[p[0] := twice]))
  {
    var once := SetBelow(EntryOf(v.entries, p[0]), p[1..], x).value;
    match SetBelow(once, q[1..], y)
    case None =>
    case Some(twice) =>
      assert v.entries[p[0] := once][p[0] := twice] == v.entries[p[0] := twice];
  }

  /** Sets on unrelated paths can be made in either order. */
  lemma {:induction false} SetsCommute(v: Value, p: Path, x: Value, q: Path, y: Value)
    requires !AreRelated(p, q) && SetBelow(v, p, x).Some? && SetBelow(v, q, y).Some?
    ensures SetBelow(SetBelow(v, p, x).value, q, y) == SetBelow(SetBelow(v, q, y).value, p, x) != None
    decreases |p|, if v.Empty? then 1 else 0
  {
    if v.Empty? {
      EmptyActsAsMap(p, x);
      EmptyActsAsMap(q, y);
      SetsCommute(Node(map[]), p, x, q, y);
    } else if p[0] == q[0] {
      RelatedTails(p, q);
      SetTwiceBelow(v, p, x, q, y);
      SetTwiceBelow(v, q, y, p, x);
      hide SetBelow;
      SetsCommute(EntryOf(v.entries, p[0]), p[1..], x, q[1..], y);
    } else {
      SetsCommuteApart(v, p, x, q, y);
    }
  }

  lemma {:induction false} EmptyActsAsMap(keys: Path, x: Value)
    requires keys != []
    ensures SetBelow(Empty, keys, x) == SetBelow(Node(map[]), keys, x) == Some(Chain(keys, x))
  {
    assert SetBelow(Empty, keys[1..], x) == Some(Chain(keys[1..], x));
  }

  // ----- The parser's store

  /** What `get` finds, or the error it throws. */
  function Gotten(v: Value, keys: Path, kind: Kind): Result<Value, Error>
    decreases |keys|
  {
    if keys == [] then
      if HasKind(v, kind) then Ok(v) else Err(InvalidAnyCast)
    else if !v.Node? then Err(InvalidAnyCast)
    else if keys[0] !in v.entries then Err(KeyNotFound)
    else Gotten(v.entries[keys[0]], keys[1..], kind)
  }

  /** A value is gotten exactly when it is there and has the type asked for; a key is missing exactly
      when there is a map without it on the way. */
  lemma {:induction false} GottenMeans(v: Value, keys: Path, kind: Kind, x: Value)
    ensures Gotten(v, keys, kind) == Ok(x) <==>
              && At(v, keys) == Some(x)
              && if kind.AnyMap? then x.Node? else x.Scalar? && x.kind == kind.kind
    ensures Gotten(v, keys, kind) == Err(KeyNotFound) <==> IsMissing(v, keys)
    ensures Gotten(v, keys, kind) != Err(NoKeys)
    decreases |keys|
  {
    if keys != [] {
      assert keys[..0] == [];
      if v.Node? && keys[0] in v.entries {
        GottenMeans(v.entries[keys[0]], keys[1..], kind, x);
        MissingBelow(v, keys);
      } else if v.Node? {
        assert Misses(v, keys[..0], keys[0]);
      }
    }
  }

  predicate Misses(v: Value, path: Path, k: string) {
    At(v, path).Some? && At(v, path).value.Node? && k !in At(v, path).value.entries
  }

  predicate IsMissing(v: Value, keys: Path) {
    exists i :: 0 <= i < |keys| && Misses(v, keys[..i], keys[i])
  }

  lemma MissingBelow(v: Value, keys: Path)
    requires keys != [] && v.Node? && keys[0] in v.entries
    ensures IsMissing(v, keys) <==> IsMissing(v.entries[keys[0]], keys[1..])
  {
    var inner, rest := v.entries[keys[0]], keys[1..];
    forall i | 0 < i < |keys| ensures Misses(v, keys[..i], keys[i]) <==> Misses(inner, rest[..i - 1], rest[i - 1]) {
      assert keys[..i][1..] == rest[..i - 1];
    }
    if IsMissing(inner, rest) {
      var i :| 0 <= i < |rest| && Misses(inner, rest[..i], rest[i]);
      assert Misses(v, keys[..i + 1], keys[i + 1]);
    }
  }

  // ----- Walking down in place

  /** Setting the keys left below a reference, and assigning the result through it. */
  function SetThrough(v: Value, path: Path, keys: Path, x: Value): Option<Value>
    requires At(v, path).Some?
  {
    HasPlaceWhereAt(v, path);
    match SetBelow(At(v, path).value, keys, x)
    case None => None
    case Some(y) => Some(Put(v, path, y))
  }

  lemma HasPlaceWhereAt(v: Value, path: Path)
    requires At(v, path).Some?
    ensures HasPlace(v, path)
  {
    PlaceBelow(v, path, "");
  }

  /** An empty value on the way is made a map. */
  lemma EmptyBecomesMap(v: Value, path: Path, keys: Path, x: Value)
    requires At(v, path) == Some(Empty) && keys != []
    ensures HasPlace(v, path)
    ensures var w := Put(v, path, Node(map[]));
            At(w, path) == Some(Node(map[])) && SetThrough(w, path, keys, x) == SetThrough(v, path, keys, x)
  {
    hide Put, At, SetBelow;
    HasPlaceWhereAt(v, path);
    var w := Put(v, path, Node(map[]));
    PutAt(v, path, Node(map[]));
    EmptyActsAsMap(keys, x);
    PutTwice(v, path, Node(map[]), Chain(keys, x));
  }

  /** A key that is not there is made with an empty value. */
  lemma KeyIsMade(v: Value, path: Path, keys: Path, x: Value)
    requires At(v, path).Some? && At(v, path).value.Node? && keys != []
    ensures HasPlace(v, path + [keys[0]])
    ensures var entries, next := At(v, path).value.entries, path + [keys[0]];
            var w := if keys[0] in entries then v else Put(v, next, Empty);
            && At(w, next) == Some(EntryOf(entries, keys[0]))
            && SetThrough(w, next, keys[1..], x) == SetThrough(v, path, keys, x)
  {
    var entries, k := At(v, path).value.entries, keys[0];
    var inner := SetBelow(EntryOf(entries, k), keys[1..], x);
    PlaceBelow(v, path, k);
    assert SetBelow(At(v, path).value, keys, x) ==
           match inner case None => None case Some(y) => Some(Node(entries[k := y]));
    hide Put, At, SetBelow, HasPlace;
    if inner.Some? {
      PutBelow(v, path, k, inner.value);
    }
    if k !in entries {
      PutAt(v, path + [k], Empty);
      PutTwice(v, path + [k], Empty, if inner.Some? then inner.value else Empty);
    }
  }

  /** `configuration_parser`. */
  class Parser {
    var root: map<string, Value>

    constructor ()
      ensures root == map[]
    {
      root := map[];
    }

    function Store(): Value
      reads this
    {
      Node(root)
    }

    method Assign(path: Path, x: Value)
      requires path != [] && HasPlace(Store(), path)
      modifies this
      ensures Store() == Put(old(Store()), path, x)
    {
      root := Put(Store(), path, x).entries;
    }

    /** `set` with a key path. The map entries made on the way are in place only if the set goes
        through: one that throws leaves the store as it was. */
    method Set(keys: Path, x: Value) returns (r: Result<Value, Error>)
      modifies this
      ensures keys == [] ==> r == Err(NoKeys) && root == old(root)
      ensures keys != [] ==>
                match SetBelow(old(Store()), keys, x)
                case None => r == Err(InvalidAnyCast) && root == old(root)
                case Some(v) => r == Ok(x) && Store() == v
    {
      hide SetBelow, At, Put, HasPlace;
      if keys == [] {
        return Err(NoKeys);
      }
      var current: Path := [];
      ghost var was := Store();
      AtNothing(was, keys, x);
      for i := 0 to |keys|
        invariant current == keys[..i] && At(Store(), current).Some?
        invariant SetThrough(Store(), current, keys[i..], x) == SetBelow(was, keys, x)
        invariant Store() == was || At(Store(), current) == Some(Empty)
        invariant i == 0 ==> At(Store(), current).value.Node?
      {
        var key := keys[i];
        assert keys[i..][1..] == keys[i + 1..] && keys[..i + 1] == keys[..i] + [key];
        if i > 0 {
          if At(Store(), current).value.Empty? {
            EmptyBecomesMap(Store(), current, keys[i..], x);
            Assign(current, Node(map[]));
          }
          if !At(Store(), current).value.Node? {
            Blocked(Store(), current, keys[i..], x);
            return Err(InvalidAnyCast);
          }
        }
        KeyIsMade(Store(), current, keys[i..], x);
        if key !in At(Store(), current).value.entries {
          Assign(current + [key], Empty);
        }
        current := current + [key];
      }
      HasPlaceWhereAt(Store(), current);
      assert keys[|keys|..] == [];
      NothingLeft(Store(), current, x);
      Assign(current, x);
      return Ok(x);
    }

    /** `get` with a key path. */
    method Get(keys: Path, kind: Kind) returns (r: Result<Value, Error>)
      ensures r == if keys == [] then Err(NoKeys) else Gotten(Store(), keys, kind)
    {
      if keys == [] {
        return Err(NoKeys);
      }
      var current := Node(root);
      for i := 0 to |keys|
        invariant Gotten(Store(), keys, kind) == Gotten(current, keys[i..], kind)
        invariant i == 0 ==> current.Node?
      {
        if i > 0 && !current.Node? {
          return Err(InvalidAnyCast);
        }
        if keys[i] !in current.entries {
          return Err(KeyNotFound);
        }
        current := current.entries[keys[i]];
      }
      return if HasKind(current, kind) then Ok(current) else Err(InvalidAnyCast);
    }
  }

  lemma AtNothing(v: Value, keys: Path, x: Value)
    requires v.Node?
    ensures At(v, []) == Some(v) && keys[..0] == [] && SetThrough(v, [], keys[0..], x) == SetBelow(v, keys, x)
  {
    assert keys[0..] == keys;
  }

  lemma Blocked(v: Value, path: Path, keys: Path, x: Value)
    requires At(v, path).Some? && At(v, path).value.Scalar? && keys != []
    ensures SetThrough(v, path, keys, x) == None
  {
  }

  lemma NothingLeft(v: Value, path: Path, x: Value)
    requires At(v, path).Some?
    ensures HasPlace(v, path) && SetThrough(v, path, [], x) == Some(Put(v, path, x))
  {
    HasPlaceWhereAt(v, path);
  }
}
