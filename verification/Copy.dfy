/** Copying inside the catalog of collections and data objects. A path is the list of its elements
    after the root. */
module Copy {
  import opened Wrappers

  type Path = seq<string>
  type Content = seq<int>

  datatype Object = Collection(perms: int) | Data(content: Content)

  type Objects = map<Path, Object>

  /** The root is a collection, and everything else is in a collection. */
  predicate IsClosed(objects: Objects) {
    && [] in objects && objects[[]].Collection?
    && forall p :: p in objects && p != [] ==> IsCollectionAt(objects, p[..|p| - 1])
  }

  predicate IsCollectionAt(objects: Objects, p: Path) {
    p in objects && objects[p].Collection?
  }

  predicate IsDataAt(objects: Objects, p: Path) {
    p in objects && objects[p].Data?
  }

  /** Whether something is at `p`, or can be put there. */
  predicate HasParent(objects: Objects, p: Path) {
    p in objects || (p != [] && IsCollectionAt(objects, p[..|p| - 1]))
  }

  /** The bits of `copy_options`; `none` is the one without any. */
  datatype CopyOptions = CopyOptions(
    skipExisting: bool,
    overwriteExisting: bool,
    updateExisting: bool,
    recursive: bool,
    collectionsOnly: bool,
    inRecursiveCopy: bool)

  const NONE := CopyOptions(false, false, false, false, false, false)
  const SKIP_EXISTING := NONE.(skipExisting := true)
  const OVERWRITE_EXISTING := NONE.(overwriteExisting := true)
  const UPDATE_EXISTING := NONE.(updateExisting := true)

  // ----- What is to be copied

  /** Whether options ask for the object at `q` when `source` is copied to where nothing is. A
      collection is copied as a whole if the copy is recursive, without what its own collections
      hold if there are no options, and not at all otherwise. */
  predicate IsWanted(objects: Objects, source: Path, o: CopyOptions, q: Path) {
    && q in objects && source <= q
    && if objects[q].Data? then
         !o.collectionsOnly && (o.recursive || q == source || (o == NONE && |q| == |source| + 1))
       else
         o.recursive || (o == NONE && q == source)
  }

  function Moved(source: Path, target: Path, q: Path): Path
    requires source <= q
  {
    target + q[|source|..]
  }

  /** Where the object at `q` goes: to the place below the target that it has below the source, but a
      data object that finds a collection there goes into it. */
  function PlaceOf(objects: Objects, source: Path, target: Path, q: Path): (p: Path)
    requires q in objects && source <= q
    ensures target <= p
  {
    var p := Moved(source, target, q);
    if objects[q].Data? && IsCollectionAt(objects, p) && q != [] then p + [q[|q| - 1]] else p
  }

  /** The object that goes to `p`, if any does. */
  function OriginOf(objects: Objects, source: Path, target: Path, p: Path): (q: Path)
    ensures source <= q
  {
    if target <= p && Moved(target, source, p) in objects then Moved(target, source, p) else
    if p != [] && target <= p[..|p| - 1] then Moved(target, source, p[..|p| - 1]) else source
  }

  predicate IsLanding(objects: Objects, source: Path, target: Path, o: CopyOptions, p: Path) {
    var q := OriginOf(objects, source, target, p);
    IsWanted(objects, source, o, q) && PlaceOf(objects, source, target, q) == p
  }

  /** The copies, each at its place. */
  ghost function Image(objects: Objects, source: Path, target: Path, o: CopyOptions): Objects {
    var places := set q | q in objects && source <= q :: PlaceOf(objects, source, target, q);
    map p | p in places && IsLanding(objects, source, target, o, p) :: objects[OriginOf(objects, source, target, p)]
  }

  lemma ImageAt(objects: Objects, source: Path, target: Path, o: CopyOptions, p: Path)
    ensures var image := Image(objects, source, target, o);
            && (p in image <==> IsLanding(objects, source, target, o, p))
            && (p in image ==> target <= p && image[p] == objects[OriginOf(objects, source, target, p)])
  {
  }

  /** The objects a copy comes to, wanted or not. */
  predicate IsVisited(objects: Objects, source: Path, o: CopyOptions, q: Path) {
    && q in objects && source <= q
    && (q == source || o.recursive || (o == NONE && |q| == |source| + 1))
  }

  predicate HasRoomFor(objects: Objects, source: Path, target: Path, o: CopyOptions, q: Path)
    requires q in objects && source <= q
  {
    if objects[q].Data? then o.collectionsOnly || PlaceOf(objects, source, target, q) !in objects
    else !IsDataAt(objects, Moved(source, target, q))
  }

  /** Nothing is in the way: no object at the place of a data object that is to be copied, and no
      data object at the place of a collection. */
  ghost predicate HasRoom(objects: Objects, source: Path, target: Path, o: CopyOptions) {
    forall q :: IsVisited(objects, source, o, q) ==> HasRoomFor(objects, source, target, o, q)
  }

  // ----- Places

  predicate AreApart(p: Path, q: Path) {
    !(p <= q) && !(q <= p)
  }

  predicate IsWithin(p: Path, place: Path) {
    place <= p
  }

  predicate SameAt(a: Objects, b: Objects, p: Path) {
    (p in a <==> p in b) && (p in a ==> a[p] == b[p])
  }

  /** Nothing outside the subtree at `target` differs. */
  ghost predicate SameOutside(a: Objects, b: Objects, target: Path) {
    forall p :: !IsWithin(p, target) ==> SameAt(a, b, p)
  }

  lemma SameOutsideAddsUp(a: Objects, b: Objects, c: Objects, target: Path)
    requires SameOutside(a, b, target) && SameOutside(b, c, target)
    ensures SameOutside(a, c, target)
  {
    forall p | !IsWithin(p, target) ensures SameAt(a, c, p) {
      assert SameAt(a, b, p) && SameAt(b, c, p);
    }
  }

  lemma SameOutsideMore(a: Objects, b: Objects, target: Path, n: string)
    requires SameOutside(a, b, target + [n])
    ensures SameOutside(a, b, target)
  {
    forall p | !IsWithin(p, target) ensures SameAt(a, b, p) {
      Below(target, n, p);
    }
  }

  lemma SameOutsideItself(a: Objects, target: Path)
    ensures SameOutside(a, a, target)
  {
  }

  lemma Below(p: Path, n: string, q: Path)
    ensures p + [n] <= q <==> p <= q && |p| < |q| && q[|p|] == n
  {
    if p <= q && |p| < |q| && q[|p|] == n {
      assert q[..|p| + 1] == p + [n];
    }
  }

  lemma ApartBelow(p: Path, q: Path, n: string)
    requires AreApart(p, q)
    ensures AreApart(p + [n], q + [n])
  {
    if p + [n] <= q + [n] {
      Below(p, n, q + [n]);
      PrefixOfLonger(p, q, q + [n]);
    }
    if q + [n] <= p + [n] {
      Below(q, n, p + [n]);
      PrefixOfLonger(p, q, p + [n]);
    }
  }

  lemma PrefixOfLonger(p: Path, q: Path, r: Path)
    requires p <= r && q <= r
    ensures p <= q || q <= p
  {
    if |p| <= |q| {
      assert p == r[..|p|] == q[..|p|];
    } else {
      assert q == r[..|q|] == p[..|q|];
    }
  }

  lemma ApartSubtrees(p: Path, q: Path, r: Path)
    requires AreApart(p, q) && p <= r
    ensures !(q <= r)
  {
    if q <= r {
      PrefixOfLonger(p, q, r);
    }
  }

  /** What an object is in is there. */
  lemma {:induction false} AncestorsAreThere(objects: Objects, p: Path, k: nat)
    requires IsClosed(objects) && p in objects && k < |p|
    ensures IsCollectionAt(objects, p[..k])
    decreases |p|
  {
    assert IsCollectionAt(objects, p[..|p| - 1]);
    if k < |p| - 1 {
      AncestorsAreThere(objects, p[..|p| - 1], k);
      assert p[..|p| - 1][..k] == p[..k];
    }
  }

  lemma NothingBelow(objects: Objects, p: Path, q: Path)
    requires IsClosed(objects) && !IsCollectionAt(objects, p) && p < q
    ensures q !in objects
  {
    assert q[..|p|] == p;
    if q in objects {
      AncestorsAreThere(objects, q, |p|);
    }
  }

  lemma AddedIsClosed(objects: Objects, p: Path, x: Object)
    requires IsClosed(objects) && p !in objects && IsCollectionAt(objects, p[..|p| - 1])
    ensures IsClosed(objects[p := x]) && SameOutside(objects, objects[p := x], p)
  {
  }

  /** Replacing a data object or a collection by another of the same sort. */
  lemma ReplacedIsClosed(objects: Objects, p: Path, x: Object)
    requires IsClosed(objects) && p in objects && objects[p].Collection? == x.Collection?
    ensures IsClosed(objects[p := x]) && SameOutside(objects, objects[p := x], p)
  {
  }

  /** In a closed catalog every object is the origin of its place. */
  lemma OriginOfPlace(objects: Objects, source: Path, target: Path, q: Path)
    requires IsClosed(objects) && q in objects && source <= q
    ensures OriginOf(objects, source, target, PlaceOf(objects, source, target, q)) == q
  {
    hide IsClosed;
    var m, p := Moved(source, target, q), PlaceOf(objects, source, target, q);
    MovedBack(source, target, q);
    if p != m {
      assert p[..|p| - 1] == m;
      assert q < Moved(target, source, p);
      NothingBelow(objects, q, Moved(target, source, p));
    }
  }

  /** So a wanted object lands at its place. */
  lemma WantedLands(objects: Objects, source: Path, target: Path, o: CopyOptions, q: Path)
    requires IsClosed(objects) && q in objects && source <= q
    ensures var image, p := Image(objects, source, target, o), PlaceOf(objects, source, target, q);
            && (p in image <==> IsWanted(objects, source, o, q))
            && (p in image ==> image[p] == objects[q])
  {
    hide IsClosed, Image;
    OriginOfPlace(objects, source, target, q);
    ImageAt(objects, source, target, o, PlaceOf(objects, source, target, q));
  }

  ghost function PathsWithin(objects: Objects, place: Path): set<Path> {
    set p | p in objects && IsWithin(p, place)
  }

  /** What was there still is, and what is new is at places of the image. */
  ghost predicate IsPartial(was: Objects, now: Objects, image: Objects) {
    && (forall p :: p in was ==> p in now && now[p] == was[p])
    && (forall p :: p in now ==> p in was || p in image)
  }

  /** The part of the image at the target itself and below it at some names. */
  ghost function Part(objects: Objects, source: Path, target: Path, o: CopyOptions, names: set<string>): Objects {
    var image := Image(objects, source, target, o);
    map p | p in image && target <= p && (p == target || p[|target|] in names) :: image[p]
  }

  predicate IsName(objects: Objects, source: Path, n: string) {
    source + [n] in objects
  }

  /** The catalog as it is when the children with some names have been copied. */
  ghost predicate IsMidway(was: Objects, now: Objects, source: Path, target: Path, o: CopyOptions, done: set<string>) {
    && IsCollectionAt(was, source) && AreApart(source, target) && SameOutside(was, now, target)
    && (o.recursive || o == NONE)
    && now == Part(was, source, target, o, done) + was
  }

  function Child(o: CopyOptions): CopyOptions {
    o.(inRecursiveCopy := true)
  }

  lemma PartBelow(was: Objects, source: Path, target: Path, o: CopyOptions, done: set<string>, n: string, p: Path)
    requires n !in done && target + [n] <= p
    ensures p !in Part(was, source, target, o, done)
  {
    hide Image, Part;
    PartAt(was, source, target, o, done, p);
    Below(target, n, p);
  }

  /** Below a child that was not copied yet nothing has changed, at its source or its target. */
  lemma ChildIsAsBefore(was: Objects, now: Objects, source: Path, target: Path, o: CopyOptions, done: set<string>,
                        n: string, p: Path)
    requires IsMidway(was, now, source, target, o, done) && n !in done
    requires source + [n] <= p || target + [n] <= p
    ensures SameAt(was, now, p)
  {
    hide Part, SameOutside;
    if target + [n] <= p {
      PartBelow(was, source, target, o, done, n, p);
    } else {
      Below(source, n, p);
      ApartSubtrees(source, target, p);
      SameAway(was, now, target, p);
    }
  }

  lemma SameAway(was: Objects, now: Objects, target: Path, p: Path)
    requires SameOutside(was, now, target) && !(target <= p)
    ensures SameAt(was, now, p)
  {
    assert !IsWithin(p, target);
  }

  lemma MovedFromChild(source: Path, target: Path, n: string, q: Path)
    requires source + [n] <= q
    ensures source <= q && Moved(source + [n], target + [n], q) == Moved(source, target, q)
    ensures target + [n] <= Moved(source, target, q)
  {
    Below(source, n, q);
    assert q[|source|..] == [n] + q[|source| + 1..];
  }

  /** A child's copy wants the same, sends it to the same places, and finds the same in the way. */
  lemma ChildCopiesTheSame(was: Objects, now: Objects, source: Path, target: Path, o: CopyOptions, done: set<string>,
                           n: string, q: Path)
    requires IsMidway(was, now, source, target, o, done) && n !in done && source + [n] <= q
    ensures source <= q && SameAt(was, now, q)
    ensures IsWanted(now, source + [n], Child(o), q) <==> IsWanted(was, source, o, q)
    ensures IsVisited(now, source + [n], Child(o), q) <==> IsVisited(was, source, o, q)
    ensures q in was ==>
              && PlaceOf(now, source + [n], target + [n], q) == PlaceOf(was, source, target, q)
              && (HasRoomFor(now, source + [n], target + [n], Child(o), q) <==> HasRoomFor(was, source, target, o, q))
  {
    ChildIsAsBefore(was, now, source, target, o, done, n, q);
    hide IsMidway;
    MovedFromChild(source, target, n, q);
    assert |q| == |source| + 1 <==> q == source + [n];
    ChildIsAsBefore(was, now, source, target, o, done, n, Moved(source, target, q));
    if q in was {
      ChildIsAsBefore(was, now, source, target, o, done, n, PlaceOf(now, source + [n], target + [n], q));
    }
    ChildOptions(was, now, source, target, o, done);
  }

  lemma ChildOptions(was: Objects, now: Objects, source: Path, target: Path, o: CopyOptions, done: set<string>)
    requires IsMidway(was, now, source, target, o, done)
    ensures o.recursive || o == NONE
    ensures Child(o) != NONE && Child(o).recursive == o.recursive && Child(o).collectionsOnly == o.collectionsOnly
  {
  }

  /** What goes to a place below a child's comes from below the child. */
  lemma ChildOrigin(was: Objects, now: Objects, source: Path, target: Path, o: CopyOptions, done: set<string>,
                    n: string, p: Path)
    requires IsMidway(was, now, source, target, o, done) && n !in done && target + [n] <= p
    ensures var q := OriginOf(now, source + [n], target + [n], p);
            || (source + [n] <= q && OriginOf(was, source, target, p) == q)
            || (q == source + [n] && q !in now && OriginOf(was, source, target, p) == source && p == target + [n])
  {
    hide Part, SameOutside;
    var m := Moved(target, source, p);
    MovedFromChild(target, source, n, p);
    ChildIsAsBefore(was, now, source, target, o, done, n, m);
    if m !in now {
      var parent := p[..|p| - 1];
      if p == target + [n] {
        assert parent == target && m == source + [n] && Moved(target, source, target) == source;
      } else {
        Below(target, n, p);
        Below(target, n, parent);
        assert parent[|target|] == p[|target|];
        MovedFromChild(target, source, n, parent);
      }
    }
  }

  /** The image of a child is the part of the image below its name. */
  lemma ChildImageAt(was: Objects, now: Objects, source: Path, target: Path, o: CopyOptions, done: set<string>,
                     n: string, p: Path)
    requires IsMidway(was, now, source, target, o, done) && n !in done && target + [n] <= p
    ensures var mine, all := Image(now, source + [n], target + [n], Child(o)), Image(was, source, target, o);
            && (p in mine <==> p in all)
            && (p in mine ==> mine[p] == all[p])
  {
    ImageAt(was, source, target, o, p);
    ImageAt(now, source + [n], target + [n], Child(o), p);
    ChildOrigin(was, now, source, target, o, done, n, p);
    var q := OriginOf(now, source + [n], target + [n], p);
    ChildCopiesTheSame(was, now, source, target, o, done, n, q);
    SourceLandsAtTarget(was, now, source, target, o, done);
    hide Image, IsWanted, PlaceOf, IsMidway, OriginOf, SameOutside;
    if source + [n] <= q && OriginOf(was, source, target, p) == q && IsWanted(was, source, o, q) {
      WantedIsThere(was, source, o, q);
    }
    WantedIsThere(now, source + [n], Child(o), q);
  }

  lemma WantedIsThere(objects: Objects, source: Path, o: CopyOptions, q: Path)
    ensures IsWanted(objects, source, o, q) ==> q in objects && source <= q
  {
  }

  lemma SourceLandsAtTarget(was: Objects, now: Objects, source: Path, target: Path, o: CopyOptions, done: set<string>)
    requires IsMidway(was, now, source, target, o, done)
    ensures source in was && PlaceOf(was, source, target, source) == target
  {
    assert Moved(source, target, source) == target;
  }

  lemma ImageOfData(was: Objects, source: Path, target: Path, o: CopyOptions)
    requires IsClosed(was) && IsDataAt(was, source)
    ensures var place := PlaceOf(was, source, target, source);
            && Image(was, source, target, o) == (if o.collectionsOnly then map[] else map[place := was[source]])
            && (HasRoom(was, source, target, o) <==> o.collectionsOnly || place !in was)
  {
    hide Image, IsClosed;
    var place := PlaceOf(was, source, target, source);
    forall q | q in was && source <= q ensures q == source {
      if q != source {
        NothingBelow(was, source, q);
      }
    }
    WantedLands(was, source, target, o, source);
    forall p | p in Image(was, source, target, o) ensures p == place {
      ImageAt(was, source, target, o, p);
    }
    assert IsVisited(was, source, o, source);
  }

  lemma NothingWanted(was: Objects, source: Path, target: Path, o: CopyOptions)
    requires IsCollectionAt(was, source) && !o.recursive && o != NONE && !IsDataAt(was, target)
    ensures Image(was, source, target, o) == map[] && HasRoom(was, source, target, o)
  {
    hide Image;
    forall p ensures p !in Image(was, source, target, o) {
      ImageAt(was, source, target, o, p);
    }
    assert Moved(source, target, source) == target;
  }

  lemma AllIsThere(was: Objects, image: Objects)
    ensures IsPartial(was, was, image) && map[] + was == was
  {
  }

  lemma OneIsAdded(was: Objects, p: Path, x: Object, image: Objects)
    requires p !in was && p in image
    ensures IsPartial(was, was[p := x], image) && was[p := x] == map[p := x] + was
  {
  }

  lemma OneIsThere(was: Objects, p: Path, x: Object)
    requires p in was
    ensures map[p := x] + was == was
  {
  }

  /** Where nothing is, nothing is in the way, every object goes to its own place, and the image is all
      new. */
  lemma AbsentTargetHasRoom(was: Objects, source: Path, target: Path, o: CopyOptions)
    requires IsClosed(was) && target !in was
    ensures HasRoom(was, source, target, o)
    ensures forall q :: q in was && source <= q ==> PlaceOf(was, source, target, q) == Moved(source, target, q)
    ensures Image(was, source, target, o) + was == was + Image(was, source, target, o)
  {
    hide IsClosed, Image;
    forall p | target <= p ensures p !in was {
      if p != target {
        NothingBelow(was, target, p);
      }
    }
    forall q | q in was && source <= q
      ensures PlaceOf(was, source, target, q) == Moved(source, target, q) && HasRoomFor(was, source, target, o, q)
    {
      MovedBack(source, target, q);
    }
    var image := Image(was, source, target, o);
    forall p | p in image ensures p !in was {
      ImageAt(was, source, target, o, p);
    }
  }

  lemma PartAt(was: Objects, source: Path, target: Path, o: CopyOptions, names: set<string>, p: Path)
    ensures var part, image := Part(was, source, target, o, names), Image(was, source, target, o);
            && (p in image ==> target <= p)
            && (p in part <==> p in image && (p == target || p[|target|] in names))
            && (p in part ==> part[p] == image[p])
  {
    hide Image;
    ImageAt(was, source, target, o, p);
  }

  /** The image of a collection begins with the collection. */
  lemma TargetInPart(was: Objects, source: Path, target: Path, o: CopyOptions, names: set<string>)
    requires IsClosed(was) && IsCollectionAt(was, source) && (o.recursive || o == NONE)
    ensures var part, image := Part(was, source, target, o, names), Image(was, source, target, o);
            && target in part && part[target] == was[source] && target in image
            && Part(was, source, target, o, {}) == map[target := was[source]]
  {
    hide Image, Part, IsClosed;
    assert Moved(source, target, source) == target;
    WantedLands(was, source, target, o, source);
    PartAt(was, source, target, o, names, target);
    forall p ensures p in Part(was, source, target, o, {}) ==> p == target {
      PartAt(was, source, target, o, {}, p);
    }
    PartAt(was, source, target, o, {}, target);
  }

  lemma PartNext(was: Objects, now: Objects, source: Path, target: Path, o: CopyOptions, done: set<string>, n: string)
    requires IsMidway(was, now, source, target, o, done) && n !in done
    ensures Image(now, source + [n], target + [n], Child(o)) + now == Part(was, source, target, o, done + {n}) + was
  {
    hide Image, Part, SameOutside;
    var child := Image(now, source + [n], target + [n], Child(o));
    var before, after := Part(was, source, target, o, done), Part(was, source, target, o, done + {n});
    forall p ensures (p in before || p in child <==> p in after)
             ensures p in child ==> p in after && child[p] == after[p]
             ensures p in before ==> p in after && before[p] == after[p]
    {
      PartAt(was, source, target, o, done, p);
      PartAt(was, source, target, o, done + {n}, p);
      Below(target, n, p);
      if target + [n] <= p {
        ChildImageAt(was, now, source, target, o, done, n, p);
      } else {
        ImageAt(now, source + [n], target + [n], Child(o), p);
      }
    }
  }

  lemma PartIsAll(was: Objects, source: Path, target: Path, o: CopyOptions, names: set<string>)
    requires IsClosed(was) && IsCollectionAt(was, source) && forall n :: n in names <==> IsName(was, source, n)
    ensures Part(was, source, target, o, names) == Image(was, source, target, o)
  {
    hide Image, Part, IsClosed;
    forall p ensures p in Part(was, source, target, o, names) <==> p in Image(was, source, target, o) {
      PartAt(was, source, target, o, names, p);
      ImageAt(was, source, target, o, p);
      if p in Image(was, source, target, o) && p != target {
        LandsBelowName(was, source, target, OriginOf(was, source, target, p));
      }
    }
    forall p
      ensures p in Part(was, source, target, o, names) ==>
                Part(was, source, target, o, names)[p] == Image(was, source, target, o)[p]
    {
      PartAt(was, source, target, o, names, p);
    }
  }

  lemma LandsBelowName(was: Objects, source: Path, target: Path, q: Path)
    requires IsClosed(was) && IsCollectionAt(was, source) && q in was && source <= q
    ensures var p := PlaceOf(was, source, target, q);
            p != target ==> |p| > |target| && IsName(was, source, p[|target|])
  {
    hide IsClosed;
    if q != source {
      assert q[..|source| + 1] == source + [q[|source|]];
      if |q| > |source| + 1 {
        AncestorsAreThere(was, q, |source| + 1);
      } else {
        assert q == q[..|source| + 1];
      }
    } else {
      assert Moved(source, target, source) == target;
    }
  }

  lemma PartIsPartial(was: Objects, source: Path, target: Path, o: CopyOptions, done: set<string>)
    ensures IsPartial(was, Part(was, source, target, o, done) + was, Image(was, source, target, o))
  {
    hide Image, Part;
    forall p ensures p in Part(was, source, target, o, done) ==> p in Image(was, source, target, o) {
      PartAt(was, source, target, o, done, p);
    }
  }

  lemma PartialAddsUp(was: Objects, now: Objects, next: Objects, source: Path, target: Path, o: CopyOptions,
                      done: set<string>, n: string)
    requires IsMidway(was, now, source, target, o, done) && n !in done
    requires IsPartial(now, next, Image(now, source + [n], target + [n], Child(o)))
    ensures IsPartial(was, next, Image(was, source, target, o))
  {
    PartIsPartial(was, source, target, o, done);
    hide SameOutside, Image, Part;
    forall p ensures p in Image(now, source + [n], target + [n], Child(o)) ==> p in Image(was, source, target, o) {
      ImageAt(now, source + [n], target + [n], Child(o), p);
      if p in Image(now, source + [n], target + [n], Child(o)) {
        ChildImageAt(was, now, source, target, o, done, n, p);
      }
    }
  }

  /** Copying a child leaves less of the source to copy. */
  lemma ChildIsSmaller(was: Objects, now: Objects, source: Path, target: Path, n: string)
    requires AreApart(source, target) && SameOutside(was, now, target) && source in was
    ensures |PathsWithin(now, source + [n])| < |PathsWithin(was, source)|
  {
    var less, more := PathsWithin(now, source + [n]), PathsWithin(was, source);
    forall p | p in less ensures p in more - {source} {
      Below(source, n, p);
      ApartSubtrees(source, target, p);
      assert SameAt(was, now, p);
    }
    assert source in more;
    SubsetIsSmaller(less, more - {source});
  }

  lemma {:induction false} SubsetIsSmaller<T>(a: set<T>, b: set<T>)
    requires a <= b
    ensures |a| <= |b|
  {
    if a != {} {
      var x :| x in a;
      SubsetIsSmaller(a - {x}, b - {x});
    }
  }

  /** Nothing is in the way below one child. */
  ghost predicate HasRoomBelow(was: Objects, source: Path, target: Path, o: CopyOptions, n: string) {
    forall q :: IsVisited(was, source, o, q) && source + [n] <= q ==> HasRoomFor(was, source, target, o, q)
  }

  lemma ChildHasRoom(was: Objects, now: Objects, source: Path, target: Path, o: CopyOptions, done: set<string>,
                     n: string)
    requires IsMidway(was, now, source, target, o, done) && n !in done
    ensures HasRoom(now, source + [n], target + [n], Child(o)) <==> HasRoomBelow(was, source, target, o, n)
  {
    hide IsMidway, HasRoomFor, IsVisited;
    forall q | source + [n] <= q
      ensures IsVisited(now, source + [n], Child(o), q) <==> IsVisited(was, source, o, q)
      ensures IsVisited(was, source, o, q) ==>
                && q in now && q in was && source <= q
                && (HasRoomFor(now, source + [n], target + [n], Child(o), q) <==> HasRoomFor(was, source, target, o, q))
    {
      ChildCopiesTheSame(was, now, source, target, o, done, n, q);
      VisitedIsThere(was, source, o, q);
    }
    forall q ensures IsVisited(now, source + [n], Child(o), q) ==> source + [n] <= q && q in now {
      VisitedIsThere(now, source + [n], Child(o), q);
    }
  }

  lemma VisitedIsThere(objects: Objects, source: Path, o: CopyOptions, q: Path)
    ensures IsVisited(objects, source, o, q) ==> q in objects && source <= q
  {
  }

  /** Nothing is in the way of a collection if nothing is at its own place and below its children. */
  lemma RoomByChildren(was: Objects, source: Path, target: Path, o: CopyOptions, names: set<string>)
    requires IsClosed(was) && IsCollectionAt(was, source) && !IsDataAt(was, target)
    requires forall n :: n in names <==> IsName(was, source, n)
    ensures HasRoom(was, source, target, o) <==> forall n :: n in names ==> HasRoomBelow(was, source, target, o, n)
  {
    hide IsClosed;
    if forall n :: n in names ==> HasRoomBelow(was, source, target, o, n) {
      forall q | IsVisited(was, source, o, q) ensures HasRoomFor(was, source, target, o, q) {
        if q == source {
          assert Moved(source, target, source) == target;
        } else {
          var n := q[|source|];
          assert source + [n] == q[..|source| + 1];
          if |q| > |source| + 1 {
            AncestorsAreThere(was, q, |source| + 1);
          } else {
            assert q == source + [n];
          }
          assert IsName(was, source, n) && HasRoomBelow(was, source, target, o, n);
        }
      }
    }
    forall n ensures HasRoom(was, source, target, o) ==> HasRoomBelow(was, source, target, o, n) {
      forall q | HasRoom(was, source, target, o) && IsVisited(was, source, o, q) && source + [n] <= q
        ensures source <= q && HasRoomFor(was, source, target, o, q)
      {
      }
    }
  }

  /** The parent of a child's target is there, and so is the child. */
  lemma ChildIsReady(was: Objects, now: Objects, source: Path, target: Path, o: CopyOptions, done: set<string>,
                     n: string)
    requires IsClosed(was) && IsMidway(was, now, source, target, o, done) && n !in done
    requires source + [n] in was && !IsDataAt(was, target)
    ensures source + [n] in now && IsCollectionAt(now, (target + [n])[..|target + [n]| - 1])
  {
    ChildIsAsBefore(was, now, source, target, o, done, n, source + [n]);
    hide Part, IsClosed, SameOutside;
    TargetInPart(was, source, target, o, done);
    assert (target + [n])[..|target + [n]| - 1] == target;
  }

  lemma NoRoomInData(was: Objects, source: Path, target: Path, o: CopyOptions)
    requires IsCollectionAt(was, source) && IsDataAt(was, target)
    ensures !HasRoom(was, source, target, o)
  {
    assert IsVisited(was, source, o, source);
    assert Moved(source, target, source) == target;
  }

  /** The names in a collection. */
  function Children(objects: Objects, source: Path): set<string> {
    set q | q in objects && |q| == |source| + 1 && source <= q :: q[|source|]
  }

  lemma ChildrenStay(was: Objects, now: Objects, source: Path, target: Path)
    requires AreApart(source, target) && SameOutside(was, now, target)
    ensures forall n :: n in Children(now, source) <==> IsName(was, source, n)
  {
    forall n ensures n in Children(now, source) <==> IsName(was, source, n) {
      var q := source + [n];
      ApartSubtrees(source, target, q);
      assert SameAt(was, now, q);
      if n in Children(now, source) {
        var p :| p in now && |p| == |source| + 1 && source <= p && p[|source|] == n;
        assert p == q;
      }
      if q in now {
        assert q[|source|] == n;
      }
    }
  }

  lemma MovedBack(source: Path, target: Path, q: Path)
    requires source <= q
    ensures target <= Moved(source, target, q) && Moved(target, source, Moved(source, target, q)) == q
  {
  }

  /** What each choice of options copies, object by object: everything, just the collections, just
      the collection and its data objects, or nothing. */
  lemma WhatIsCopied(objects: Objects, source: Path, target: Path, o: CopyOptions, q: Path)
    requires IsClosed(objects) && IsCollectionAt(objects, source) && q in objects && source <= q
    ensures var image, p := Image(objects, source, target, o), PlaceOf(objects, source, target, q);
            && (p in image ==> image[p] == objects[q])
            && (o.recursive && !o.collectionsOnly ==> p in image)
            && (o.recursive && o.collectionsOnly ==> (p in image <==> objects[q].Collection?))
            && (o == NONE ==> (p in image <==> q == source || (objects[q].Data? && |q| == |source| + 1)))
            && (!o.recursive && o != NONE ==> p !in image)
  {
    hide IsClosed, Image;
    WantedLands(objects, source, target, o, q);
  }

  /** A copy made to where nothing was, and the catalog after it. */
  ghost predicate IsCopied(objects: Objects, copied: Objects, source: Path, target: Path, o: CopyOptions) {
    && IsClosed(objects) && IsClosed(copied) && target !in objects && source in objects
    && copied == Image(objects, source, target, o) + objects
  }

  /** Every wanted object is in the copy, at the place it has below the source. */
  lemma CopyHolds(objects: Objects, copied: Objects, source: Path, target: Path, o: CopyOptions, q: Path)
    requires IsCopied(objects, copied, source, target, o) && IsWanted(objects, source, o, q)
    ensures source <= q && q in objects
    ensures var m := Moved(source, target, q);
            m in copied && copied[m] == objects[q] && target <= m && IsWanted(copied, target, o, m)
  {
    AbsentTargetHasRoom(objects, source, target, o);
    WantedLands(objects, source, target, o, q);
    hide IsClosed, Image;
    MovedBack(source, target, q);
    assert Moved(source, target, q) == target <==> q == source;
    NothingAtOrBelow(objects, target, Moved(source, target, q));
  }

  lemma NothingAtOrBelow(objects: Objects, p: Path, q: Path)
    requires IsClosed(objects) && p !in objects && p <= q
    ensures q !in objects
  {
    hide IsClosed;
    if p != q {
      NothingBelow(objects, p, q);
    }
  }

  /** And everything in the copy is such an object. */
  lemma CopyHoldsNoMore(objects: Objects, copied: Objects, source: Path, target: Path, o: CopyOptions, m: Path)
    returns (q: Path)
    requires IsCopied(objects, copied, source, target, o) && m in copied && target <= m
    ensures IsWanted(objects, source, o, q) && source <= q && Moved(source, target, q) == m
  {
    AbsentTargetHasRoom(objects, source, target, o);
    NothingAtOrBelow(objects, target, m);
    ImageAt(objects, source, target, o, m);
    q := OriginOf(objects, source, target, m);
  }

  /** Whether a copy of a data object goes into a collection, where it keeps its name. */
  predicate TakesName(objects: Objects, source: Path, target: Path, third: Path, o: CopyOptions)
    requires source != [] && target != []
  {
    && IsDataAt(objects, source) && IsCollectionAt(objects, third) && !o.collectionsOnly
    && source[|source| - 1] != target[|target| - 1]
  }

  lemma CopyGoesWhereOriginalGoes(objects: Objects, copied: Objects, source: Path, target: Path, third: Path,
                                  o: CopyOptions, q: Path)
    requires IsCopied(objects, copied, source, target, o) && AreApart(target, third) && source != [] && target != []
    requires IsWanted(objects, source, o, q)
    ensures source <= q && q in objects && Moved(source, target, q) in copied && target <= Moved(source, target, q)
    ensures !TakesName(objects, source, target, third, o) ==>
              PlaceOf(copied, target, third, Moved(source, target, q)) == PlaceOf(objects, source, third, q)
  {
    hide IsClosed, Image;
    CopyHolds(objects, copied, source, target, o, q);
    WantedIsThere(objects, source, o, q);
    var m, at := Moved(source, target, q), Moved(source, third, q);
    assert Moved(target, third, m) == at;
    ApartSubtrees(third, target, at);
    ImageAt(objects, source, target, o, at);
    assert SameAt(objects, copied, at);
    hide IsWanted, IsCopied;
    if q != source {
      assert m[|m| - 1] == q[|q| - 1];
    } else {
      assert m == target && at == third;
    }
  }

  /** A copy of a copy is what a copy of the original would be. */
  lemma CopyOfCopy(objects: Objects, copied: Objects, source: Path, target: Path, third: Path, o: CopyOptions)
    requires IsCopied(objects, copied, source, target, o) && AreApart(target, third) && source != [] && target != []
    requires !TakesName(objects, source, target, third, o)
    ensures Image(copied, target, third, o) == Image(objects, source, third, o)
  {
    hide IsWanted, PlaceOf, TakesName;
    var mine, all := Image(copied, target, third, o), Image(objects, source, third, o);
    hide Image;
    forall p | p in mine ensures p in all && mine[p] == all[p] {
      ImageAt(copied, target, third, o, p);
      var m := OriginOf(copied, target, third, p);
      WantedIsThere(copied, target, o, m);
      var q := CopyHoldsNoMore(objects, copied, source, target, o, m);
      CopyHolds(objects, copied, source, target, o, q);
      CopyGoesWhereOriginalGoes(objects, copied, source, target, third, o, q);
      WantedLands(objects, source, third, o, q);
    }
    forall p | p in all ensures p in mine {
      ImageAt(objects, source, third, o, p);
      var q := OriginOf(objects, source, third, p);
      CopyHolds(objects, copied, source, target, o, q);
      CopyGoesWhereOriginalGoes(objects, copied, source, target, third, o, q);
      WantedLands(copied, target, third, o, Moved(source, target, q));
    }
  }

  /** Except that a data object takes the name of the copy along when it goes into a collection. */
  lemma CopyOfCopyTakesName(objects: Objects, copied: Objects, source: Path, target: Path, third: Path, o: CopyOptions)
    requires IsCopied(objects, copied, source, target, o) && AreApart(target, third) && source != [] && target != []
    requires TakesName(objects, source, target, third, o)
    ensures Image(copied, target, third, o) == map[third + [target[|target| - 1]] := objects[source]]
    ensures Image(objects, source, third, o) == map[third + [source[|source| - 1]] := objects[source]]
    ensures Image(copied, target, third, o) != Image(objects, source, third, o)
  {
    hide IsClosed, Image;
    CopyHolds(objects, copied, source, target, o, source);
    assert Moved(source, target, source) == target && Moved(source, third, source) == third;
    assert Moved(target, third, target) == third;
    ImageOfData(objects, source, third, o);
    ImageOfData(copied, target, third, o);
    ApartSubtrees(third, target, third);
    ImageAt(objects, source, target, o, third);
    assert third + [target[|target| - 1]] != third + [source[|source| - 1]] by {
      assert (third + [target[|target| - 1]])[|third|] != (third + [source[|source| - 1]])[|third|];
    }
    assert third + [target[|target| - 1]] in Image(copied, target, third, o);
  }

  // ----- The catalog

  datatype Error =
    | NotFound
    | SameObject
    | CollectionIntoDataObject
    | NotCollection
    | NotDataObject
    | OptionsNotSet
    | Refused

  const DEFAULT_PERMS := 0

  class Catalog {
    var objects: Objects
    /** When data objects were last written, by the server's clock. */
    var written: map<Path, int>
    /** A reliable server refuses nothing that it can do. */
    const reliable: bool

    function LastWriteTime(p: Path): int
      reads this
    {
      if p in written then written[p] else 0
    }

    method Refuses() returns (refused: bool)
      ensures reliable ==> !refused
    {
      refused := *;
      refused := refused && !reliable;
    }

    /** `create_collection`. */
    method CreateCollection(p: Path) returns (r: Result<bool, Error>)
      requires IsClosed(objects)
      modifies this
      ensures IsClosed(objects) && SameOutside(old(objects), objects, p)
      ensures r.Ok? && !r.value ==> p in old(objects) && objects == old(objects)
      ensures r.Ok? && r.value ==> p !in old(objects) && objects == old(objects)[p := Collection(DEFAULT_PERMS)]
      ensures r.Err? ==> objects == old(objects) && p !in old(objects)
      ensures p != [] && p[..|p| - 1] !in old(objects) ==> r == Err(NotFound)
      ensures reliable && p !in old(objects) ==> (r.Ok? <==> IsCollectionAt(old(objects), p[..|p| - 1]))
    {
      if p != [] && p[..|p| - 1] !in objects {
        return Err(NotFound);
      }
      if p in objects {
        return Ok(false);
      }
      var refused := Refuses();
      if refused || objects[p[..|p| - 1]].Data? {
        return Err(Refused);
      }
      AddedIsClosed(objects, p, Collection(DEFAULT_PERMS));
      objects := objects[p := Collection(DEFAULT_PERMS)];
      return Ok(true);
    }

    /** `create_collection` after the pattern of an existing one. */
    method CreateCollectionLike(p: Path, existing: Path) returns (r: Result<bool, Error>)
      requires IsClosed(objects)
      modifies this
      ensures IsClosed(objects) && SameOutside(old(objects), objects, p)
      ensures r.Ok? ==> r.value && IsCollectionAt(old(objects), existing)
      ensures !IsCollectionAt(old(objects), existing) ==> r == Err(NotCollection)
      ensures r.Ok? && !IsDataAt(old(objects), p) ==> objects == old(objects)[p := old(objects)[existing]]
      ensures r.Err? ==> objects == old(objects) || objects == old(objects)[p := Collection(DEFAULT_PERMS)]
      ensures r.Err? && p in old(objects) ==> objects == old(objects)
      ensures reliable && IsCollectionAt(old(objects), existing) && p !in old(objects) ==>
                (r.Ok? <==> IsCollectionAt(old(objects), p[..|p| - 1]))
    {
      hide IsClosed, SameOutside;
      SameOutsideItself(objects, p);
      if !IsCollectionAt(objects, existing) {
        return Err(NotCollection);
      }
      var perms := objects[existing].perms;
      var created := CreateCollection(p);
      if created.Err? {
        return created;
      }
      var refused := Refuses();
      if refused {
        return Err(Refused);
      }
      if objects[p].Collection? {
        ReplacedIsClosed(objects, p, Collection(perms));
        SameOutsideAddsUp(old(objects), objects, objects[p := Collection(perms)], p);
        assert old(objects)[p := Collection(DEFAULT_PERMS)][p := Collection(perms)]
          == old(objects)[p := Collection(perms)];
        objects := objects[p := Collection(perms)];
      }
      return Ok(true);
    }

    /** `copy_data_object`: what happens to an existing target depends on the options being exactly
        one of three. One that is to be updated is left alone when it is not older than the source,
        and refused by the server otherwise. */
    method CopyDataObject(source: Path, target: Path, o: CopyOptions) returns (r: Result<bool, Error>)
      requires IsClosed(objects)
      modifies this
      ensures IsClosed(objects) && SameOutside(old(objects), objects, target)
      ensures !IsDataAt(old(objects), source) ==> r == Err(NotDataObject)
      ensures IsDataAt(old(objects), source) && target in old(objects) ==>
                && (source == target ==> r == Err(SameObject))
                && (old(objects)[target].Collection? ==> r == Err(NotDataObject))
                && (source != target && old(objects)[target].Data? && o == NONE ==> r == Err(OptionsNotSet))
      ensures r.Err? || !r.value ==> objects == old(objects)
      ensures r.Ok? && r.value ==>
                IsDataAt(old(objects), source) && objects == old(objects)[target := old(objects)[source]]
      ensures r.Ok? && r.value && target in old(objects) ==> o == OVERWRITE_EXISTING && IsDataAt(old(objects), target)
      ensures r.Ok? && !r.value ==> IsDataAt(old(objects), target) && (o == SKIP_EXISTING || o == UPDATE_EXISTING)
      ensures target in old(objects) && o.inRecursiveCopy ==> r.Err?
      ensures IsDataAt(old(objects), source) && IsDataAt(old(objects), target) && source != target &&
              o == UPDATE_EXISTING ==>
                r == if old(LastWriteTime(source) <= LastWriteTime(target)) then Ok(false) else Err(Refused)
      ensures IsDataAt(old(objects), source) && IsDataAt(old(objects), target) && source != target &&
              o == SKIP_EXISTING ==>
                r == Ok(false)
      ensures reliable && IsDataAt(old(objects), source) && source != target ==>
                && (target !in old(objects) && IsCollectionAt(old(objects), target[..|target| - 1]) ==> r == Ok(true))
                && (IsDataAt(old(objects), target) && o == OVERWRITE_EXISTING ==> r == Ok(true))
    {
      if !IsDataAt(objects, source) {
        return Err(NotDataObject);
      }
      var force := false;
      if target in objects {
        if source == target {
          return Err(SameObject);
        }
        if objects[target].Collection? {
          return Err(NotDataObject);
        }
        if o == NONE {
          return Err(OptionsNotSet);
        }
        if o == SKIP_EXISTING {
          return Ok(false);
        }
        if o == OVERWRITE_EXISTING {
          force := true;
        }
        if o == UPDATE_EXISTING && LastWriteTime(source) <= LastWriteTime(target) {
          return Ok(false);
        }
      }
      var refused := Refuses();
      if refused || (if target in objects then !force else !IsCollectionAt(objects, target[..|target| - 1])) {
        return Err(Refused);
      }
      if target in objects {
        ReplacedIsClosed(objects, target, objects[source]);
      } else {
        AddedIsClosed(objects, target, objects[source]);
      }
      var now: int := *;
      written := written[target := now];
      objects := objects[target := objects[source]];
      return Ok(true);
    }

    /** `copy`. If it succeeds, nothing was in the way and the image of the source is merged into what
        was there, which stays as it is; if it fails, a part of the image is. Only a data object
        copied alone may find its place taken and be skipped, written over or refused, as its options
        and the server's clock say. In any case nothing outside the target changes. */
    method Copy(source: Path, target: Path, o: CopyOptions) returns (r: Result<(), Error>)
      requires IsClosed(objects)
      requires source <= target ==> source == target
      requires IsCollectionAt(objects, source) && target <= source ==> source == target
      modifies this
      ensures IsClosed(objects) && SameOutside(old(objects), objects, target)
      ensures source !in old(objects) ==> r == Err(NotFound) && objects == old(objects)
      ensures source in old(objects) && target == source ==> r == Err(SameObject) && objects == old(objects)
      ensures IsCollectionAt(old(objects), source) && IsDataAt(old(objects), target) ==>
                r == Err(CollectionIntoDataObject) && objects == old(objects)
      ensures IsCollectionAt(old(objects), source) && source != target && !IsDataAt(old(objects), target) &&
              !o.recursive && o != NONE ==>
                r.Ok? && objects == old(objects)
      ensures source in old(objects) && source != target &&
              (old(objects)[source].Collection? || o.inRecursiveCopy || HasRoom(old(objects), source, target, o)) ==>
                && IsPartial(old(objects), objects, Image(old(objects), source, target, o))
                && (r.Ok? ==>
                      && HasRoom(old(objects), source, target, o)
                      && objects == Image(old(objects), source, target, o) + old(objects))
                && (reliable && HasRoom(old(objects), source, target, o) && HasParent(old(objects), target) ==> r.Ok?)
      ensures IsDataAt(old(objects), source) && source != target ==>
                var place := PlaceOf(old(objects), source, target, source);
                && (o.collectionsOnly ==> r.Ok? && objects == old(objects))
                && (!o.collectionsOnly && place == source ==> r == Err(SameObject))
                && (!o.collectionsOnly && place != source && IsCollectionAt(old(objects), place) ==>
                      r == Err(NotDataObject))
                && (r.Err? ==> objects == old(objects))
      ensures IsDataAt(old(objects), source) && source != target && !o.collectionsOnly ==>
                var place := PlaceOf(old(objects), source, target, source);
                place != source && IsDataAt(old(objects), place) ==>
                  && (o == OVERWRITE_EXISTING && reliable ==> r.Ok?)
                  && (o == OVERWRITE_EXISTING && r.Ok? ==> objects == old(objects)[place := old(objects)[source]])
                  && (o == SKIP_EXISTING ==> r.Ok?)
                  && (o == UPDATE_EXISTING ==> (r.Ok? <==> old(LastWriteTime(source) <= LastWriteTime(place))))
                  && (o != OVERWRITE_EXISTING ==> objects == old(objects))
                  && (o != OVERWRITE_EXISTING && o != SKIP_EXISTING && o != UPDATE_EXISTING ==> r.Err?)
      decreases |PathsWithin(objects, source)|, 1
    {
      hide IsClosed, SameOutside, IsPartial, Image, PathsWithin, HasRoom, PlaceOf;
      ghost var was := objects;
      SameOutsideItself(was, target);
      if source !in objects {
        return Err(NotFound);
      }
      if target in objects && source == target {
        return Err(SameObject);
      }
      if objects[source].Collection? && IsDataAt(objects, target) {
        NoRoomInData(was, source, target, o);
        AllIsThere(was, Image(was, source, target, o));
        return Err(CollectionIntoDataObject);
      }
      if objects[source].Data? {
        r := CopyOne(source, target, o);
        return;
      }
      if o.recursive || o == NONE {
        r := CopyCollection(source, target, o);
        return;
      }
      NothingWanted(was, source, target, o);
      AllIsThere(was, Image(was, source, target, o));
      return Ok(());
    }

    /** `copy` of a data object: into a collection that is there, or to the target itself. */
    method CopyOne(source: Path, target: Path, o: CopyOptions) returns (r: Result<(), Error>)
      requires IsClosed(objects) && IsDataAt(objects, source) && source != target
      modifies this
      ensures IsClosed(objects) && SameOutside(old(objects), objects, target)
      ensures o.inRecursiveCopy || HasRoom(old(objects), source, target, o) ==>
                && IsPartial(old(objects), objects, Image(old(objects), source, target, o))
                && (r.Ok? ==>
                      && HasRoom(old(objects), source, target, o)
                      && objects == Image(old(objects), source, target, o) + old(objects))
                && (reliable && HasRoom(old(objects), source, target, o) && HasParent(old(objects), target) ==> r.Ok?)
      ensures var place := PlaceOf(old(objects), source, target, source);
                && (o.collectionsOnly ==> r.Ok? && objects == old(objects))
                && (!o.collectionsOnly && place == source ==> r == Err(SameObject))
                && (!o.collectionsOnly && place != source && IsCollectionAt(old(objects), place) ==>
                      r == Err(NotDataObject))
                && (r.Err? ==> objects == old(objects))
      ensures !o.collectionsOnly ==>
                var place := PlaceOf(old(objects), source, target, source);
                place != source && IsDataAt(old(objects), place) ==>
                  && (o == OVERWRITE_EXISTING && reliable ==> r.Ok?)
                  && (o == OVERWRITE_EXISTING && r.Ok? ==> objects == old(objects)[place := old(objects)[source]])
                  && (o == SKIP_EXISTING ==> r.Ok?)
                  && (o == UPDATE_EXISTING ==> (r.Ok? <==> old(LastWriteTime(source) <= LastWriteTime(place))))
                  && (o != OVERWRITE_EXISTING ==> objects == old(objects))
                  && (o != OVERWRITE_EXISTING && o != SKIP_EXISTING && o != UPDATE_EXISTING ==> r.Err?)
    {
      hide IsClosed, SameOutside, IsPartial, Image, HasRoom, PlaceOf;
      ghost var was := objects;
      PlaceOfData(was, source, target);
      var place := PlaceOf(objects, source, target, source);
      ImageOfData(was, source, target, o);
      AllIsThere(was, Image(was, source, target, o));
      SameOutsideItself(was, target);
      if o.collectionsOnly {
        return Ok(());
      }
      var copied := CopyDataObject(source, place, o);
      if place != target {
        SameOutsideMore(was, objects, target, source[|source| - 1]);
      }
      if place !in was {
        OneIsAdded(was, place, was[source], Image(was, source, target, o));
      }
      return if copied.Ok? then Ok(()) else Err(copied.error);
    }

    /** The target collection, made after the pattern of the source unless it is there. */
    method MakeTarget(source: Path, target: Path, o: CopyOptions) returns (r: Result<(), Error>)
      requires IsClosed(objects) && IsCollectionAt(objects, source) && AreApart(source, target)
      requires !IsDataAt(objects, target) && (o.recursive || o == NONE)
      modifies this
      ensures IsClosed(objects) && SameOutside(old(objects), objects, target)
      ensures IsPartial(old(objects), objects, Image(old(objects), source, target, o))
      ensures r.Ok? ==> IsMidway(old(objects), objects, source, target, o, {})
      ensures reliable && HasParent(old(objects), target) ==> r.Ok?
    {
      hide IsClosed, SameOutside, IsPartial, Image, Part, PlaceOf, IsMidway;
      ghost var was, image := objects, Image(objects, source, target, o);
      SameOutsideItself(was, target);
      TargetInPart(was, source, target, o, {});
      AllIsThere(was, image);
      if target !in objects {
        var created := CreateCollectionLike(target, source);
        assert created.Ok? ==> objects == was[target := was[source]];
        OneIsAdded(was, target, Collection(DEFAULT_PERMS), image);
        OneIsAdded(was, target, was[source], image);
        if created.Err? {
          return Err(created.error);
        }
      } else {
        OneIsThere(was, target, was[source]);
      }
      Midway(was, objects, source, target, o, {});
      return Ok(());
    }

    /** `copy` of a collection: the collection first, then all it holds, in any order. */
    method CopyCollection(source: Path, target: Path, o: CopyOptions) returns (r: Result<(), Error>)
      requires IsClosed(objects) && IsCollectionAt(objects, source) && AreApart(source, target)
      requires !IsDataAt(objects, target) && (o.recursive || o == NONE)
      modifies this
      ensures IsClosed(objects) && SameOutside(old(objects), objects, target)
      ensures IsPartial(old(objects), objects, Image(old(objects), source, target, o))
      ensures r.Ok? ==>
                && HasRoom(old(objects), source, target, o)
                && objects == Image(old(objects), source, target, o) + old(objects)
      ensures reliable && HasRoom(old(objects), source, target, o) && HasParent(old(objects), target) ==> r.Ok?
      decreases |PathsWithin(objects, source)|, 0
    {
      hide IsClosed, SameOutside, IsPartial, Image, PathsWithin, Part, HasRoom, HasRoomBelow, PlaceOf, IsMidway;
      ghost var was := objects;
      var made := MakeTarget(source, target, o);
      if made.Err? {
        return made;
      }
      var rest := Children(objects, source);
      ChildrenStay(was, objects, source, target);
      ghost var names, done := rest, {};
      RoomByChildren(was, source, target, o, names);
      while rest != {}
        invariant IsClosed(objects) && IsMidway(was, objects, source, target, o, done)
        invariant SameOutside(was, objects, target)
        invariant rest <= names && done == names - rest && forall n :: n in names <==> IsName(was, source, n)
        invariant forall n :: n in done ==> HasRoomBelow(was, source, target, o, n)
      {
        var n :| n in rest;
        ghost var now := objects;
        assert IsName(was, source, n);
        ApartBelow(source, target, n);
        ChildIsSmaller(was, now, source, target, n);
        ChildIsReady(was, now, source, target, o, done, n);
        ChildHasRoom(was, now, source, target, o, done, n);
        PartNext(was, now, source, target, o, done, n);
        r := Copy(source + [n], target + [n], o.(inRecursiveCopy := true));
        SameOutsideMore(now, objects, target, n);
        SameOutsideAddsUp(was, now, objects, target);
        if r.Err? {
          PartialAddsUp(was, now, objects, source, target, o, done, n);
          return;
        }
        rest := rest - {n};
        done := done + {n};
        Midway(was, objects, source, target, o, done);
      }
      assert done == names;
      MidwayMeans(was, objects, source, target, o, done);
      PartIsAll(was, source, target, o, names);
      PartIsPartial(was, source, target, o, names);
      return Ok(());
    }
  }

  lemma PlaceOfData(objects: Objects, source: Path, target: Path)
    requires IsClosed(objects) && IsDataAt(objects, source)
    ensures source != []
    ensures PlaceOf(objects, source, target, source) ==
              if IsCollectionAt(objects, target) then target + [source[|source| - 1]] else target
  {
    assert Moved(source, target, source) == target;
  }

  lemma Midway(was: Objects, now: Objects, source: Path, target: Path, o: CopyOptions, done: set<string>)
    requires IsCollectionAt(was, source) && AreApart(source, target) && SameOutside(was, now, target)
    requires o.recursive || o == NONE
    ensures now == Part(was, source, target, o, done) + was ==> IsMidway(was, now, source, target, o, done)
  {
  }

  lemma MidwayMeans(was: Objects, now: Objects, source: Path, target: Path, o: CopyOptions, done: set<string>)
    requires IsMidway(was, now, source, target, o, done)
    ensures now == Part(was, source, target, o, done) + was
  {
  }

  lemma CopyOfSource(objects: Objects, copied: Objects, source: Path, target: Path, o: CopyOptions)
    requires IsCopied(objects, copied, source, target, o)
    ensures target in copied ==> copied[target] == objects[source]
  {
    if target in copied {
      var q := CopyHoldsNoMore(objects, copied, source, target, o, target);
      CopyHolds(objects, copied, source, target, o, q);
      assert q == source;
    }
  }

  /** A collection copied to where nothing was, and the copy copied on: both hold what the original does. */
  method CopyTheCopy(c: Catalog, source: Path, target: Path, third: Path, o: CopyOptions)
    returns (first: Result<(), Error>, second: Result<(), Error>)
    requires IsClosed(c.objects) && IsCollectionAt(c.objects, source) && source != []
    requires target !in c.objects && target != [] && AreApart(source, target) && AreApart(target, third)
    modifies c
    ensures IsClosed(c.objects)
    ensures first.Ok? && second.Ok? ==>
              c.objects == Image(old(c.objects), source, third, o) +
                             (Image(old(c.objects), source, target, o) + old(c.objects))
  {
    hide IsClosed, Image, IsPartial, HasRoom, PlaceOf;
    ghost var was := c.objects;
    first := c.Copy(source, target, o);
    second := first;
    if first.Ok? {
      ghost var copied := c.objects;
      assert IsCopied(was, copied, source, target, o);
      CopyOfCopy(was, copied, source, target, third, o);
      CopyOfSource(was, copied, source, target, o);
      second := c.Copy(target, third, o);
    }
  }

  lemma TakenName(objects: Objects, o: CopyOptions)
    requires objects == map[[] := Collection(0), ["a"] := Collection(0), ["a", "x"] := Data([1]),
                            ["b"] := Collection(0), ["b", "x"] := Data([2])]
    requires o.recursive && !o.collectionsOnly
    ensures IsClosed(objects) && IsCollectionAt(objects, ["a"]) && !HasRoom(objects, ["a"], ["b"], o)
  {
    assert ["a", "x"][..1] == ["a"] && ["b", "x"][..1] == ["b"] && ["a"][..0] == [] && ["b"][..0] == [];
    assert IsVisited(objects, ["a"], o, ["a", "x"]);
    assert Moved(["a"], ["b"], ["a", "x"]) == ["b", "x"];
  }

  /** Two collections that each hold an object of the same name: whatever the options, a recursive copy
      of one onto the other does not skip it. */
  method SkipInsideRecursionFails(c: Catalog, o: CopyOptions) returns (r: Result<(), Error>)
    requires c.objects == map[[] := Collection(0), ["a"] := Collection(0), ["a", "x"] := Data([1]),
                              ["b"] := Collection(0), ["b", "x"] := Data([2])]
    requires o.recursive && !o.collectionsOnly
    modifies c
    ensures r.Err?
  {
    TakenName(c.objects, o);
    r := c.Copy(["a"], ["b"], o);
  }
}
