/**
 The context shared by the endpoints of a suite, as it lives on the heap: maps and
 lists are objects, values refer to them, and `Set` updates a nested map in place.

 A `Shape` is a ghost tree that records which object sits where.  `Matches` ties a
 value to its shape; `Erase` forgets the objects and leaves the plain tree that
 `ContextTree` reasons about.
 */
module Gontext {
  import opened Prelude
  import T = ContextTree

  type Scalar = T.Scalar

  class MapObject {
    var entries: map<string, Value>

    constructor ()
      ensures entries == map[]
    {
      entries := map[];
    }
  }

  datatype Value = Atomic(x: Scalar) | MapRef(m: MapObject) | ListRef(l: array<Value>)

  /** `refs` holds at least the objects that occur in the shape. */
  datatype Shape =
    | Atom(x: Scalar)
    | MapShape(m: MapObject, kids: map<string, Shape>, refs: set<object>)
    | ListShape(l: array<Value>, items: seq<Shape>, refs: set<object>)

  ghost function Refs(s: Shape): set<object> {
    if s.Atom? then {} else s.refs
  }

  ghost function Erase(s: Shape): T.Tree {
    match s
    case Atom(x) => T.Leaf(x)
    case MapShape(_, kids, _) => T.Node(map k | k in kids :: Erase(kids[k]))
    case ListShape(_, items, _) => T.Items(seq(|items|, i requires 0 <= i < |items| => Erase(items[i])))
  }

  /** The heap below `v` looks like `s`. */
  ghost predicate Matches(v: Value, s: Shape)
    reads Refs(s)
    decreases s
  {
    match s
    case Atom(x) => v == Atomic(x)
    case MapShape(m, kids, refs) =>
      v == MapRef(m) && m in refs && m.entries.Keys == kids.Keys &&
      forall k :: k in kids ==> Refs(kids[k]) <= refs && Matches(m.entries[k], kids[k])
    case ListShape(l, items, refs) =>
      v == ListRef(l) && l in refs && l.Length == |items| &&
      forall i :: 0 <= i < |items| ==> Refs(items[i]) <= refs && Matches(l[i], items[i])
  }

  /** Every object occurs once: the heap below is a tree, not just an acyclic graph. */
  ghost predicate Unshared(s: Shape) {
    match s
    case Atom(_) => true
    case MapShape(m, kids, refs) =>
      m in refs && (forall k :: k in kids ==> Unshared(kids[k]) && Refs(kids[k]) <= refs - {m}) &&
      forall j, k :: j in kids && k in kids && j != k ==> Refs(kids[j]) !! Refs(kids[k])
    case ListShape(l, items, refs) =>
      l in refs && (forall i :: 0 <= i < |items| ==> Unshared(items[i]) && Refs(items[i]) <= refs - {l}) &&
      forall i, j :: 0 <= i < j < |items| ==> Refs(items[i]) !! Refs(items[j])
  }

  /** The plain tree below a value, read off the heap. */
  function ReadTree(v: Value, ghost s: Shape): (t: T.Tree)
    requires Matches(v, s)
    reads Refs(s)
    ensures t == Erase(s)
    decreases s
  {
    match v
    case Atomic(x) => T.Leaf(x)
    case MapRef(m) =>
      var kids := map k | k in m.entries :: ReadTree(m.entries[k], s.kids[k]);
      assert kids == Erase(s).kids;
      T.Node(kids)
    case ListRef(l) =>
      var items := seq(l.Length, i requires 0 <= i < l.Length &&
        Matches(v, s) reads l, Refs(s) => ReadTree(l[i], s.items[i]));
      assert items == Erase(s).items;
      T.Items(items)
  }

  // ---------------------------------------------------------------------------
  // Storing one entry

  /** The shape of a map once `k` holds a value of shape `v`. */
  ghost function Put(s: Shape, k: string, v: Shape): (t: Shape)
    requires s.MapShape?
    ensures Refs(t) == Refs(s) + Refs(v)
  {
    MapShape(s.m, s.kids[k := v], s.refs + Refs(v))
  }

  lemma UnsharedPut(s: Shape, k: string, v: Shape)
    requires s.MapShape? && Unshared(s) && Unshared(v) && s.m !in Refs(v)
    requires forall j :: j in s.kids && j != k ==> Refs(s.kids[j]) !! Refs(v)
    ensures Unshared(Put(s, k, v))
  {
  }

  lemma ErasePut(s: Shape, k: string, v: Shape)
    requires s.MapShape?
    ensures Erase(Put(s, k, v)) == T.Node(Erase(s).kids[k := Erase(v)])
  {
    assert Erase(Put(s, k, v)).kids == Erase(s).kids[k := Erase(v)];
  }

  method StoreEntry(m: MapObject, ghost s: Shape, k: string, v: Value, ghost vs: Shape)
    requires Matches(MapRef(m), s) && Unshared(s)
    requires Matches(v, vs) && m !in Refs(vs)
    modifies m
    ensures m.entries == old(m.entries)[k := v]
    ensures Matches(MapRef(m), Put(s, k, vs))
  {
    m.entries := m.entries[k := v];
    assert forall j :: j in s.kids && j != k ==> Matches(m.entries[j], s.kids[j]);
  }

  // ---------------------------------------------------------------------------
  // Deep copy

  /** Some entries of the map described by `s` have been copied into the map described by `t`. */
  ghost predicate CopiedInto(copy: MapObject, t: Shape, s: Shape) {
    s.MapShape? && t.MapShape? && t.m == copy && copy !in Refs(s) && t.kids.Keys <= s.kids.Keys &&
    forall k :: k in t.kids ==> Erase(t.kids[k]) == Erase(s.kids[k])
  }

  lemma AllCopied(copy: MapObject, t: Shape, s: Shape)
    requires CopiedInto(copy, t, s) && s.kids.Keys == t.kids.Keys
    ensures Erase(t) == Erase(s)
  {
    assert Erase(t).kids == Erase(s).kids;
  }

  method CopyEntries(m: MapObject, ghost s: Shape) returns (copy: MapObject, ghost t: Shape)
    requires Matches(MapRef(m), s)
    ensures Matches(MapRef(copy), t) && Unshared(t) && fresh(Refs(t)) && Erase(t) == Erase(s)
    decreases s, 1
  {
    copy := new MapObject();
    t := MapShape(copy, map[], {copy});
    var todo := m.entries.Keys;
    while todo != {}
      invariant todo <= s.kids.Keys && Matches(MapRef(m), s)
      invariant CopiedInto(copy, t, s) && t.kids.Keys == s.kids.Keys - todo
      invariant Matches(MapRef(copy), t) && Unshared(t) && fresh(Refs(t))
      decreases todo
    {
      var k :| k in todo;
      t := CopyEntry(m, s, k, copy, t);
      todo := todo - {k};
    }
    AllCopied(copy, t, s);
  }

  /** The first items of the list described by `s` have been copied. */
  ghost predicate ItemsCopied(copy: array<Value>, items: seq<Shape>, refs: set<object>, s: Shape)
    reads refs
  {
    s.ListShape? && copy in refs && |items| <= copy.Length == |s.items| &&
    (forall k :: 0 <= k < |items| ==> Refs(items[k]) <= refs - {copy} && Matches(copy[k], items[k])) &&
    (forall k :: 0 <= k < |items| ==> Unshared(items[k]) && Erase(items[k]) == Erase(s.items[k])) &&
    (forall j, k :: 0 <= j < k < |items| ==> Refs(items[j]) !! Refs(items[k]))
  }

  method CopyItem(
      l: array<Value>, ghost s: Shape, copy: array<Value>, i: nat, ghost items: seq<Shape>,
      ghost refs: set<object>)
    returns (ghost items2: seq<Shape>, ghost refs2: set<object>)
    requires Matches(ListRef(l), s) && copy !in Refs(s) && i < l.Length
    requires |items| == i && ItemsCopied(copy, items, refs, s)
    modifies copy
    ensures Matches(ListRef(l), s)
    ensures |items2| == i + 1 && fresh(refs2 - refs) && ItemsCopied(copy, items2, refs2, s)
    decreases s, 0
  {
    var c, cs := DeepCopyValue(l[i], s.items[i]);
    assert Refs(cs) !! refs;
    copy[i] := c;
    items2, refs2 := items + [cs], refs + Refs(cs);
  }

  method CopyItems(l: array<Value>, ghost s: Shape) returns (copy: array<Value>, ghost t: Shape)
    requires Matches(ListRef(l), s)
    ensures Matches(ListRef(copy), t) && Unshared(t) && fresh(Refs(t)) && Erase(t) == Erase(s)
    decreases s, 1
  {
    copy := new Value[l.Length](_ => Atomic(T.Null));
    ghost var items, refs: set<object> := [], {copy};
    for i := 0 to l.Length
      invariant Matches(ListRef(l), s) && copy !in Refs(s)
      invariant |items| == i && fresh(refs) && ItemsCopied(copy, items, refs, s)
    {
      items, refs := CopyItem(l, s, copy, i, items, refs);
    }
    t := ListShape(copy, items, refs);
  }

  /** Copies a value of any acyclic shape, shared parts included, into fresh unshared objects. */
  method DeepCopyValue(v: Value, ghost s: Shape) returns (r: Value, ghost t: Shape)
    requires Matches(v, s)
    ensures Matches(r, t) && Unshared(t) && fresh(Refs(t)) && Erase(t) == Erase(s)
    decreases s, 2
  {
    match v
    case Atomic(x) =>
      return v, s;
    case MapRef(m) =>
      var copy;
      copy, t := CopyEntries(m, s);
      r := MapRef(copy);
    case ListRef(l) =>
      var copy;
      copy, t := CopyItems(l, s);
      r := ListRef(copy);
  }

  method CopyEntry(m: MapObject, ghost s: Shape, k: string, copy: MapObject, ghost t: Shape) returns (ghost t2: Shape)
    requires Matches(MapRef(m), s) && k in s.kids
    requires CopiedInto(copy, t, s) && Matches(MapRef(copy), t) && Unshared(t)
    modifies copy
    ensures CopiedInto(copy, t2, s) && t2.kids.Keys == t.kids.Keys + {k}
    ensures Matches(MapRef(copy), t2) && Unshared(t2) && fresh(Refs(t2) - Refs(t))
    ensures Matches(MapRef(m), s)
    decreases s, 0
  {
    var c, cs := DeepCopyValue(m.entries[k], s.kids[k]);
    assert Refs(cs) !! Refs(t);
    StoreEntry(copy, t, k, c, cs);
    UnsharedPut(t, k, cs);
    t2 := Put(t, k, cs);
  }

  // ---------------------------------------------------------------------------
  // Walking down and changing one map on the way

  ghost predicate HasMapAt(s: Shape, p: T.Path)
    decreases p
  {
    s.MapShape? && (p == [] || (p[0] in s.kids && HasMapAt(s.kids[p[0]], p[1..])))
  }

  ghost function ShapeAt(s: Shape, p: T.Path): (r: Shape)
    requires HasMapAt(s, p)
    ensures r.MapShape?
    decreases p
  {
    if p == [] then s else ShapeAt(s.kids[p[0]], p[1..])
  }

  /** `s` with `t` in place of the map at `p`. */
  ghost function Replace(s: Shape, p: T.Path, t: Shape): (r: Shape)
    requires HasMapAt(s, p)
    ensures Refs(r) <= Refs(s) + Refs(t)
    ensures t.MapShape? && t.m == ShapeAt(s, p).m ==> r.MapShape? && r.m == s.m && HasMapAt(r, p) && ShapeAt(r, p) == t
    decreases p
  {
    if p == [] then t
    else MapShape(s.m, s.kids[p[0] := Replace(s.kids[p[0]], p[1..], t)], s.refs + Refs(t))
  }

  lemma {:induction false} MapsAlongPath(s: Shape, p: T.Path)
    requires Unshared(s) && HasMapAt(s, p)
    ensures var r := ShapeAt(s, p); r.m in Refs(r) && Refs(r) <= Refs(s) && Unshared(r)
    ensures p != [] ==> Refs(ShapeAt(s, p)) <= Refs(s.kids[p[0]])
    decreases p
  {
    if p == [] {
    } else {
      MapsAlongPath(s.kids[p[0]], p[1..]);
    }
  }

  /** The heap matches `s` everywhere except at and below the map at `p`, which it does not look at. */
  ghost predicate MatchesAround(v: Value, s: Shape, p: T.Path)
    requires Unshared(s) && HasMapAt(s, p)
    reads Refs(s) - Refs(ShapeAt(s, p))
    decreases p
  {
    if p == [] then v == MapRef(s.m)
    else
      MapsAlongPath(s, p);
      v == MapRef(s.m) && s.m.entries.Keys == s.kids.Keys &&
      (forall j :: j in s.kids && j != p[0] ==> Matches(s.m.entries[j], s.kids[j])) &&
      MatchesAround(s.m.entries[p[0]], s.kids[p[0]], p[1..])
  }

  lemma {:induction false} MatchesSplits(v: Value, s: Shape, p: T.Path)
    requires Unshared(s) && HasMapAt(s, p) && Matches(v, s)
    ensures MatchesAround(v, s, p) && Matches(MapRef(ShapeAt(s, p).m), ShapeAt(s, p))
    decreases p
  {
    if p == [] {
    } else {
      MatchesSplits(s.m.entries[p[0]], s.kids[p[0]], p[1..]);
    }
  }

  lemma {:induction false} MatchesJoins(v: Value, s: Shape, p: T.Path, t: Shape)
    requires Unshared(s) && HasMapAt(s, p) && MatchesAround(v, s, p)
    requires t.MapShape? && t.m == ShapeAt(s, p).m && Matches(MapRef(t.m), t)
    ensures Matches(v, Replace(s, p, t))
    decreases p
  {
    if p == [] {
    } else {
      MatchesJoins(s.m.entries[p[0]], s.kids[p[0]], p[1..], t);
    }
  }

  lemma {:induction false} UnsharedReplace(s: Shape, p: T.Path, t: Shape, added: set<object>)
    requires Unshared(s) && HasMapAt(s, p) && Unshared(t)
    requires t.MapShape? && t.m == ShapeAt(s, p).m && Refs(t) <= Refs(ShapeAt(s, p)) + added && Refs(s) !! added
    ensures Unshared(Replace(s, p, t))
    ensures Refs(Replace(s, p, t)) <= Refs(s) + added
    decreases p
  {
    MapsAlongPath(s, p);
    if p == [] {
    } else {
      UnsharedReplace(s.kids[p[0]], p[1..], t, added);
      UnsharedPut(s, p[0], Replace(s.kids[p[0]], p[1..], t));
    }
  }

  /** Changing one entry of the map at `p` is writing one key further down. */
  lemma {:induction false} EraseReplace(s: Shape, p: T.Path, k: string, v: Shape)
    requires HasMapAt(s, p)
    ensures Erase(Replace(s, p, Put(ShapeAt(s, p), k, v))) == T.Set(Erase(s), p + [k], Erase(v))
    decreases p
  {
    if p == [] {
      ErasePut(s, k, v);
    } else {
      var sub := Replace(s.kids[p[0]], p[1..], Put(ShapeAt(s, p), k, v));
      EraseReplace(s.kids[p[0]], p[1..], k, v);
      ErasePut(s, p[0], sub);
      assert (p + [k])[1..] == p[1..] + [k];
    }
  }

  /** Putting an entry in the map at `p` keeps the shape free of sharing, and is a write of the tree. */
  lemma PutBelow(s: Shape, p: T.Path, k: string, vs: Shape)
    requires Unshared(s) && HasMapAt(s, p)
    requires Unshared(vs) && Refs(vs) !! Refs(s)
    ensures var r := Replace(s, p, Put(ShapeAt(s, p), k, vs));
            Unshared(r) && Refs(r) <= Refs(s) + Refs(vs) && Erase(r) == T.Set(Erase(s), p + [k], Erase(vs))
  {
    MapsAlongPath(s, p);
    UnsharedPut(ShapeAt(s, p), k, vs);
    UnsharedReplace(s, p, Put(ShapeAt(s, p), k, vs), Refs(vs));
    EraseReplace(s, p, k, vs);
  }

  /** The map at `p` is what reading the erased tree at `p` gives. */
  lemma {:induction false} EraseAt(s: Shape, p: T.Path)
    requires HasMapAt(s, p)
    ensures T.Get(Erase(s), p) == Some(Erase(ShapeAt(s, p)))
    decreases p
  {
    if p == [] {
    } else {
      EraseAt(s.kids[p[0]], p[1..]);
    }
  }

  lemma {:induction false} MapOneFurther(s: Shape, p: T.Path, k: string)
    requires HasMapAt(s, p)
    ensures var here := ShapeAt(s, p);
            if k in here.kids && here.kids[k].MapShape? then HasMapAt(s, p + [k]) && ShapeAt(s, p + [k]) == here.kids[k]
            else !HasMapAt(s, p + [k])
    decreases p
  {
    if p == [] {
      assert p + [k] == [k] && [k][1..] == [];
    } else {
      assert (p + [k])[1..] == p[1..] + [k];
      MapOneFurther(s.kids[p[0]], p[1..], k);
    }
  }

  // ---------------------------------------------------------------------------
  // The context object

  lemma NoMapThere(s: Shape, p: T.Path, k: string)
    requires HasMapAt(s, p)
    requires var here := ShapeAt(s, p); !(k in here.kids && here.kids[k].MapShape?)
    ensures var found := T.Get(Erase(s), p + [k]); !(found.Some? && found.value.Node?)
  {
    EraseAt(s, p);
    T.GetOneMore(Erase(s), p, k);
    var here := ShapeAt(s, p);
    if k in here.kids {
      assert T.Get(Erase(here), [k]) == T.Get(Erase(here.kids[k]), [k][1..]);
    }
  }

  /** Nothing is found below a path where nothing is found. */
  lemma {:induction false} MissingStaysMissing(t: T.Tree, p: T.Path, n: nat)
    requires n <= |p| && T.Get(t, p[..n]) == None
    ensures T.Get(t, p) == None
    decreases |p| - n
  {
    if n < |p| {
      T.GetOneMore(t, p[..n], p[n]);
      assert p[..n + 1] == p[..n] + [p[n]];
      MissingStaysMissing(t, p, n + 1);
    } else {
      assert p[..n] == p;
    }
  }

  class Gontext {
    var values: MapObject
    ghost var shape: Shape

    ghost predicate Valid()
      reads this, Refs(shape)
    {
      shape.MapShape? && shape.m == values && this !in Refs(shape) && Unshared(shape) && Matches(MapRef(values), shape)
    }

    /** The values of the context as a plain tree. */
    ghost function Tree(): T.Tree
      reads this
    {
      Erase(shape)
    }

    /** Starts from a deep copy of the initial values, which may be missing. */
    constructor (initial: MapObject?, ghost s: Shape)
      requires initial != null ==> Matches(MapRef(initial), s)
      ensures Valid() && fresh(Refs(shape))
      ensures Tree() == if initial == null then T.Node(map[]) else Erase(s)
    {
      if initial == null {
        var empty := new MapObject();
        values := empty;
        shape := MapShape(empty, map[], {empty});
      } else {
        var copy;
        ghost var t;
        copy, t := CopyEntries(initial, s);
        values := copy;
        shape := t;
      }
    }

    /** Looks the dotted path up; the result may be a live part of the context. */
    method Get(path: string) returns (r: Option<Value>, ghost found: Shape)
      requires Valid()
      ensures r.Some? <==> T.Get(Tree(), Split(path, '.')).Some?
      ensures r.Some? ==>
                Matches(r.value, found) && Refs(found) <= Refs(shape) &&
                T.Get(Tree(), Split(path, '.')) == Some(Erase(found))
    {
      var parts := Split(path, '.');
      var current := MapRef(values);
      found := shape;
      assert parts[..0] == [];
      for i := 0 to |parts|
        invariant Matches(current, found) && Refs(found) <= Refs(shape)
        invariant T.Get(Tree(), parts[..i]) == Some(Erase(found))
      {
        var part := parts[i];
        T.GetOneMore(Tree(), parts[..i], part);
        assert parts[..i + 1] == parts[..i] + [part];
        if !current.MapRef? || part !in current.m.entries {
          T.GetOneMore(Tree(), parts[..i], part);
          MissingStaysMissing(Tree(), parts, i + 1);
          return None, found;
        }
        current, found := current.m.entries[part], found.kids[part];
      }
      assert parts[..|parts|] == parts;
      return Some(current), found;
    }

    /** Assigns one entry of the map at `p` in the heap. */
    method StoreAt(ghost p: T.Path, current: MapObject, k: string, v: Value, ghost vs: Shape)
      requires Valid() && HasMapAt(shape, p) && ShapeAt(shape, p).m == current
      requires Matches(v, vs) && Refs(vs) !! Refs(shape)
      modifies Refs(shape)
      ensures Matches(MapRef(values), Replace(shape, p, Put(ShapeAt(shape, p), k, vs)))
    {
      ghost var here := ShapeAt(shape, p);
      MatchesSplits(MapRef(values), shape, p);
      MapsAlongPath(shape, p);
      StoreEntry(current, here, k, v, vs);
      MatchesJoins(MapRef(values), shape, p, Put(here, k, vs));
    }

    /** Assigns one entry of the map at `p`, in the heap and in the shape. */
    method PutAt(ghost p: T.Path, current: MapObject, k: string, v: Value, ghost vs: Shape)
      requires Valid() && HasMapAt(shape, p) && ShapeAt(shape, p).m == current
      requires Matches(v, vs) && Unshared(vs) && Refs(vs) !! Refs(shape) && this !in Refs(vs)
      modifies this`shape, Refs(shape)
      ensures Valid() && values == old(values) && Refs(shape) <= old(Refs(shape)) + Refs(vs)
      ensures HasMapAt(shape, p) && ShapeAt(shape, p) == Put(ShapeAt(old(shape), p), k, vs)
      ensures Tree() == T.Set(old(Tree()), p + [k], Erase(vs))
    {
      PutBelow(shape, p, k, vs);
      ghost var after := Replace(shape, p, Put(ShapeAt(shape, p), k, vs));
      assert after.MapShape? && after.m == values && this !in Refs(after);
      StoreAt(p, current, k, v, vs);
      shape := after;
    }

    /** Puts a new empty map below the map at `p`. */
    method MakeMap(ghost p: T.Path, current: MapObject, k: string) returns (next: MapObject)
      requires Valid() && HasMapAt(shape, p) && ShapeAt(shape, p).m == current
      modifies this`shape, Refs(shape)
      ensures Valid() && values == old(values) && fresh(Refs(shape) - old(Refs(shape)))
      ensures HasMapAt(shape, p + [k]) && ShapeAt(shape, p + [k]).m == next
      ensures Tree() == T.Set(old(Tree()), p + [k], T.Node(map[]))
    {
      next := new MapObject();
      ghost var empty := MapShape(next, map[], {next});
      PutAt(p, current, k, MapRef(next), empty);
      MapOneFurther(shape, p, k);
      assert Erase(empty).kids == map[];
    }

    /** One step of `Set` towards the parent of the target: enters the map under `parts[i]`, making it if need be. */
    method Descend(parts: seq<string>, i: nat, current: MapObject, ghost v: T.Tree) returns (next: MapObject)
      requires Valid() && i < |parts| - 1
      requires HasMapAt(shape, parts[..i]) && ShapeAt(shape, parts[..i]).m == current
      modifies this`shape, Refs(shape)
      ensures Valid() && values == old(values) && fresh(Refs(shape) - old(Refs(shape)))
      ensures HasMapAt(shape, parts[..i + 1]) && ShapeAt(shape, parts[..i + 1]).m == next
      ensures T.Set(Tree(), parts, v) == T.Set(old(Tree()), parts, v)
    {
      var part := parts[i];
      ghost var p := parts[..i];
      assert parts[..i + 1] == p + [part];
      MatchesSplits(MapRef(values), shape, p);
      MapsAlongPath(shape, p);
      MapOneFurther(shape, p, part);
      if part in current.entries && current.entries[part].MapRef? {
        return current.entries[part].m;
      }
      NoMapThere(shape, p, part);
      T.EmptyMapOnTheWay(Tree(), p + [part], parts, v);
      next := MakeMap(p, current, part);
    }

    /**
     Writes a value at the dotted path, in place.  The value is stored as it is, so what
     it consists of belongs to the context from then on.
     */
    method Set(path: string, value: Value, ghost vs: Shape)
      requires Valid() && Matches(value, vs) && Unshared(vs)
      requires Refs(vs) !! Refs(shape) && this !in Refs(vs)
      modifies this`shape, Refs(shape)
      ensures Valid() && values == old(values) && fresh(Refs(shape) - old(Refs(shape)) - Refs(vs))
      ensures Tree() == T.Set(old(Tree()), Split(path, '.'), Erase(vs))
    {
      var parts := Split(path, '.');
      var current := values;
      assert parts[..0] == [];
      for i := 0 to |parts| - 1
        invariant Valid() && values == old(values) && fresh(Refs(shape) - old(Refs(shape)))
        invariant Matches(value, vs)
        invariant HasMapAt(shape, parts[..i]) && ShapeAt(shape, parts[..i]).m == current
        invariant T.Set(Tree(), parts, Erase(vs)) == T.Set(old(Tree()), parts, Erase(vs))
      {
        current := Descend(parts, i, current, Erase(vs));
      }
      var last := |parts| - 1;
      assert parts == parts[..last] + [parts[last]];
      PutAt(parts[..last], current, parts[last], value, vs);
    }

    /** A deep copy of all values. */
    method GetAll() returns (copy: MapObject, ghost s: Shape)
      requires Valid()
      ensures Matches(MapRef(copy), s) && Unshared(s) && fresh(Refs(s)) && Erase(s) == Tree()
    {
      copy, s := CopyEntries(values, shape);
    }
  }
}
