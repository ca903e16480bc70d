/**
 The values of a suite context as plain trees, addressed by paths of keys: what
 reading and writing at a path mean, and the laws the two obey.
 */
module ContextTree {
  import opened Prelude

  datatype Scalar = Null | Integer(n: int) | Decimal(r: real) | Flag(b: bool) | Text(s: string)

  datatype Tree = Leaf(x: Scalar) | Node(kids: map<string, Tree>) | Items(items: seq<Tree>)

  type Path = seq<string>

  function Get(t: Tree, p: Path): Option<Tree> {
    if p == [] then Some(t)
    else if t.Node? && p[0] in t.kids then Get(t.kids[p[0]], p[1..])
    else None
  }

  /** The entries below a value, none when it is not a map. */
  function Kids(t: Tree): map<string, Tree> {
    if t.Node? then t.kids else map[]
  }

  /** The value under one key, an empty map when there is none. */
  function Kid(t: Tree, k: string): Tree {
    if k in Kids(t) then Kids(t)[k] else Node(map[])
  }

  /** Writes `v` at `p`; missing and non-map values on the way become maps. */
  function Set(t: Tree, p: Path, v: Tree): Tree
    decreases p
  {
    if p == [] then v else Node(Kids(t)[p[0] := Set(Kid(t, p[0]), p[1..], v)])
  }

  ghost predicate Incomparable(p: Path, q: Path) {
    !(p <= q) && !(q <= p)
  }

  // ---------------------------------------------------------------------------
  // Reading after writing, for every position of the two paths

  /** An empty map has nothing below it. */
  lemma MissingBelowEmpty(q: Path)
    ensures q != [] ==> Get(Node(map[]), q) == None
  {
  }

  /** The value `Set` builds on when it passes through `q`. */
  function ValueAt(t: Tree, q: Path): Tree
    decreases q
  {
    if q == [] then t else ValueAt(Kid(t, q[0]), q[1..])
  }

  lemma {:induction false} GetAfterSet(t: Tree, p: Path, v: Tree, q: Path)
    ensures p <= q ==> Get(Set(t, p, v), q) == Get(v, q[|p|..])
    ensures Incomparable(p, q) ==> Get(Set(t, p, v), q) == Get(t, q)
    ensures q < p ==> Get(Set(t, p, v), q) == Some(Set(ValueAt(t, q), p[|q|..], v))
    decreases p
  {
    if p != [] && q != [] {
      assert p == [p[0]] + p[1..] && q == [q[0]] + q[1..];
      if p[0] == q[0] {
        GetAfterSet(Kid(t, p[0]), p[1..], v, q[1..]);
        assert p <= q <==> p[1..] <= q[1..];
        assert q <= p <==> q[1..] <= p[1..];
        if p <= q {
          assert q[1..][|p[1..]|..] == q[|p|..];
        } else if q <= p {
          assert p[1..][|q[1..]|..] == p[|q|..];
        } else if p[0] !in Kids(t) {
          MissingBelowEmpty(q[1..]);
        }
      }
    }
  }

  // ---------------------------------------------------------------------------
  // Writing twice

  lemma UpdatesCommute(m: map<string, Tree>, j: string, v: Tree, k: string, w: Tree)
    requires j != k
    ensures m[j := v][k := w] == m[k := w][j := v]
  {
  }

  /** Two writes in terms of the entries at the top. */
  lemma SetTwice(t: Tree, p: Path, v: Tree, q: Path, w: Tree)
    requires p != [] && q != []
    ensures Set(Set(t, p, v), q, w) ==
            if p[0] == q[0] then Node(Kids(t)[p[0] := Set(Set(Kid(t, p[0]), p[1..], v), q[1..], w)])
            else Node(Kids(t)[p[0] := Set(Kid(t, p[0]), p[1..], v)][q[0] := Set(Kid(t, q[0]), q[1..], w)])
  {
    var one := Set(t, p, v);
    assert Kids(one) == Kids(t)[p[0] := Set(Kid(t, p[0]), p[1..], v)];
  }

  lemma {:induction false} SetsCommute(t: Tree, p: Path, v: Tree, q: Path, w: Tree)
    requires Incomparable(p, q)
    ensures Set(Set(t, p, v), q, w) == Set(Set(t, q, w), p, v)
    decreases p
  {
    SetTwice(t, p, v, q, w);
    SetTwice(t, q, w, p, v);
    if p[0] == q[0] {
      assert Incomparable(p[1..], q[1..]) by {
        assert p == [p[0]] + p[1..] && q == [q[0]] + q[1..];
      }
      SetsCommute(Kid(t, p[0]), p[1..], v, q[1..], w);
    } else {
      UpdatesCommute(Kids(t), p[0], Set(Kid(t, p[0]), p[1..], v), q[0], Set(Kid(t, q[0]), q[1..], w));
    }
  }

  /** Reading one key further. */
  lemma {:induction false} GetOneMore(t: Tree, p: Path, k: string)
    ensures var below := Get(t, p);
            Get(t, p + [k]) == if below.None? then None else Get(below.value, [k])
    decreases p
  {
    if p == [] {
      assert p + [k] == [k];
    } else {
      assert (p + [k])[1..] == p[1..] + [k];
      if t.Node? && p[0] in t.kids {
        GetOneMore(t.kids[p[0]], p[1..], k);
      }
    }
  }

  /** The order of two writes of scalars is irrelevant exactly when the paths are incomparable or the writes equal. */
  lemma SetsCommuteExactly(t: Tree, p: Path, v: Scalar, q: Path, w: Scalar)
    requires p != [] && q != []
    ensures Set(Set(t, p, Leaf(v)), q, Leaf(w)) == Set(Set(t, q, Leaf(w)), p, Leaf(v)) <==>
            Incomparable(p, q) || (p == q && v == w)
  {
    var first := Set(Set(t, p, Leaf(v)), q, Leaf(w));
    var second := Set(Set(t, q, Leaf(w)), p, Leaf(v));
    if Incomparable(p, q) {
      SetsCommute(t, p, Leaf(v), q, Leaf(w));
    } else {
      GetAfterSet(Set(t, p, Leaf(v)), q, Leaf(w), p);
      GetAfterSet(Set(t, p, Leaf(v)), q, Leaf(w), q);
      GetAfterSet(Set(t, q, Leaf(w)), p, Leaf(v), p);
      GetAfterSet(Set(t, q, Leaf(w)), p, Leaf(v), q);
      if p == q && v == w {
      } else if p <= q {
        assert Get(second, p) == Some(Leaf(v));
        assert q[|p|..] == [] || Get(first, p).value.Node?;
      } else {
        assert Get(first, q) == Some(Leaf(w));
        assert Get(second, q).value.Node?;
      }
    }
  }

  lemma {:induction false} EmptyMapInEmpty(q: Path, p: Path, v: Tree)
    requires q < p
    ensures Set(Set(Node(map[]), q, Node(map[])), p, v) == Set(Node(map[]), p, v)
  {
    if q == [] {
    } else {
      EmptyMapInEmpty(q[1..], p[1..], v);
    }
  }

  /** Putting an empty map where there is no map yet does not change a later write below it. */
  lemma {:induction false} EmptyMapOnTheWay(t: Tree, q: Path, p: Path, v: Tree)
    requires q < p
    requires !(Get(t, q).Some? && Get(t, q).value.Node?)
    ensures Set(Set(t, q, Node(map[])), p, v) == Set(t, p, v)
  {
    if q == [] {
      assert Set(Node(map[]), p, v) == Set(t, p, v);
    } else {
      assert p[0] == q[0] && q[1..] < p[1..];
      var middle := Set(t, q, Node(map[]));
      if p[0] in Kids(t) {
        EmptyMapOnTheWay(Kid(t, p[0]), q[1..], p[1..], v);
      } else {
        EmptyMapInEmpty(q[1..], p[1..], v);
      }
      assert Kid(middle, p[0]) == Set(Kid(t, p[0]), q[1..], Node(map[]));
      assert Set(middle, p, v).kids == Set(t, p, v).kids;
    }
  }

  // ---------------------------------------------------------------------------
  // Writing many values in some order

  datatype Write = Write(path: Path, value: Scalar)

  function SetAll(t: Tree, writes: seq<Write>): Tree
    decreases writes
  {
    if writes == [] then t else SetAll(Set(t, writes[0].path, Leaf(writes[0].value)), writes[1..])
  }

  /** `order` lists the writes of `s`, each once. */
  ghost predicate Orders(order: seq<Write>, s: set<Write>) {
    (forall w :: w in order <==> w in s) &&
    (forall i, j :: 0 <= i < j < |order| ==> order[i] != order[j])
  }

  ghost predicate PairwiseIncomparable(s: set<Write>) {
    forall u, w :: u in s && w in s && u != w ==> Incomparable(u.path, w.path)
  }

  lemma {:induction false} SetAllConcat(t: Tree, a: seq<Write>, b: seq<Write>)
    ensures SetAll(t, a + b) == SetAll(SetAll(t, a), b)
    decreases a
  {
    if a == [] {
      assert a + b == b;
    } else {
      SetAllConcat(Set(t, a[0].path, Leaf(a[0].value)), a[1..], b);
      assert (a + b)[1..] == a[1..] + b;
    }
  }

  /** A write incomparable with all earlier ones may be done first. */
  lemma {:induction false} WriteFirst(t: Tree, before: seq<Write>, w: Write)
    requires forall i :: 0 <= i < |before| ==> Incomparable(before[i].path, w.path)
    ensures SetAll(t, before + [w]) == SetAll(Set(t, w.path, Leaf(w.value)), before)
    decreases before
  {
    if before == [] {
      assert before + [w] == [w];
      assert SetAll(t, [w]) == SetAll(Set(t, w.path, Leaf(w.value)), [w][1..]);
    } else {
      var b := before[0];
      WriteFirst(Set(t, b.path, Leaf(b.value)), before[1..], w);
      assert (before + [w])[1..] == before[1..] + [w];
      SetsCommute(t, b.path, Leaf(b.value), w.path, Leaf(w.value));
    }
  }

  lemma OrdersWithout(b: seq<Write>, j: nat, s: set<Write>)
    requires Orders(b, s) && j < |b|
    ensures Orders(b[..j] + b[j + 1..], s - {b[j]})
  {
    var c := b[..j] + b[j + 1..];
    forall i | 0 <= i < |c|
      ensures c[i] == b[if i < j then i else i + 1] && c[i] != b[j]
    {
    }
    forall w | w in s && w != b[j]
      ensures w in c
    {
      var k :| 0 <= k < |b| && b[k] == w;
      assert c[if k < j then k else k - 1] == w;
    }
  }

  lemma {:induction false} OrderLength(order: seq<Write>, s: set<Write>)
    requires Orders(order, s)
    ensures |order| == |s|
  {
    if order == [] {
    } else {
      assert order[0] in order;
      OrdersWithout(order, 0, s);
      assert order[..0] + order[1..] == order[1..];
      OrderLength(order[1..], s - {order[0]});
    }
  }

  /** Any write of an order may be done first. */
  lemma AnyWriteFirst(t: Tree, b: seq<Write>, j: nat, s: set<Write>)
    requires Orders(b, s) && PairwiseIncomparable(s) && j < |b|
    ensures SetAll(t, b) == SetAll(Set(t, b[j].path, Leaf(b[j].value)), b[..j] + b[j + 1..])
  {
    var w, before, after := b[j], b[..j], b[j + 1..];
    assert w in b && b == before + [w] + after;
    forall i | 0 <= i < |before|
      ensures Incomparable(before[i].path, w.path)
    {
      assert b[i] in b && b[i] in s;
    }
    WriteFirst(t, before, w);
    SetAllConcat(t, before + [w], after);
    SetAllConcat(Set(t, w.path, Leaf(w.value)), before, after);
  }

  /** Confluence: any two orders of pairwise incomparable writes give the same tree. */
  lemma {:induction false} OrderIsIrrelevant(t: Tree, a: seq<Write>, b: seq<Write>, s: set<Write>)
    requires Orders(a, s) && Orders(b, s) && PairwiseIncomparable(s)
    ensures SetAll(t, a) == SetAll(t, b)
    decreases a
  {
    if a == [] {
      OrderLength(a, s);
      OrderLength(b, s);
    } else {
      var w := a[0];
      assert w in a && w in s;
      var j :| 0 <= j < |b| && b[j] == w;
      OrdersWithout(a, 0, s);
      OrdersWithout(b, j, s);
      AnyWriteFirst(t, b, j, s);
      assert a[..0] + a[1..] == a[1..];
      OrderIsIrrelevant(Set(t, w.path, Leaf(w.value)), a[1..], b[..j] + b[j + 1..], s - {w});
    }
  }

  lemma {:induction false} SomeOrder(s: set<Write>) returns (order: seq<Write>)
    ensures Orders(order, s)
  {
    if s == {} {
      order := [];
    } else {
      var w :| w in s;
      var rest := SomeOrder(s - {w});
      order := rest + [w];
      forall i | 0 <= i < |rest|
        ensures order[i] != w
      {
        assert rest[i] in rest;
      }
    }
  }

  lemma SetAllTwo(t: Tree, u: Write, w: Write)
    ensures SetAll(t, [u, w]) == Set(Set(t, u.path, Leaf(u.value)), w.path, Leaf(w.value))
  {
    assert [u, w][1..] == [w] && [w][1..] == [];
    var t1 := Set(t, u.path, Leaf(u.value));
    assert SetAll(t1, [w]) == SetAll(Set(t1, w.path, Leaf(w.value)), []);
  }

  /** Writes at comparable, distinct paths can be ordered in two ways that disagree. */
  lemma ComparableWritesDisagree(t: Tree, rest: seq<Write>, u: Write, w: Write)
    requires u.path != [] && w.path != [] && u.path != w.path && !Incomparable(u.path, w.path)
    ensures SetAll(t, rest + [u, w]) != SetAll(t, rest + [w, u])
  {
    var t0 := SetAll(t, rest);
    SetAllConcat(t, rest, [u, w]);
    SetAllConcat(t, rest, [w, u]);
    SetAllTwo(t0, u, w);
    SetAllTwo(t0, w, u);
    SetsCommuteExactly(t0, u.path, u.value, w.path, w.value);
  }

  lemma OrdersPlusTwo(rest: seq<Write>, s: set<Write>, u: Write, w: Write)
    requires Orders(rest, s) && u !in s && w !in s && u != w
    ensures Orders(rest + [u, w], s + {u, w})
  {
    var order := rest + [u, w];
    forall i | 0 <= i < |rest|
      ensures order[i] in s
    {
      assert rest[i] in rest;
    }
  }

  lemma BothOrders(rest: seq<Write>, s: set<Write>, u: Write, w: Write)
    requires u in s && w in s && u != w && Orders(rest, s - {u, w})
    ensures Orders(rest + [u, w], s) && Orders(rest + [w, u], s)
  {
    OrdersPlusTwo(rest, s - {u, w}, u, w);
    OrdersPlusTwo(rest, s - {u, w}, w, u);
    assert s - {u, w} + {u, w} == s && s - {u, w} + {w, u} == s;
  }

  /** Writes elsewhere do not change what is at a path. */
  lemma {:induction false} GetAfterOthers(t: Tree, writes: seq<Write>, q: Path)
    requires forall i :: 0 <= i < |writes| ==> Incomparable(writes[i].path, q)
    ensures Get(SetAll(t, writes), q) == Get(t, q)
    decreases writes
  {
    if writes == [] {
    } else {
      var w := writes[0];
      GetAfterSet(t, w.path, Leaf(w.value), q);
      GetAfterOthers(Set(t, w.path, Leaf(w.value)), writes[1..], q);
    }
  }

  /** Once all writes are done, in whatever order, each can be read. */
  lemma GetAfterAll(t: Tree, order: seq<Write>, s: set<Write>, w: Write)
    requires Orders(order, s) && PairwiseIncomparable(s) && w in s
    ensures Get(SetAll(t, order), w.path) == Some(Leaf(w.value))
  {
    var j :| 0 <= j < |order| && order[j] == w;
    var others := order[..j] + order[j + 1..];
    AnyWriteFirst(t, order, j, s);
    OrdersWithout(order, j, s);
    forall i | 0 <= i < |others|
      ensures Incomparable(others[i].path, w.path)
    {
      assert others[i] in others && others[i] in s - {w};
    }
    GetAfterOthers(Set(t, w.path, Leaf(w.value)), others, w.path);
    GetAfterSet(t, w.path, Leaf(w.value), w.path);
  }

  ghost predicate AllOrdersAgree(t: Tree, s: set<Write>) {
    forall a, b :: Orders(a, s) && Orders(b, s) ==> SetAll(t, a) == SetAll(t, b)
  }

  /** Two comparable writes to distinct paths are enough for two orders to disagree. */
  lemma SomeOrdersDisagree(t: Tree, s: set<Write>, u: Write, w: Write)
    requires u in s && w in s && u.path != [] && w.path != [] && u.path != w.path && !Incomparable(u.path, w.path)
    ensures !AllOrdersAgree(t, s)
  {
    var rest := SomeOrder(s - {u, w});
    BothOrders(rest, s, u, w);
    ComparableWritesDisagree(t, rest, u, w);
  }

  lemma AllOrdersOfIncomparableAgree(t: Tree, s: set<Write>)
    requires PairwiseIncomparable(s)
    ensures AllOrdersAgree(t, s)
  {
    forall a, b | Orders(a, s) && Orders(b, s)
      ensures SetAll(t, a) == SetAll(t, b)
    {
      OrderIsIrrelevant(t, a, b, s);
    }
  }

  /** For writes to distinct paths: all orders agree exactly when no path is a prefix of another. */
  lemma OrderIsIrrelevantExactly(t: Tree, s: set<Write>)
    requires forall w :: w in s ==> w.path != []
    requires forall u, w :: u in s && w in s && u.path == w.path ==> u == w
    ensures AllOrdersAgree(t, s) <==> PairwiseIncomparable(s)
  {
    if PairwiseIncomparable(s) {
      AllOrdersOfIncomparableAgree(t, s);
    } else {
      var u, w :| u in s && w in s && u != w && !Incomparable(u.path, w.path);
      SomeOrdersDisagree(t, s, u, w);
    }
  }
}
