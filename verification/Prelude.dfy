/** Shared vocabulary: the usual optional value, and splitting a text at a separator. */
module Prelude {
  datatype Option<+T> = None | Some(value: T)

  /** The position of the first `c` in `s`, or the length of `s`. */
  function Find(s: string, c: char): (i: nat)
    ensures i <= |s| && c !in s[..i]
    ensures i < |s| ==> s[i] == c
  {
    if s == "" || s[0] == c then 0 else 1 + Find(s[1..], c)
  }

  /** The pieces of `s` between separators; a text without separator is its own only piece. */
  function Split(s: string, c: char): (parts: seq<string>)
    ensures |parts| >= 1
    decreases |s|
  {
    var i := Find(s, c);
    if i == |s| then [s] else [s[..i]] + Split(s[i + 1..], c)
  }

  function Join(parts: seq<string>, c: char): string
    requires |parts| >= 1
  {
    if |parts| == 1 then parts[0] else parts[0] + [c] + Join(parts[1..], c)
  }

  /** Splitting loses nothing, and no piece contains the separator. */
  lemma {:induction false} JoinSplit(s: string, c: char)
    ensures Join(Split(s, c), c) == s
    ensures forall k :: 0 <= k < |Split(s, c)| ==> c !in Split(s, c)[k]
    decreases |s|
  {
    var i := Find(s, c);
    if i == |s| {
      assert s[..i] == s;
    } else {
      var rest := Split(s[i + 1..], c);
      JoinSplit(s[i + 1..], c);
      assert ([s[..i]] + rest)[1..] == rest;
      assert s == s[..i] + [c] + s[i + 1..];
    }
  }

  lemma SplitOnce(s: string, c: char)
    ensures var i := Find(s, c);
            if i == |s| then Split(s, c) == [s] && c !in s
            else s == s[..i] + [c] + s[i + 1..] && Split(s, c) == [s[..i]] + Split(s[i + 1..], c)
  {
    var i := Find(s, c);
    if i == |s| {
      assert s[..i] == s;
    } else {
      assert s == s[..i] + [s[i]] + s[i + 1..];
    }
  }

  /** A text begins another exactly when the parts before the first separator are equal and the rest begins the rest. */
  lemma HeadsAgree(a: string, b: string, x: string, y: string, c: char)
    requires c !in a && c !in x
    ensures a + [c] + b <= x + [c] + y <==> a == x && b <= y
  {
    var s, t := a + [c] + b, x + [c] + y;
    if s <= t {
      assert s[|a|] == t[|a|] && t[|x|] == c;
      assert a == s[..|a|] == t[..|a|] == x;
      assert b == s[|a| + 1..] && y == t[|a| + 1..];
    }
  }

  lemma SeparatorInside(s: string, t: string, c: char)
    ensures s + [c] <= t ==> c in t
  {
    if s + [c] <= t {
      assert (s + [c])[|s|] == t[|s|];
    }
  }

  lemma ConsBegins<X>(x: X, s: seq<X>, y: X, t: seq<X>)
    ensures [x] + s <= [y] + t <==> x == y && s <= t
  {
    if [x] + s <= [y] + t {
      assert ([x] + s)[0] == ([y] + t)[0];
      assert s == ([x] + s)[1..] && t == ([y] + t)[1..];
    }
  }

  lemma BothSplit(a: string, b: string, x: string, y: string, c: char)
    requires c !in a && c !in x
    ensures var s, t := a + [c] + b, x + [c] + y;
            s == t || s + [c] <= t <==> a == x && (b == y || b + [c] <= y)
  {
    var s, t := a + [c] + b, x + [c] + y;
    HeadsAgree(a, b, x, y, c);
    HeadsAgree(a, b + [c], x, y, c);
    assert s + [c] == a + [c] + (b + [c]);
    assert s == t <==> s <= t && |s| == |t|;
    assert b == y <==> b <= y && |b| == |y|;
  }

  /** The pieces of one text begin those of another exactly when the text itself does, up to a separator. */
  lemma {:induction false} PrefixOfPieces(s: string, t: string, c: char)
    ensures Split(s, c) <= Split(t, c) <==> s == t || s + [c] <= t
    decreases |s|
  {
    var i, j := Find(s, c), Find(t, c);
    SplitOnce(s, c);
    SplitOnce(t, c);
    if i == |s| && j == |t| {
      ConsBegins(s, [], t, []);
      assert [s] + [] == [s] && [t] + [] == [t];
      SeparatorInside(s, t, c);
    } else if i == |s| {
      var t0, t1 := t[..j], t[j + 1..];
      ConsBegins(s, [], t0, Split(t1, c));
      HeadsAgree(s, "", t0, t1, c);
      assert [s] + [] == [s] && s + [c] + "" == s + [c];
    } else if j == |t| {
      SeparatorInside(s, t, c);
      ConsBegins(s[..i], Split(s[i + 1..], c), t, []);
      assert [t] + [] == [t];
    } else {
      BothSplit(s[..i], s[i + 1..], t[..j], t[j + 1..], c);
      PrefixOfPieces(s[i + 1..], t[j + 1..], c);
      ConsBegins(s[..i], Split(s[i + 1..], c), t[..j], Split(t[j + 1..], c));
    }
  }

  /** The longest suffix of `s` with at most `n` elements. */
  function Suffix<X>(s: seq<X>, n: nat): (t: seq<X>)
    ensures |t| == if |s| <= n then |s| else n
  {
    if |s| <= n then s else s[|s| - n..]
  }
}
