/**
 The two path languages of the program, one for response bodies and one for suite
 contexts, agree on paths without brackets over nested objects of strings.
 */
module PathAgreement {
  import opened Prelude
  import opened JsonPath
  import T = ContextTree

  /** Nested maps whose leaves are texts. */
  predicate OfTexts(t: T.Tree) {
    match t
    case Leaf(x) => x.Text?
    case Node(kids) => forall k :: k in kids ==> OfTexts(kids[k])
    case Items(_) => false
  }

  function ToJson(t: T.Tree): Json
    requires OfTexts(t)
  {
    if t.Leaf? then Str(t.x.s) else Obj(map k | k in t.kids :: ToJson(t.kids[k]))
  }

  lemma {:induction false} SplitOneMore(c: char, rest: string, sep: char)
    ensures Split([c] + rest, sep) == if c == sep then [""] + Split(rest, sep) else Prepend([c], Split(rest, sep))
  {
    var s := [c] + rest;
    assert s[1..] == rest;
    if c != sep {
      var i := Find(rest, sep);
      assert Find(s, sep) == 1 + i;
      if i < |rest| {
        assert s[..1 + i] == [c] + rest[..i] && s[i + 2..] == rest[i + 1..];
      } else {
        assert Split(rest, sep) == [rest];
      }
    } else {
      assert Find(s, sep) == 0 && s[..0] == "";
    }
  }

  /** Without brackets the keys are the pieces between the dots. */
  lemma {:induction false} KeysWithoutBrackets(path: string)
    requires '[' !in path && ']' !in path
    ensures KeysOf(path) == Split(path, '.')
  {
    if path == "" {
      assert Split("", '.') == [""];
    } else {
      assert path[0] in path;
      KeysWithoutBrackets(path[1..]);
      SplitOneMore(path[0], path[1..], '.');
      assert path == [path[0]] + path[1..];
    }
  }

  lemma {:induction false} WalkIsGetOnKeys(t: T.Tree, keys: seq<string>)
    requires OfTexts(t) && t.Node? && keys != []
    requires forall i :: 0 <= i < |keys| ==> '[' !in keys[i]
    ensures var found := T.Get(t, keys);
            if found.None? then WalkKeys(keys, ToJson(t)) == NotFound
            else OfTexts(found.value) && WalkKeys(keys, ToJson(t)) == Reached(ToJson(found.value))
    decreases keys
  {
    var k := keys[0];
    assert Extract(k, ToJson(t)) == Some(Field(ToJson(t), k));
    if k in t.kids {
      var kid := t.kids[k];
      assert T.Get(t, keys) == T.Get(kid, keys[1..]);
      if |keys| > 1 {
        if kid.Node? {
          WalkIsGetOnKeys(kid, keys[1..]);
        }
      } else {
        assert T.Get(kid, []) == Some(kid);
      }
    }
  }

  /** Pieces of a text contain only characters of the text. */
  lemma {:induction false} PiecesOf(s: string, sep: char, c: char)
    requires c !in s
    ensures forall i :: 0 <= i < |Split(s, sep)| ==> c !in Split(s, sep)[i]
    decreases |s|
  {
    var i := Find(s, sep);
    if i < |s| {
      PiecesOf(s[i + 1..], sep, c);
    }
  }

  /**
   On a path without brackets, `walk` over an object of texts finds a value exactly
   when the context lookup of the same dotted path does, and it is the same value.
   */
  lemma WalkAgreesWithGet(t: T.Tree, path: string)
    requires OfTexts(t) && t.Node?
    requires '[' !in path && ']' !in path
    ensures var found := T.Get(t, Split(path, '.'));
            var walked := WalkKeys(KeysOf(path), ToJson(t));
            if found.None? then walked == NotFound
            else OfTexts(found.value) && walked == Reached(ToJson(found.value))
  {
    KeysWithoutBrackets(path);
    PiecesOf(path, '.', '[');
    WalkIsGetOnKeys(t, Split(path, '.'));
  }
}
