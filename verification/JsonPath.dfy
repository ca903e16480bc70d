/**
 The path evaluator for JSON bodies.  Values are trees, with `Null` for both JSON
 null and "nothing there".  A panic of the program (a negative index, or a named
 index into something that is not an object) is a result of its own.
 */
module JsonPath {
  import opened Prelude
  import opened Numerals

  datatype Json =
    | Null
    | Bool(b: bool)
    | Number(text: string)
    | Str(s: string)
    | Arr(items: seq<Json>)
    | Obj(fields: map<string, Json>)

  /** What extracting one key gives; `None` stands for a panic. */
  type Extraction = Option<Json>

  /** The value a walk renders as text, or why there is none. */
  datatype WalkResult = Reached(value: Json) | NotFound | Panic

  // ---------------------------------------------------------------------------
  // Splitting a path at the dots outside of brackets

  function Depth(depth: int, c: char): int {
    if c == '[' then depth + 1 else if c == ']' then depth - 1 else depth
  }

  /** `p` put in front of the first part. */
  function Prepend(p: string, parts: seq<string>): seq<string>
    requires parts != []
  {
    [p + parts[0]] + parts[1..]
  }

  /** The keys of a path that starts inside `depth` brackets. */
  function KeysFrom(path: string, depth: int): (keys: seq<string>)
    ensures keys != []
  {
    if path == "" then [""]
    else if path[0] == '.' && depth == 0 then [""] + KeysFrom(path[1..], depth)
    else Prepend([path[0]], KeysFrom(path[1..], Depth(depth, path[0])))
  }

  function KeysOf(path: string): seq<string> {
    KeysFrom(path, 0)
  }

  /** A path is its first key, or that key, a dot, and a path with the remaining keys. */
  lemma {:induction false} FirstKey(path: string, depth: int)
    ensures var keys := KeysFrom(path, depth);
            if |keys| == 1 then keys[0] == path
            else keys[0] + "." <= path && KeysOf(path[|keys[0]| + 1..]) == keys[1..]
  {
    if path != "" && !(path[0] == '.' && depth == 0) {
      var rest := KeysFrom(path[1..], Depth(depth, path[0]));
      FirstKey(path[1..], Depth(depth, path[0]));
      assert path == [path[0]] + path[1..];
      if |rest| > 1 {
        assert path[|rest[0]| + 2..] == path[1..][|rest[0]| + 1..];
      }
    }
  }

  lemma PrependNothing(parts: seq<string>)
    requires parts != []
    ensures Prepend("", parts) == parts
  {
    assert "" + parts[0] == parts[0];
  }

  lemma PrependTwice(p: string, q: string, parts: seq<string>)
    requires parts != []
    ensures Prepend(p, Prepend(q, parts)) == Prepend(p + q, parts)
  {
    assert p + (q + parts[0]) == p + q + parts[0];
  }

  lemma ScanOneMore(path: string, start: nat, i: nat, depth: int)
    requires start <= i < |path|
    ensures Prepend(path[start..i], KeysFrom(path[i..], depth)) ==
            if path[i] == '.' && depth == 0
            then [path[start..i]] + Prepend(path[i + 1..i + 1], KeysFrom(path[i + 1..], depth))
            else Prepend(path[start..i + 1], KeysFrom(path[i + 1..], Depth(depth, path[i])))
  {
    assert path[i..][1..] == path[i + 1..];
    if path[i] == '.' && depth == 0 {
      PrependNothing(KeysFrom(path[i + 1..], 0));
      assert path[i + 1..i + 1] == "" && path[start..i] + "" == path[start..i];
    } else {
      PrependTwice(path[start..i], [path[i]], KeysFrom(path[i + 1..], Depth(depth, path[i])));
      assert path[start..i + 1] == path[start..i] + [path[i]];
    }
  }

  lemma LastKey(path: string, start: nat, depth: int)
    requires start <= |path|
    ensures Prepend(path[start..|path|], KeysFrom(path[|path|..], depth)) == [path[start..]]
  {
    assert path[|path|..] == "" && path[start..|path|] + "" == path[start..];
  }

  lemma FirstMoves(keys: seq<string>, first: string, rest: seq<string>)
    ensures keys + ([first] + rest) == keys + [first] + rest && ([first] + rest)[1..] == rest
  {
  }

  /** The scanning loop of `walk`. */
  method SplitKeys(path: string) returns (keys: seq<string>)
    ensures keys == KeysOf(path)
  {
    keys := [];
    var startOfCurrentKey, bracketDepth := 0, 0;
    ghost var rest := KeysOf(path);
    assert path[0..0] == "" && path[0..] == path;
    PrependNothing(rest);
    for i := 0 to |path|
      invariant 0 <= startOfCurrentKey <= i
      invariant KeysOf(path) == keys + rest
      invariant rest == Prepend(path[startOfCurrentKey..i], KeysFrom(path[i..], bracketDepth))
    {
      ScanOneMore(path, startOfCurrentKey, i, bracketDepth);
      if path[i] == '[' {
        bracketDepth := bracketDepth + 1;
      } else if path[i] == ']' {
        bracketDepth := bracketDepth - 1;
      }
      if path[i] == '.' && bracketDepth == 0 {
        FirstMoves(keys, path[startOfCurrentKey..i], rest[1..]);
        keys := keys + [path[startOfCurrentKey..i]];
        startOfCurrentKey := i + 1;
        rest := rest[1..];
      }
    }
    LastKey(path, startOfCurrentKey, bracketDepth);
    keys := keys + [path[startOfCurrentKey..]];
  }

  // ---------------------------------------------------------------------------
  // Extracting one key

  datatype Span = Span(start: nat, end: Option<nat>)

  /** Where the first index of a key is: its opening bracket, and its closing one if there is any. */
  function Scan(key: string, i: nat, start: nat, depth: nat): (r: Span)
    requires i <= |key| && start <= i && (depth > 0 ==> start < i)
    ensures r.end.Some? ==> r.start < r.end.value < |key|
    decreases |key| - i
  {
    if i == |key| then Span(start, None)
    else if key[i] == '[' then Scan(key, i + 1, i, depth + 1)
    else if key[i] == ']' && depth == 1 then Span(start, Some(i))
    else Scan(key, i + 1, start, depth)
  }

  predicate EndsWithIndex(key: string) {
    key != "" && key[|key| - 1] == ']' && '[' in key
  }

  function ItemsOf(v: Json): seq<Json> {
    if v.Arr? then v.items else []
  }

  function Field(v: Json, name: string): Json
    requires v.Obj?
  {
    if name in v.fields then v.fields[name] else Null
  }

  /** What an index is applied to: the value itself without a name, and otherwise its field. */
  function Base(name: string, v: Json): Extraction {
    if name == "" then Some(v)
    else if v.Null? then Some(Null)
    else if !v.Obj? then None
    else Some(Field(v, name))
  }

  /** A name, the index behind it as a number, and the text behind that. */
  function ExtractAt(name: string, index: Option<int>, rest: string, v: Json): Extraction
    decreases |rest|, 3
  {
    if index.None? then Some(Null)
    else
      var base := Base(name, v);
      if base.None? then None
      else if name != "" && base.value.Null? then Some(Null)
      else Pick(rest, ItemsOf(base.value), index.value)
  }

  /** What the code computes for a key. */
  function Extract(key: string, v: Json): Extraction
    decreases |key|, 1
  {
    if EndsWithIndex(key) then
      var found := Scan(key, 0, 0, 0);
      if found.end.None? then Some(Null)
      else
        var end := found.end.value;
        ExtractAt(key[..found.start], Atoi(key[found.start + 1..end]), key[end + 1..], v)
    else if v.Obj? then Some(Field(v, key))
    else Some(v)
  }

  /** Takes one item; a further bracket right behind the index applies to that item. */
  function Pick(rest: string, items: seq<Json>, index: int): Extraction
    decreases |rest|, 2
  {
    if index >= |items| then Some(Null)
    else if index < 0 then None
    else if rest != "" && rest[0] == '[' then Extract(rest, items[index])
    else Some(items[index])
  }

  /** The scanning loop of `extractValue`; without a closing bracket the index is empty. */
  method FindIndex(currentKey: string)
    returns (index: string, isNestedArray: bool, startOfBracket: nat, endOfBracket: nat)
    ensures startOfBracket == Scan(currentKey, 0, 0, 0).start && startOfBracket <= |currentKey|
    ensures var end := Scan(currentKey, 0, 0, 0).end;
            if end.None? then index == ""
            else
              endOfBracket == end.value && index == currentKey[startOfBracket + 1..endOfBracket] &&
              isNestedArray == (endOfBracket + 1 < |currentKey| && currentKey[endOfBracket + 1] == '[')
  {
    isNestedArray, index := false, "";
    startOfBracket, endOfBracket := 0, 0;
    var bracketDepth := 0;
    for i := 0 to |currentKey|
      invariant startOfBracket <= i && 0 <= bracketDepth && (bracketDepth > 0 ==> startOfBracket < i)
      invariant Scan(currentKey, 0, 0, 0) == Scan(currentKey, i, startOfBracket, bracketDepth)
      invariant index == "" && !isNestedArray
    {
      if currentKey[i] == '[' {
        startOfBracket := i;
        bracketDepth := bracketDepth + 1;
      } else if currentKey[i] == ']' && bracketDepth == 1 {
        bracketDepth := bracketDepth - 1;
        endOfBracket := i;
        index := currentKey[startOfBracket + 1..i];
        if |currentKey| > i + 1 && currentKey[i + 1] == '[' {
          isNestedArray := true;
        }
        break;
      }
    }
  }

  method ExtractIndex(currentKey: string, value: Json) returns (r: Extraction)
    requires EndsWithIndex(currentKey)
    ensures r == Extract(currentKey, value)
    decreases |currentKey|, 0
  {
    var index, isNestedArray, startOfBracket, endOfBracket := FindIndex(currentKey);
    var arrayIndex := Atoi(index);
    if arrayIndex.None? {
      return Some(Null);
    }
    var rest := currentKey[endOfBracket + 1..];
    r := ExtractItem(currentKey[..startOfBracket], arrayIndex.value, rest, isNestedArray, value);
  }

  method ExtractValue(currentKey: string, value: Json) returns (r: Extraction)
    ensures r == Extract(currentKey, value)
    decreases |currentKey|, 1
  {
    if EndsWithIndex(currentKey) {
      r := ExtractIndex(currentKey, value);
      return;
    }
    match value
    case Arr(_) => return Some(value);
    case Obj(_) => return Some(Field(value, currentKey));
    case _ => return Some(value);
  }

  method PickItem(rest: string, isNestedArray: bool, list: seq<Json>, arrayIndex: int) returns (r: Extraction)
    requires isNestedArray == (rest != "" && rest[0] == '[')
    ensures r == Pick(rest, list, arrayIndex)
    decreases |rest|, 2
  {
    if |list| > arrayIndex {
      if arrayIndex < 0 {
        return None;
      }
      if isNestedArray {
        r := ExtractValue(rest, list[arrayIndex]);
        return;
      }
      return Some(list[arrayIndex]);
    }
    return Some(Null);
  }

  /** An index that was found, applied to the field of that name, or to the value itself without a name. */
  method ExtractItem(name: string, arrayIndex: int, rest: string, isNestedArray: bool, value: Json)
    returns (r: Extraction)
    requires isNestedArray == (rest != "" && rest[0] == '[')
    ensures r == ExtractAt(name, Some(arrayIndex), rest, value)
    decreases |rest|, 3
  {
    var list;
    if |name| == 0 {
      list := ItemsOf(value);
    } else {
      if value.Null? {
        return Some(Null);
      }
      if !value.Obj? {
        return None;
      }
      if Field(value, name).Null? {
        return Some(Null);
      }
      list := ItemsOf(Field(value, name));
    }
    r := PickItem(rest, isNestedArray, list, arrayIndex);
  }

  // ---------------------------------------------------------------------------
  // Walking

  /** Folding the keys over the value: each key but the last has to lead to an object. */
  function WalkKeys(keys: seq<string>, v: Json): WalkResult
    requires keys != []
  {
    var found := Extract(keys[0], v);
    if found.None? then Panic
    else if found.value.Null? then NotFound
    else if found.value.Obj? && |keys| > 1 then WalkKeys(keys[1..], found.value)
    else if found.value.Str? && |keys| > 1 then NotFound
    else Reached(found.value)
  }

  /** Whether `sub` occurs in `s` at position `i`. */
  predicate OccursAt(s: string, sub: string, i: nat) {
    i + |sub| <= |s| && s[i..i + |sub|] == sub
  }

  ghost predicate FirstOccursAt(s: string, sub: string, i: nat) {
    OccursAt(s, sub, i) && forall j: nat :: j < i ==> !OccursAt(s, sub, j)
  }

  /** `r` is `s` without the first occurrence of `sub`, or just `s` when there is none. */
  ghost predicate IsWithoutFirst(r: string, s: string, sub: string) {
    if exists i: nat :: OccursAt(s, sub, i)
    then exists i: nat :: FirstOccursAt(s, sub, i) && r == s[..i] + s[i + |sub|..]
    else r == s
  }

  /** `strings.Replace(s, sub, "", 1)`: drops the first occurrence, if there is any. */
  method RemoveFirst(s: string, sub: string) returns (r: string)
    requires sub != ""
    ensures IsWithoutFirst(r, s, sub)
  {
    var i: nat := 0;
    while i + |sub| <= |s|
      invariant forall j: nat :: j < i ==> !OccursAt(s, sub, j)
    {
      if s[i..i + |sub|] == sub {
        assert FirstOccursAt(s, sub, i);
        return s[..i] + s[i + |sub|..];
      }
      i := i + 1;
    }
    r := s;
  }

  /** Dropping the first occurrence of the first key and its dot leaves exactly the path of the other keys. */
  lemma RemovingTheFirstKey(path: string, newPath: string)
    requires IsWithoutFirst(newPath, path, KeysOf(path)[0] + ".")
    ensures var keys := KeysOf(path);
            if |keys| == 1 then newPath == path else |newPath| < |path| && KeysOf(newPath) == keys[1..]
  {
    var keys := KeysOf(path);
    var sub := keys[0] + ".";
    FirstKey(path, 0);
    if |keys| > 1 {
      assert OccursAt(path, sub, 0);
      assert newPath == path[..0] + path[|sub|..];
      assert path[|sub|..] == path[|keys[0]| + 1..] && path[..0] + path[|sub|..] == path[|sub|..];
    }
  }

  /**
   `walk`: although each call splits its path again and edits the text of the path,
   it computes the fold over the keys of the original path.
   */
  method Walk(path: string, value: Json) returns (r: WalkResult)
    ensures r == WalkKeys(KeysOf(path), value)
    decreases |path|
  {
    var keys := SplitKeys(path);
    var currentKey := keys[0];
    var found := ExtractValue(currentKey, value);
    if found.None? {
      return Panic;
    }
    match found.value
    case Obj(_) =>
      var newPath := RemoveFirst(path, currentKey + ".");
      RemovingTheFirstKey(path, newPath);
      if path == newPath {
        return Reached(found.value);
      }
      r := Walk(newPath, found.value);
    case Str(_) =>
      if |keys| > 1 {
        return NotFound;
      }
      return Reached(found.value);
    case Null => return NotFound;
    case _ => return Reached(found.value);
  }

  // ---------------------------------------------------------------------------
  // Keys with indices

  /** Indices as they are written behind a name. */
  function Brackets(indices: seq<string>): string {
    if indices == [] then "" else "[" + indices[0] + "]" + Brackets(indices[1..])
  }

  /** What is written between brackets: any text without brackets. */
  ghost predicate IsIndexText(index: string) {
    '[' !in index && ']' !in index
  }

  ghost predicate AreIndexTexts(indices: seq<string>) {
    forall i :: 0 <= i < |indices| ==> IsIndexText(indices[i])
  }

  /** Indexing with texts: nothing for a text that is no number or too large, a panic for a negative number. */
  function IndexedBy(v: Json, indices: seq<string>): Extraction {
    if indices == [] then Some(v)
    else
      var n, items := Atoi(indices[0]), ItemsOf(v);
      if n.None? || n.value >= |items| then Some(Null)
      else if n.value < 0 then None
      else IndexedBy(items[n.value], indices[1..])
  }

  lemma {:induction false} BracketsEnd(indices: seq<string>)
    requires indices != []
    ensures var s := Brackets(indices); s != "" && s[0] == '[' && s[|s| - 1] == ']'
  {
    if |indices| > 1 {
      BracketsEnd(indices[1..]);
    }
  }

  /** A key is a name, an index in brackets that ends at `end`, and the rest behind it. */
  ghost predicate IsIndexed(key: string, name: string, index: string, end: nat, rest: string) {
    |name| < end < |key| && key[..|name|] == name && key[|name|] == '[' && key[|name| + 1..end] == index &&
    key[end] == ']' && key[end + 1..] == rest
  }

  lemma Pieces(name: string, index: string, rest: string)
    ensures IsIndexed(name + ("[" + index + "]" + rest), name, index, |name| + 1 + |index|, rest)
  {
  }

  lemma EndsIndexed(key: string, name: string, index: string, end: nat, rest: string)
    requires IsIndexed(key, name, index, end, rest) && (rest == "" || rest[|rest| - 1] == ']')
    ensures EndsWithIndex(key)
  {
    assert rest != "" ==> key[|key| - 1] == rest[|rest| - 1];
  }

  lemma {:induction false} SkipName(key: string, n: nat, i: nat)
    requires i <= n <= |key|
    requires forall k :: 0 <= k < n ==> key[k] != '['
    ensures Scan(key, i, 0, 0) == Scan(key, n, 0, 0)
    decreases n - i
  {
    if i < n {
      SkipName(key, n, i + 1);
    }
  }

  lemma {:induction false} ScanIndex(key: string, start: nat, index: string, i: nat)
    requires IsIndexText(index) && start < i <= start + 1 + |index| < |key|
    requires key[start + 1..start + 1 + |index|] == index && key[start + 1 + |index|] == ']'
    ensures Scan(key, i, start, 1) == Span(start, Some(start + 1 + |index|))
    decreases |key| - i
  {
    if i < start + 1 + |index| {
      assert key[i] == index[i - start - 1] && index[i - start - 1] in index;
      ScanIndex(key, start, index, i + 1);
    }
  }

  lemma NameHasNoBracket(key: string, name: string)
    requires name <= key && '[' !in name
    ensures forall k :: 0 <= k < |name| ==> key[k] != '['
  {
    forall k | 0 <= k < |name|
      ensures key[k] != '['
    {
      assert key[k] == name[k] && name[k] in name;
    }
  }

  /** The scan finds the first index right behind the name. */
  lemma ScanName(key: string, name: string, index: string, end: nat, rest: string)
    requires IsIndexed(key, name, index, end, rest) && '[' !in name && IsIndexText(index)
    ensures Scan(key, 0, 0, 0) == Span(|name|, Some(end))
  {
    assert name == key[..|name|];
    NameHasNoBracket(key, name);
    SkipName(key, |name|, 0);
    ScanIndex(key, |name|, index, |name| + 1);
  }

  lemma ExtractPieces(key: string, name: string, index: string, end: nat, rest: string, v: Json)
    requires EndsWithIndex(key) && Scan(key, 0, 0, 0) == Span(|name|, Some(end))
    requires IsIndexed(key, name, index, end, rest)
    ensures Extract(key, v) == ExtractAt(name, Atoi(index), rest, v)
  {
  }

  lemma ExtractPiece(key: string, name: string, index: string, end: nat, rest: string, v: Json)
    requires IsIndexed(key, name, index, end, rest) && '[' !in name && IsIndexText(index)
    requires rest == "" || rest[|rest| - 1] == ']'
    ensures Extract(key, v) == ExtractAt(name, Atoi(index), rest, v)
  {
    EndsIndexed(key, name, index, end, rest);
    ScanName(key, name, index, end, rest);
    ExtractPieces(key, name, index, end, rest, v);
  }

  lemma ExtractOfKey(name: string, indices: seq<string>, v: Json)
    requires '[' !in name && indices != [] && AreIndexTexts(indices)
    ensures Extract(name + Brackets(indices), v) == ExtractAt(name, Atoi(indices[0]), Brackets(indices[1..]), v)
  {
    var index, rest := indices[0], Brackets(indices[1..]);
    assert IsIndexText(index);
    if indices[1..] != [] {
      BracketsEnd(indices[1..]);
    }
    Pieces(name, index, rest);
    ExtractPiece(name + Brackets(indices), name, index, |name| + 1 + |index|, rest, v);
  }

  lemma ExtractOfItem(indices: seq<string>, v: Json)
    requires indices != [] && AreIndexTexts(indices)
    ensures Brackets(indices) != "" && Brackets(indices)[0] == '['
    ensures Extract(Brackets(indices), v) ==
            if Atoi(indices[0]).None? then Some(Null)
            else Pick(Brackets(indices[1..]), ItemsOf(v), Atoi(indices[0]).value)
  {
    BracketsEnd(indices);
    ExtractOfKey("", indices, v);
    assert "" + Brackets(indices) == Brackets(indices);
  }

  lemma {:induction false} PickIndexed(indices: seq<string>, items: seq<Json>, n: int)
    requires AreIndexTexts(indices)
    ensures Pick(Brackets(indices), items, n) ==
            if n >= |items| then Some(Null) else if n < 0 then None else IndexedBy(items[n], indices)
    decreases indices
  {
    if 0 <= n < |items| && indices != [] {
      ExtractOfItem(indices, items[n]);
      if Atoi(indices[0]).Some? {
        PickIndexed(indices[1..], ItemsOf(items[n]), Atoi(indices[0]).value);
      }
    }
  }

  /** A name followed by indices, whatever they are: indexing the named field step by step. */
  lemma {:induction false} ExtractAnyIndexed(name: string, indices: seq<string>, v: Json)
    requires '[' !in name && indices != [] && AreIndexTexts(indices)
    ensures Extract(name + Brackets(indices), v) ==
            if Atoi(indices[0]).None? then Some(Null)
            else if name == "" then IndexedBy(v, indices)
            else if v.Null? then Some(Null)
            else if !v.Obj? then None
            else if Field(v, name).Null? then Some(Null)
            else IndexedBy(Field(v, name), indices)
  {
    ExtractOfKey(name, indices, v);
    var base := Base(name, v);
    if Atoi(indices[0]).Some? && base.Some? {
      PickIndexed(indices[1..], ItemsOf(base.value), Atoi(indices[0]).value);
    }
  }

  /** Non-negative decimal numbers, of any size. */
  ghost predicate AreIndices(indices: seq<string>) {
    forall i :: 0 <= i < |indices| ==> indices[i] != "" && AllDigits(indices[i])
  }

  /** No array is longer than an integer can count. */
  predicate Storable(v: Json) {
    match v
    case Arr(items) => |items| <= MAX_INT && forall i :: 0 <= i < |items| ==> Storable(items[i])
    case Obj(fields) => forall k :: k in fields ==> Storable(fields[k])
    case _ => true
  }

  /** Indexing step by step; nothing when a level is not an array or too short. */
  function Indexed(v: Json, indices: seq<string>): Option<Json>
    requires forall i :: 0 <= i < |indices| ==> AllDigits(indices[i])
  {
    if indices == [] then Some(v)
    else if v.Arr? && Decimal(indices[0]) < |v.items| then Indexed(v.items[Decimal(indices[0])], indices[1..])
    else None
  }

  function OrNull(found: Option<Json>): Json {
    if found.Some? then found.value else Null
  }

  lemma {:induction false} IndexedByDigits(v: Json, indices: seq<string>)
    requires AreIndices(indices) && Storable(v)
    ensures IndexedBy(v, indices) == Some(OrNull(Indexed(v, indices)))
  {
    if indices != [] {
      AtoiOfDigits(indices[0]);
      if v.Arr? && Decimal(indices[0]) < |v.items| {
        IndexedByDigits(v.items[Decimal(indices[0])], indices[1..]);
      }
    }
  }

  lemma DigitsAreTexts(indices: seq<string>)
    requires AreIndices(indices)
    ensures AreIndexTexts(indices)
  {
    forall i | 0 <= i < |indices|
      ensures IsIndexText(indices[i])
    {
      assert forall k :: 0 <= k < |indices[i]| ==> IsDigit(indices[i][k]);
    }
  }

  /**
   A name followed by decimal indices: the element reached by indexing the named field
   step by step, and `Null` when some step fails; a panic exactly when the name is
   looked up in something that is neither an object nor null, unless the index is not
   even read because it is too large for an integer.
   */
  lemma {:induction false} ExtractIndexed(name: string, indices: seq<string>, v: Json)
    requires '[' !in name && indices != [] && AreIndices(indices) && Storable(v)
    ensures Extract(name + Brackets(indices), v) ==
            if name == "" then Some(OrNull(Indexed(v, indices)))
            else if v.Null? then Some(Null)
            else if v.Obj? then Some(OrNull(Indexed(Field(v, name), indices)))
            else if Decimal(indices[0]) > MAX_INT then Some(Null)
            else None
  {
    DigitsAreTexts(indices);
    ExtractAnyIndexed(name, indices, v);
    AtoiOfDigits(indices[0]);
    IndexedByDigits(v, indices);
    if v.Obj? {
      IndexedByDigits(Field(v, name), indices);
    }
  }
}
