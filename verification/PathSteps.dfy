/**
 Paths into a body, as they are meant: steps of a name with indices behind it, joined
 by dots.  Splitting such a path gives its steps back, and walking it is looking the
 names up and applying the indices one after the other.
 */
module PathSteps {
  import opened Prelude
  import opened Numerals
  import opened JsonPath

  datatype Step = Step(name: string, indices: seq<string>)

  /** Neither dots nor brackets. */
  ghost predicate IsName(name: string) {
    '.' !in name && '[' !in name && ']' !in name
  }

  ghost predicate IsStep(s: Step) {
    IsName(s.name) && AreIndexTexts(s.indices)
  }

  ghost predicate AreSteps(steps: seq<Step>) {
    forall i :: 0 <= i < |steps| ==> IsStep(steps[i])
  }

  /** The text of a step, as in `name[1][2]`. */
  function TextOf(s: Step): string {
    s.name + Brackets(s.indices)
  }

  function Texts(steps: seq<Step>): (texts: seq<string>)
    ensures |texts| == |steps|
  {
    if steps == [] then [] else [TextOf(steps[0])] + Texts(steps[1..])
  }

  /** The texts of the steps with dots between them. */
  function PathOf(steps: seq<Step>): string
    requires steps != []
  {
    Join(Texts(steps), '.')
  }

  // ---------------------------------------------------------------------------
  // Splitting a path gives its steps

  /** Text that neither opens nor closes a bracket nor ends a key becomes part of the first key. */
  lemma {:induction false} KeysThrough(p: string, rest: string, depth: int)
    requires '[' !in p && ']' !in p && (depth == 0 ==> '.' !in p)
    ensures KeysFrom(p + rest, depth) == Prepend(p, KeysFrom(rest, depth))
  {
    if p == "" {
      assert p + rest == rest;
      PrependNothing(KeysFrom(rest, depth));
    } else {
      assert (p + rest)[0] == p[0] && (p + rest)[1..] == p[1..] + rest;
      KeysThrough(p[1..], rest, depth);
      PrependTwice([p[0]], p[1..], KeysFrom(rest, depth));
      assert [p[0]] + p[1..] == p;
    }
  }

  lemma BracketOpens(rest: string)
    ensures KeysFrom("[" + rest, 0) == Prepend("[", KeysFrom(rest, 1))
  {
    assert ("[" + rest)[1..] == rest;
  }

  lemma BracketCloses(rest: string)
    ensures KeysFrom("]" + rest, 1) == Prepend("]", KeysFrom(rest, 0))
  {
    assert ("]" + rest)[1..] == rest;
  }

  /** So does an index in its brackets, with or without dots. */
  lemma KeysThroughIndex(index: string, rest: string)
    requires IsIndexText(index)
    ensures KeysFrom("[" + index + "]" + rest, 0) == Prepend("[" + index + "]", KeysFrom(rest, 0))
  {
    assert "[" + index + "]" + rest == "[" + (index + ("]" + rest));
    BracketOpens(index + ("]" + rest));
    KeysThrough(index, "]" + rest, 1);
    BracketCloses(rest);
    PrependTwice(index, "]", KeysFrom(rest, 0));
    PrependTwice("[", index + "]", KeysFrom(rest, 0));
    assert "[" + (index + "]") == "[" + index + "]";
  }

  lemma {:induction false} KeysThroughIndices(indices: seq<string>, rest: string)
    requires AreIndexTexts(indices)
    ensures KeysFrom(Brackets(indices) + rest, 0) == Prepend(Brackets(indices), KeysFrom(rest, 0))
  {
    if indices == [] {
      assert "" + rest == rest;
      PrependNothing(KeysFrom(rest, 0));
    } else {
      var first, more := "[" + indices[0] + "]", Brackets(indices[1..]);
      assert IsIndexText(indices[0]);
      assert first + more + rest == first + (more + rest);
      KeysThroughIndex(indices[0], more + rest);
      KeysThroughIndices(indices[1..], rest);
      PrependTwice(first, more, KeysFrom(rest, 0));
    }
  }

  lemma KeysThroughStep(s: Step, rest: string)
    requires IsStep(s)
    ensures KeysFrom(TextOf(s) + rest, 0) == Prepend(TextOf(s), KeysFrom(rest, 0))
  {
    assert TextOf(s) + rest == s.name + (Brackets(s.indices) + rest);
    KeysThrough(s.name, Brackets(s.indices) + rest, 0);
    KeysThroughIndices(s.indices, rest);
    PrependTwice(s.name, Brackets(s.indices), KeysFrom(rest, 0));
  }

  lemma KeysOfLast(s: Step)
    requires IsStep(s)
    ensures KeysOf(TextOf(s)) == [TextOf(s)]
  {
    KeysThroughStep(s, "");
    assert TextOf(s) + "" == TextOf(s);
  }

  lemma KeysOfMore(s: Step, path: string)
    requires IsStep(s)
    ensures KeysOf(TextOf(s) + "." + path) == [TextOf(s)] + KeysOf(path)
  {
    KeysThroughStep(s, "." + path);
    assert ("." + path)[1..] == path;
    assert TextOf(s) + "." + path == TextOf(s) + ("." + path);
    assert TextOf(s) + "" == TextOf(s);
  }

  /** The keys of a path are the texts of its steps. */
  lemma {:induction false} KeysOfPath(steps: seq<Step>)
    requires steps != [] && AreSteps(steps)
    ensures KeysOf(PathOf(steps)) == Texts(steps)
  {
    assert IsStep(steps[0]);
    if |steps| == 1 {
      KeysOfLast(steps[0]);
    } else {
      KeysOfPath(steps[1..]);
      KeysOfMore(steps[0], PathOf(steps[1..]));
      assert Texts(steps)[1..] == Texts(steps[1..]);
    }
  }

  // ---------------------------------------------------------------------------
  // Walking a path

  /** Where one step leads: a plain name leads nowhere new from anything but an object. */
  function After(s: Step, v: Json): Extraction {
    if s.indices == [] then Some(if v.Obj? then Field(v, s.name) else v)
    else if Atoi(s.indices[0]).None? then Some(Null)
    else if s.name == "" then IndexedBy(v, s.indices)
    else if v.Null? then Some(Null)
    else if !v.Obj? then None
    else if Field(v, s.name).Null? then Some(Null)
    else IndexedBy(Field(v, s.name), s.indices)
  }

  lemma ExtractStep(s: Step, v: Json)
    requires IsStep(s)
    ensures Extract(TextOf(s), v) == After(s, v)
  {
    if s.indices == [] {
      assert TextOf(s) == s.name;
    } else {
      ExtractAnyIndexed(s.name, s.indices, v);
    }
  }

  /** Step after step while there are objects: texts must come last, other values end the walk wherever they come. */
  function Along(steps: seq<Step>, v: Json): WalkResult
    requires steps != []
  {
    var found := After(steps[0], v);
    if found.None? then Panic
    else
      match found.value
      case Null => NotFound
      case Obj(_) => if |steps| == 1 then Reached(found.value) else Along(steps[1..], found.value)
      case Str(_) => if |steps| == 1 then Reached(found.value) else NotFound
      case _ => Reached(found.value)
  }

  /** The key does from every value what the step does. */
  ghost predicate Does(key: string, s: Step) {
    forall v :: Extract(key, v) == After(s, v)
  }

  lemma {:induction false} TextsDo(steps: seq<Step>)
    requires AreSteps(steps)
    ensures forall i :: 0 <= i < |steps| ==> Does(Texts(steps)[i], steps[i])
  {
    if steps != [] {
      TextsDo(steps[1..]);
      forall v
        ensures Extract(TextOf(steps[0]), v) == After(steps[0], v)
      {
        ExtractStep(steps[0], v);
      }
    }
  }

  lemma {:induction false} WalkTexts(keys: seq<string>, steps: seq<Step>, v: Json)
    requires steps != [] && |keys| == |steps| && forall i :: 0 <= i < |steps| ==> Does(keys[i], steps[i])
    ensures WalkKeys(keys, v) == Along(steps, v)
  {
    assert Does(keys[0], steps[0]);
    var found := After(steps[0], v);
    if |steps| > 1 && found.Some? && found.value.Obj? {
      WalkTexts(keys[1..], steps[1..], found.value);
    }
  }

  /** Any path of steps is walked step by step, from any value, whatever the indices are. */
  lemma WalkIsStepwise(steps: seq<Step>, v: Json)
    requires steps != [] && AreSteps(steps)
    ensures WalkKeys(KeysOf(PathOf(steps)), v) == Along(steps, v)
  {
    KeysOfPath(steps);
    TextsDo(steps);
    WalkTexts(Texts(steps), steps, v);
  }

  // ---------------------------------------------------------------------------
  // What a path with decimal indices finds

  ghost predicate AreDecimal(steps: seq<Step>) {
    forall i :: 0 <= i < |steps| ==> AreIndices(steps[i].indices)
  }

  /** The field of an object, and the element its indices lead to, where all of that is there. */
  ghost function Part(s: Step, v: Json): Option<Json>
    requires AreIndices(s.indices)
  {
    if v.Obj? && s.name in v.fields && (s.name != "" || s.indices == []) then Indexed(v.fields[s.name], s.indices)
    else None
  }

  /** The part of the part, for all steps. */
  ghost function PartAt(steps: seq<Step>, v: Json): Option<Json>
    requires AreDecimal(steps)
  {
    if steps == [] then Some(v)
    else
      var part := Part(steps[0], v);
      if part.None? then None else PartAt(steps[1..], part.value)
  }

  /** A value at which a walk ends although there may be more steps. */
  predicate Ends(x: Json) {
    x.Number? || x.Bool? || x.Arr?
  }

  /** The first `n` steps lead to `x`, and that is where the walk ends. */
  ghost predicate EndsAt(steps: seq<Step>, n: nat, v: Json, x: Json)
    requires AreDecimal(steps)
  {
    0 < n <= |steps| && PartAt(steps[..n], v) == Some(x) && !x.Null? && (n == |steps| || Ends(x))
  }

  lemma {:induction false} IndexedIsStorable(v: Json, indices: seq<string>)
    requires AreIndices(indices) && Storable(v) && Indexed(v, indices).Some?
    ensures Storable(Indexed(v, indices).value)
  {
    if indices != [] {
      IndexedIsStorable(v.items[Decimal(indices[0])], indices[1..]);
    }
  }

  lemma AfterFromObject(s: Step, v: Json)
    requires IsStep(s) && AreIndices(s.indices) && Storable(v) && v.Obj?
    ensures After(s, v) == Some(OrNull(Part(s, v)))
    ensures Part(s, v).Some? ==> Storable(Part(s, v).value)
  {
    if Part(s, v).Some? {
      IndexedIsStorable(v.fields[s.name], s.indices);
    }
    if s.indices != [] {
      ExtractStep(s, v);
      ExtractIndexed(s.name, s.indices, v);
    }
  }

  lemma PartOfMore(steps: seq<Step>, n: nat, v: Json)
    requires AreDecimal(steps) && 0 < n <= |steps|
    ensures var part := Part(steps[0], v);
            PartAt(steps[..n], v) == if part.None? then None else PartAt(steps[1..][..n - 1], part.value)
  {
    assert steps[..n][1..] == steps[1..][..n - 1];
  }

  /** Where a walk ends, in terms of its first step. */
  lemma EndsWithFirst(steps: seq<Step>, v: Json, x: Json)
    requires AreDecimal(steps) && steps != []
    ensures var part := Part(steps[0], v);
            (exists n: nat :: EndsAt(steps, n, v, x)) <==>
              part.Some? &&
              if part.value.Obj? && |steps| > 1 then exists n: nat :: EndsAt(steps[1..], n, part.value, x)
              else part.value == x && !x.Null? && (|steps| == 1 || Ends(x))
  {
    var part := Part(steps[0], v);
    if n: nat :| EndsAt(steps, n, v, x) {
      PartOfMore(steps, n, v);
      if n > 1 && part.Some? && part.value.Obj? {
        assert EndsAt(steps[1..], n - 1, part.value, x);
      }
    }
    if part.Some? {
      PartOfMore(steps, 1, v);
      if part.value == x && !x.Null? && (|steps| == 1 || Ends(x)) {
        assert EndsAt(steps, 1, v, x);
      }
      if n: nat :| |steps| > 1 && EndsAt(steps[1..], n, part.value, x) {
        PartOfMore(steps, n + 1, v);
        assert EndsAt(steps, n + 1, v, x);
      }
    }
  }

  lemma {:induction false} AlongFinds(steps: seq<Step>, v: Json, x: Json)
    requires steps != [] && AreSteps(steps) && AreDecimal(steps) && Storable(v) && v.Obj?
    ensures Along(steps, v) != Panic && (Along(steps, v) == Reached(x) <==> exists n: nat :: EndsAt(steps, n, v, x))
  {
    assert IsStep(steps[0]);
    AfterFromObject(steps[0], v);
    EndsWithFirst(steps, v, x);
    var part := Part(steps[0], v);
    if part.Some? && part.value.Obj? && |steps| > 1 {
      AlongFinds(steps[1..], part.value, x);
    }
  }

  /**
   From an object, the walk along a path with decimal indices never panics, and it
   finds exactly the value that its steps lead to, or the number, the boolean or the
   array that the first of them lead to.
   */
  lemma WalkFindsExactly(steps: seq<Step>, v: Json, x: Json)
    requires steps != [] && AreSteps(steps) && AreDecimal(steps) && Storable(v) && v.Obj?
    ensures var walked := WalkKeys(KeysOf(PathOf(steps)), v);
            walked != Panic && (walked == Reached(x) <==> exists n: nat :: EndsAt(steps, n, v, x))
  {
    WalkIsStepwise(steps, v);
    AlongFinds(steps, v, x);
  }

  /** From anything else a plain name leads nowhere, indices without a name to an element, and others panic. */
  lemma WalkFromOther(steps: seq<Step>, v: Json)
    requires steps != [] && AreSteps(steps) && AreDecimal(steps) && Storable(v) && !v.Obj?
    ensures var s, walked := steps[0], WalkKeys(KeysOf(PathOf(steps)), v);
            (walked == Panic <==>
               s.indices != [] && s.name != "" && !v.Null? && Decimal(s.indices[0]) <= MAX_INT) &&
            (s.indices == [] ==> walked == if v.Null? || (v.Str? && |steps| > 1) then NotFound else Reached(v)) &&
            (s.indices != [] && s.name != "" && walked != Panic ==> walked == NotFound) &&
            (s.indices != [] && s.name == "" ==>
               var item := Indexed(v, s.indices);
               walked ==
                 if item.None? || item.value.Null? || (item.value.Str? && |steps| > 1) then NotFound
                 else if item.value.Obj? && |steps| > 1 then WalkKeys(KeysOf(PathOf(steps[1..])), item.value)
                 else Reached(item.value))
  {
    WalkIsStepwise(steps, v);
    var s := steps[0];
    assert IsStep(s);
    if s.indices != [] {
      ExtractStep(s, v);
      ExtractIndexed(s.name, s.indices, v);
      var item := Indexed(v, s.indices);
      if s.name == "" && item.Some? && item.value.Obj? && |steps| > 1 {
        WalkIsStepwise(steps[1..], item.value);
        IndexedIsStorable(v, s.indices);
        AlongFinds(steps[1..], item.value, Null);
      }
    }
  }
}
