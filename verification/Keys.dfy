/** Keys made of a group and a name, and the check that no two monitored things share one. */
module Keys {
  import opened Prelude

  // ---------------------------------------------------------------------------
  // Sanitizing, on ASCII

  function Lower(c: char): char {
    if 'A' <= c <= 'Z' then (c as int + 32) as char else c
  }

  predicate IsSpace(c: char) {
    c == ' ' || ('\t' <= c <= '\r')
  }

  function ToLower(s: string): (t: string)
    ensures |t| == |s| && forall i :: 0 <= i < |s| ==> t[i] == Lower(s[i])
  {
    seq(|s|, i requires 0 <= i < |s| => Lower(s[i]))
  }

  function TrimLeft(s: string): string {
    if s != "" && IsSpace(s[0]) then TrimLeft(s[1..]) else s
  }

  function TrimRight(s: string): string {
    if s != "" && IsSpace(s[|s| - 1]) then TrimRight(s[..|s| - 1]) else s
  }

  function ReplaceAll(s: string, from: char, to: char): (t: string)
    ensures |t| == |s| && forall i :: 0 <= i < |s| ==> t[i] == if s[i] == from then to else s[i]
  {
    seq(|s|, i requires 0 <= i < |s| => if s[i] == from then to else s[i])
  }

  predicate IsReplaced(c: char) {
    c == '/' || c == '_' || c == '.' || c == ',' || c == ' ' || c == '#' || c == '+' || c == '&'
  }

  function Sanitize(s: string): string {
    var s := TrimRight(TrimLeft(ToLower(s)));
    var s := ReplaceAll(s, '/', '-');
    var s := ReplaceAll(s, '_', '-');
    var s := ReplaceAll(s, '.', '-');
    var s := ReplaceAll(s, ',', '-');
    var s := ReplaceAll(s, ' ', '-');
    var s := ReplaceAll(s, '#', '-');
    var s := ReplaceAll(s, '+', '-');
    ReplaceAll(s, '&', '-')
  }

  function ConvertGroupAndNameToKey(group: string, name: string): string {
    Sanitize(group) + "_" + Sanitize(name)
  }

  // ---------------------------------------------------------------------------
  // What a sanitized text looks like

  /** Lower case, without any of the replaced characters, and not starting or ending with white space. */
  predicate Clean(s: string) {
    (forall i :: 0 <= i < |s| ==> !IsReplaced(s[i]) && !('A' <= s[i] <= 'Z')) &&
    (s != "" ==> !IsSpace(s[0]) && !IsSpace(s[|s| - 1]))
  }

  ghost predicate AllSpace(s: string, lo: nat, hi: nat)
    requires hi <= |s|
  {
    forall i :: lo <= i < hi ==> IsSpace(s[i])
  }

  lemma {:induction false} TrimLeftKeepsEnd(s: string)
    ensures var t := TrimLeft(s);
            |t| <= |s| && t == s[|s| - |t|..] && (t != "" ==> !IsSpace(t[0])) && AllSpace(s, 0, |s| - |t|)
  {
    if s != "" && IsSpace(s[0]) {
      var p := s[1..];
      TrimLeftKeepsEnd(p);
      var n := |s| - |TrimLeft(p)|;
      assert p[n - 1..] == s[n..];
      assert AllSpace(p, 0, n - 1) && forall i :: 0 < i < n ==> s[i] == p[i - 1];
    }
  }

  lemma {:induction false} TrimRightKeepsStart(s: string)
    ensures var t := TrimRight(s);
            |t| <= |s| && t == s[..|t|] && (t != "" ==> !IsSpace(t[|t| - 1])) && AllSpace(s, |t|, |s|)
  {
    if s != "" && IsSpace(s[|s| - 1]) {
      TrimRightKeepsStart(s[..|s| - 1]);
    }
  }

  function Trimmed(s: string): string {
    TrimRight(TrimLeft(ToLower(s)))
  }

  lemma TrimmedIsLower(s: string)
    ensures var t := Trimmed(s);
            (forall i :: 0 <= i < |t| ==> !('A' <= t[i] <= 'Z')) && (t != "" ==> !IsSpace(t[0]) && !IsSpace(t[|t| - 1]))
  {
    TrimLeftKeepsEnd(ToLower(s));
    TrimRightKeepsStart(TrimLeft(ToLower(s)));
  }

  lemma SanitizeAt(s: string)
    ensures |Sanitize(s)| == |Trimmed(s)|
    ensures forall i :: 0 <= i < |Trimmed(s)| ==>
              Sanitize(s)[i] == if IsReplaced(Trimmed(s)[i]) then '-' else Trimmed(s)[i]
  {
  }

  lemma SanitizeIsClean(s: string)
    ensures Clean(Sanitize(s))
  {
    TrimmedIsLower(s);
    SanitizeAt(s);
  }

  predicate IsWhite(c: char) {
    c in [' ', '\t', '\n', '\U{0B}', '\U{0C}', '\r']
  }

  /** What becomes of a character between the white space at the ends. */
  function Replaced(c: char): char {
    if c in "/_., #+&" then '-' else if c in "ABCDEFGHIJKLMNOPQRSTUVWXYZ" then (c as int + 32) as char else c
  }

  lemma SpaceIsWhite(c: char)
    ensures IsSpace(c) <==> IsWhite(c)
    ensures IsSpace(Lower(c)) <==> IsSpace(c)
    ensures Replaced(c) == if IsReplaced(Lower(c)) then '-' else Lower(c)
  {
  }

  /** Trimming takes white space off both ends, and nothing else. */
  lemma TrimExactly(s: string) returns (i: nat, j: nat)
    ensures i <= j <= |s| && TrimRight(TrimLeft(s)) == s[i..j]
    ensures forall k :: 0 <= k < i || j <= k < |s| ==> IsSpace(s[k])
    ensures i < j ==> !IsSpace(s[i]) && !IsSpace(s[j - 1])
  {
    var left := TrimLeft(s);
    TrimLeftKeepsEnd(s);
    TrimRightKeepsStart(left);
    i, j := |s| - |left|, |s| - |left| + |TrimRight(left)|;
    assert left == s[i..];
    forall k | j <= k < |s|
      ensures IsSpace(s[k])
    {
      assert s[k] == left[k - i];
    }
  }

  lemma ReplacedAt(s: string, i: nat, j: nat, k: nat)
    requires i <= k < j <= |s| && Trimmed(s) == ToLower(s)[i..j]
    ensures |Sanitize(s)| == j - i && Sanitize(s)[k - i] == Replaced(s[k])
  {
    SanitizeAt(s);
    SpaceIsWhite(s[k]);
    assert Trimmed(s)[k - i] == ToLower(s)[k] == Lower(s[k]);
  }

  /**
   Sanitizing takes the white space off both ends, and replaces each character between
   by its own counterpart.
   */
  lemma SanitizeExactly(s: string) returns (i: nat, j: nat)
    ensures i <= j <= |s| && |Sanitize(s)| == j - i
    ensures forall k :: 0 <= k < i || j <= k < |s| ==> IsWhite(s[k])
    ensures i < j ==> !IsWhite(s[i]) && !IsWhite(s[j - 1])
    ensures forall k :: i <= k < j ==> Sanitize(s)[k - i] == Replaced(s[k])
  {
    i, j := TrimExactly(ToLower(s));
    forall k | 0 <= k < |s|
      ensures IsWhite(s[k]) <==> IsSpace(ToLower(s)[k])
    {
      SpaceIsWhite(s[k]);
    }
    SanitizeAt(s);
    forall k | i <= k < j
      ensures Sanitize(s)[k - i] == Replaced(s[k])
    {
      ReplacedAt(s, i, j, k);
    }
  }

  /** A clean text is sanitized to itself. */
  lemma CleanIsFixed(s: string)
    requires Clean(s)
    ensures Sanitize(s) == s
  {
    assert ToLower(s) == s;
    assert TrimRight(TrimLeft(s)) == s;
  }

  // ---------------------------------------------------------------------------
  // Keys can be taken apart

  /** The parts before and after the first underscore. */
  function Decode(key: string): (string, string) {
    var i := Find(key, '_');
    if i < |key| then (key[..i], key[i + 1..]) else (key, "")
  }

  lemma {:induction false} FindInConcat(a: string, b: string, c: char)
    requires c !in a
    ensures Find(a + [c] + b, c) == |a|
  {
    if a == "" {
    } else {
      assert a[0] in a;
      assert (a + [c] + b)[1..] == a[1..] + [c] + b;
      FindInConcat(a[1..], b, c);
    }
  }

  /** A key decodes to the sanitized pair it was made of, and its only underscore is the separator. */
  lemma KeyDecodes(group: string, name: string)
    ensures var key := ConvertGroupAndNameToKey(group, name);
            Decode(key) == (Sanitize(group), Sanitize(name)) &&
            forall i :: 0 <= i < |key| ==> (key[i] == '_' <==> i == |Sanitize(group)|)
  {
    var g, n := Sanitize(group), Sanitize(name);
    SanitizeIsClean(group);
    SanitizeIsClean(name);
    assert '_' !in g && '_' !in n;
    FindInConcat(g, n, '_');
    var key := ConvertGroupAndNameToKey(group, name);
    assert key == g + ['_'] + n;
    assert key[..|g|] == g && key[|g| + 1..] == n;
  }

  /** Two keys are equal exactly when groups and names agree up to sanitizing. */
  lemma KeyIsInjective(g1: string, n1: string, g2: string, n2: string)
    ensures ConvertGroupAndNameToKey(g1, n1) == ConvertGroupAndNameToKey(g2, n2) <==>
            Sanitize(g1) == Sanitize(g2) && Sanitize(n1) == Sanitize(n2)
  {
    KeyDecodes(g1, n1);
    KeyDecodes(g2, n2);
  }

  /** Making a key of a decoded key gives it back. */
  lemma DecodedKeyIsSameKey(group: string, name: string)
    ensures var key := ConvertGroupAndNameToKey(group, name);
            ConvertGroupAndNameToKey(Decode(key).0, Decode(key).1) == key
  {
    KeyDecodes(group, name);
    SanitizeIsClean(group);
    SanitizeIsClean(name);
    CleanIsFixed(Sanitize(group));
    CleanIsFixed(Sanitize(name));
  }

  // ---------------------------------------------------------------------------
  // Uniqueness over a whole configuration

  datatype Named = Named(group: string, name: string)

  /** A suite; its endpoints count with the suite's group. */
  datatype SuiteNames = SuiteNames(group: string, name: string, endpoints: seq<string>)

  datatype Config = Config(endpoints: seq<Named>, externalEndpoints: seq<Named>, suites: seq<SuiteNames>)

  datatype Kind = Endpoint | ExternalEndpoint | Suite | SuiteEndpoint

  datatype Duplicate = Duplicate(key: string, kind: Kind, existing: Kind)

  /** Where something with a key stands in a configuration. */
  datatype Position =
    | InEndpoints(i: nat)
    | InExternalEndpoints(i: nat)
    | OfSuite(s: nat)
    | InSuite(s: nat, i: nat)

  predicate IsIn(c: Config, p: Position) {
    match p
    case InEndpoints(i) => i < |c.endpoints|
    case InExternalEndpoints(i) => i < |c.externalEndpoints|
    case OfSuite(s) => s < |c.suites|
    case InSuite(s, i) => s < |c.suites| && i < |c.suites[s].endpoints|
  }

  function GroupAt(c: Config, p: Position): string
    requires IsIn(c, p)
  {
    match p
    case InEndpoints(i) => c.endpoints[i].group
    case InExternalEndpoints(i) => c.externalEndpoints[i].group
    case OfSuite(s) => c.suites[s].group
    case InSuite(s, _) => c.suites[s].group
  }

  function NameAt(c: Config, p: Position): string
    requires IsIn(c, p)
  {
    match p
    case InEndpoints(i) => c.endpoints[i].name
    case InExternalEndpoints(i) => c.externalEndpoints[i].name
    case OfSuite(s) => c.suites[s].name
    case InSuite(s, i) => c.suites[s].endpoints[i]
  }

  function KindAt(p: Position): Kind {
    match p
    case InEndpoints(_) => Endpoint
    case InExternalEndpoints(_) => ExternalEndpoint
    case OfSuite(_) => Suite
    case InSuite(_, _) => SuiteEndpoint
  }

  ghost function KeyAt(c: Config, p: Position): string
    requires IsIn(c, p)
  {
    ConvertGroupAndNameToKey(GroupAt(c, p), NameAt(c, p))
  }

  /** The list a position is in, the place there, and the place within a suite. */
  function Rank(p: Position): (nat, nat, nat) {
    match p
    case InEndpoints(i) => (0, i, 0)
    case InExternalEndpoints(i) => (1, i, 0)
    case OfSuite(s) => (2, s, 0)
    case InSuite(s, i) => (2, s, i + 1)
  }

  /** The order in which the keys are checked: each suite comes right before its endpoints. */
  predicate Before(p: Position, q: Position) {
    var a, b := Rank(p), Rank(q);
    a.0 < b.0 || (a.0 == b.0 && (a.1 < b.1 || (a.1 == b.1 && a.2 < b.2)))
  }

  /** A key and what it belongs to. */
  datatype Entry = Entry(key: string, kind: Kind)

  ghost function EntryAt(c: Config, p: Position): Entry
    requires IsIn(c, p)
  {
    Entry(KeyAt(c, p), KindAt(p))
  }

  /** The entries of the configuration before a front, which may be the end of a list. */
  ghost predicate Seen(c: Config, front: Position, seen: map<Position, Entry>) {
    (forall p :: p in seen <==> IsIn(c, p) && Before(p, front)) && forall p :: p in seen ==> seen[p] == EntryAt(c, p)
  }

  ghost predicate Distinct(seen: map<Position, Entry>) {
    forall p, q :: p in seen && q in seen && p != q ==> seen[p].key != seen[q].key
  }

  /** The map holds exactly the entries seen. */
  ghost predicate Holds(keyMap: map<string, Kind>, seen: map<Position, Entry>) {
    (forall p :: p in seen ==> seen[p].key in keyMap && keyMap[seen[p].key] == seen[p].kind) &&
    (forall key :: key in keyMap ==> Entry(key, keyMap[key]) in seen.Values)
  }

  /** The entries before the front have different keys, and the map holds exactly them. */
  ghost predicate HoldsUpTo(keyMap: map<string, Kind>, c: Config, front: Position) {
    exists seen :: Seen(c, front, seen) && Distinct(seen) && Holds(keyMap, seen)
  }

  /** The first position whose key was seen before, there as the key of something of the kind `existing`. */
  ghost predicate RepeatsAt(c: Config, p: Position, seen: map<Position, Entry>, d: Duplicate) {
    IsIn(c, p) && Seen(c, p, seen) && Distinct(seen) &&
    EntryAt(c, p) == Entry(d.key, d.kind) && Entry(d.key, d.existing) in seen.Values
  }

  /** What is reported is the first entry whose key occurred before. */
  ghost predicate Repeats(c: Config, d: Duplicate) {
    exists p, seen :: RepeatsAt(c, p, seen, d)
  }

  lemma OneMoreEntry(keyMap: map<string, Kind>, seen: map<Position, Entry>, p: Position, e: Entry)
    requires Distinct(seen) && Holds(keyMap, seen) && p !in seen && e.key !in keyMap
    ensures Distinct(seen[p := e]) && Holds(keyMap[e.key := e.kind], seen[p := e])
  {
    var more := seen[p := e];
    assert more[p] == e;
    forall key | key in keyMap
      ensures Entry(key, keyMap[key]) in more.Values
    {
      var q :| q in seen && seen[q] == Entry(key, keyMap[key]);
      assert more[q] == seen[q];
    }
  }

  /** Between `p` and `next` there is nothing else. */
  ghost predicate Follows(c: Config, p: Position, next: Position) {
    forall q :: IsIn(c, q) ==> (Before(q, next) <==> Before(q, p) || q == p)
  }

  lemma SeenAlso(c: Config, p: Position, next: Position, seen: map<Position, Entry>)
    requires Seen(c, p, seen) && Follows(c, p, next) && IsIn(c, p)
    ensures Seen(c, next, seen[p := EntryAt(c, p)])
  {
  }

  lemma NotSeen(c: Config, p: Position, seen: map<Position, Entry>)
    requires Seen(c, p, seen)
    ensures p !in seen
  {
  }

  lemma AdvanceSeen(
      keyMap: map<string, Kind>, c: Config, p: Position, next: Position, e: Entry, seen: map<Position, Entry>)
    requires Seen(c, p, seen) && Distinct(seen) && Holds(keyMap, seen)
    requires Follows(c, p, next) && IsIn(c, p) && e == EntryAt(c, p) && e.key !in keyMap
    ensures Seen(c, next, seen[p := e]) && Distinct(seen[p := e]) && Holds(keyMap[e.key := e.kind], seen[p := e])
  {
    NotSeen(c, p, seen);
    OneMoreEntry(keyMap, seen, p, e);
    SeenAlso(c, p, next, seen);
  }

  lemma Advance(keyMap: map<string, Kind>, c: Config, p: Position, next: Position, e: Entry)
    requires HoldsUpTo(keyMap, c, p) && Follows(c, p, next) && IsIn(c, p) && e == EntryAt(c, p) && e.key !in keyMap
    ensures HoldsUpTo(keyMap[e.key := e.kind], c, next)
  {
    var seen :| Seen(c, p, seen) && Distinct(seen) && Holds(keyMap, seen);
    AdvanceSeen(keyMap, c, p, next, e, seen);
  }

  lemma Skip(keyMap: map<string, Kind>, c: Config, front: Position, next: Position)
    requires HoldsUpTo(keyMap, c, front) && Follows(c, front, next) && !IsIn(c, front)
    ensures HoldsUpTo(keyMap, c, next)
  {
    var seen :| Seen(c, front, seen) && Distinct(seen) && Holds(keyMap, seen);
    assert Seen(c, next, seen);
  }

  lemma Refuse(keyMap: map<string, Kind>, c: Config, p: Position)
    requires HoldsUpTo(keyMap, c, p) && IsIn(c, p) && KeyAt(c, p) in keyMap
    ensures Repeats(c, Duplicate(KeyAt(c, p), KindAt(p), keyMap[KeyAt(c, p)]))
  {
    var seen :| Seen(c, p, seen) && Distinct(seen) && Holds(keyMap, seen);
    assert RepeatsAt(c, p, seen, Duplicate(KeyAt(c, p), KindAt(p), keyMap[KeyAt(c, p)]));
  }

  lemma EndpointsFollow(c: Config, i: nat)
    ensures Follows(c, InEndpoints(i), InEndpoints(i + 1))
    ensures i == |c.endpoints| ==> Follows(c, InEndpoints(i), InExternalEndpoints(0))
  {
  }

  lemma ExternalEndpointsFollow(c: Config, i: nat)
    ensures Follows(c, InExternalEndpoints(i), InExternalEndpoints(i + 1))
    ensures i == |c.externalEndpoints| ==> Follows(c, InExternalEndpoints(i), OfSuite(0))
  {
  }

  lemma SuiteFollows(c: Config, s: nat)
    ensures Follows(c, OfSuite(s), InSuite(s, 0))
  {
  }

  lemma InSuiteFollows(c: Config, s: nat, i: nat)
    ensures Follows(c, InSuite(s, i), InSuite(s, i + 1))
    ensures s < |c.suites| && i == |c.suites[s].endpoints| ==> Follows(c, InSuite(s, i), OfSuite(s + 1))
  {
  }

  lemma NothingSeen(c: Config)
    ensures HoldsUpTo(map[], c, InEndpoints(0))
  {
    assert Seen(c, InEndpoints(0), map[]);
  }

  /** Checks one key against those seen so far. */
  method Register(
      keyMap: map<string, Kind>, key: string, kind: Kind, ghost c: Config, ghost p: Position, ghost next: Position)
    returns (r: Option<Duplicate>, updated: map<string, Kind>)
    requires HoldsUpTo(keyMap, c, p) && IsIn(c, p) && Follows(c, p, next)
    requires key == KeyAt(c, p) && kind == KindAt(p)
    ensures r == None ==> HoldsUpTo(updated, c, next)
    ensures r.Some? ==> Repeats(c, r.value)
  {
    if key in keyMap {
      Refuse(keyMap, c, p);
      return Some(Duplicate(key, kind, keyMap[key])), keyMap;
    }
    Advance(keyMap, c, p, next, Entry(key, kind));
    r, updated := None, keyMap[key := kind];
  }

  /** The keys of the endpoints of a suite, with the group of the suite. */
  method RegisterSuiteEndpoints(keyMap: map<string, Kind>, c: Config, s: nat)
    returns (r: Option<Duplicate>, updated: map<string, Kind>)
    requires s < |c.suites| && HoldsUpTo(keyMap, c, InSuite(s, 0))
    ensures r == None ==> HoldsUpTo(updated, c, OfSuite(s + 1))
    ensures r.Some? ==> Repeats(c, r.value)
  {
    var suite := c.suites[s];
    updated := keyMap;
    for i := 0 to |suite.endpoints|
      invariant HoldsUpTo(updated, c, InSuite(s, i))
    {
      InSuiteFollows(c, s, i);
      var epKey := ConvertGroupAndNameToKey(suite.group, suite.endpoints[i]);
      r, updated := Register(updated, epKey, SuiteEndpoint, c, InSuite(s, i), InSuite(s, i + 1));
      if r.Some? {
        return;
      }
    }
    InSuiteFollows(c, s, |suite.endpoints|);
    Skip(updated, c, InSuite(s, |suite.endpoints|), OfSuite(s + 1));
    r := None;
  }

  /** The keys of one suite: its own, and those of its endpoints. */
  method RegisterSuite(keyMap: map<string, Kind>, c: Config, s: nat)
    returns (r: Option<Duplicate>, updated: map<string, Kind>)
    requires s < |c.suites| && HoldsUpTo(keyMap, c, OfSuite(s))
    ensures r == None ==> HoldsUpTo(updated, c, OfSuite(s + 1))
    ensures r.Some? ==> Repeats(c, r.value)
  {
    var suiteKey := ConvertGroupAndNameToKey(c.suites[s].group, c.suites[s].name);
    SuiteFollows(c, s);
    r, updated := Register(keyMap, suiteKey, Suite, c, OfSuite(s), InSuite(s, 0));
    if r == None {
      r, updated := RegisterSuiteEndpoints(updated, c, s);
    }
  }

  method RegisterEndpoints(c: Config) returns (r: Option<Duplicate>, keyMap: map<string, Kind>)
    ensures r == None ==> HoldsUpTo(keyMap, c, InExternalEndpoints(0))
    ensures r.Some? ==> Repeats(c, r.value)
  {
    keyMap := map[];
    NothingSeen(c);
    for i := 0 to |c.endpoints|
      invariant HoldsUpTo(keyMap, c, InEndpoints(i))
    {
      EndpointsFollow(c, i);
      var epKey := ConvertGroupAndNameToKey(c.endpoints[i].group, c.endpoints[i].name);
      r, keyMap := Register(keyMap, epKey, Endpoint, c, InEndpoints(i), InEndpoints(i + 1));
      if r.Some? {
        return;
      }
    }
    EndpointsFollow(c, |c.endpoints|);
    Skip(keyMap, c, InEndpoints(|c.endpoints|), InExternalEndpoints(0));
    r := None;
  }

  method RegisterExternalEndpoints(known: map<string, Kind>, c: Config)
    returns (r: Option<Duplicate>, keyMap: map<string, Kind>)
    requires HoldsUpTo(known, c, InExternalEndpoints(0))
    ensures r == None ==> HoldsUpTo(keyMap, c, OfSuite(0))
    ensures r.Some? ==> Repeats(c, r.value)
  {
    keyMap := known;
    for i := 0 to |c.externalEndpoints|
      invariant HoldsUpTo(keyMap, c, InExternalEndpoints(i))
    {
      ExternalEndpointsFollow(c, i);
      var ee := c.externalEndpoints[i];
      var eeKey := ConvertGroupAndNameToKey(ee.group, ee.name);
      r, keyMap := Register(keyMap, eeKey, ExternalEndpoint, c, InExternalEndpoints(i), InExternalEndpoints(i + 1));
      if r.Some? {
        return;
      }
    }
    ExternalEndpointsFollow(c, |c.externalEndpoints|);
    Skip(keyMap, c, InExternalEndpoints(|c.externalEndpoints|), OfSuite(0));
    r := None;
  }

  method RegisterSuites(known: map<string, Kind>, c: Config) returns (r: Option<Duplicate>)
    requires HoldsUpTo(known, c, OfSuite(0))
    ensures r == None ==> exists keyMap :: HoldsUpTo(keyMap, c, OfSuite(|c.suites|))
    ensures r.Some? ==> Repeats(c, r.value)
  {
    var keyMap := known;
    for s := 0 to |c.suites|
      invariant HoldsUpTo(keyMap, c, OfSuite(s))
    {
      r, keyMap := RegisterSuite(keyMap, c, s);
      if r.Some? {
        return;
      }
    }
    r := None;
  }

  /** The same group and the same name, up to sanitizing. */
  ghost predicate Clash(group: string, name: string, otherGroup: string, otherName: string) {
    Sanitize(group) == Sanitize(otherGroup) && Sanitize(name) == Sanitize(otherName)
  }

  ghost predicate SamePair(c: Config, p: Position, q: Position)
    requires IsIn(c, p) && IsIn(c, q)
  {
    Clash(GroupAt(c, p), NameAt(c, p), GroupAt(c, q), NameAt(c, q))
  }

  ghost predicate PairsDiffer(c: Config) {
    forall p, q :: IsIn(c, p) && IsIn(c, q) && p != q ==> !SamePair(c, p, q)
  }

  lemma SameKeyIsSamePair(c: Config, p: Position, q: Position)
    requires IsIn(c, p) && IsIn(c, q)
    ensures KeyAt(c, p) == KeyAt(c, q) <==> SamePair(c, p, q)
  {
    KeyIsInjective(GroupAt(c, p), NameAt(c, p), GroupAt(c, q), NameAt(c, q));
  }

  /** That name in that group is nowhere among the endpoints, external endpoints and suites. */
  ghost predicate IsFree(c: Config, group: string, name: string) {
    (forall i :: 0 <= i < |c.endpoints| ==> !Clash(c.endpoints[i].group, c.endpoints[i].name, group, name)) &&
    (forall i :: 0 <= i < |c.externalEndpoints| ==>
       !Clash(c.externalEndpoints[i].group, c.externalEndpoints[i].name, group, name)) &&
    (forall s :: 0 <= s < |c.suites| ==> !Clash(c.suites[s].group, c.suites[s].name, group, name))
  }

  /**
   For the endpoints of suites that means: with the group of its suite, the name of
   each is free, and it is not that of another endpoint of a suite.
   */
  lemma SuiteEndpointsAreFree(c: Config, s: nat, i: nat)
    requires PairsDiffer(c) && s < |c.suites| && i < |c.suites[s].endpoints|
    ensures IsFree(c, c.suites[s].group, c.suites[s].endpoints[i])
    ensures forall t, j :: 0 <= t < |c.suites| && 0 <= j < |c.suites[t].endpoints| && !(s == t && i == j) ==>
              !Clash(c.suites[s].group, c.suites[s].endpoints[i], c.suites[t].group, c.suites[t].endpoints[j])
  {
    var p := InSuite(s, i);
    forall k | 0 <= k < |c.endpoints|
      ensures !Clash(c.endpoints[k].group, c.endpoints[k].name, c.suites[s].group, c.suites[s].endpoints[i])
    {
      assert !SamePair(c, InEndpoints(k), p);
    }
    forall k | 0 <= k < |c.externalEndpoints|
      ensures !Clash(c.externalEndpoints[k].group, c.externalEndpoints[k].name, c.suites[s].group,
              c.suites[s].endpoints[i])
    {
      assert !SamePair(c, InExternalEndpoints(k), p);
    }
    forall k | 0 <= k < |c.suites|
      ensures !Clash(c.suites[k].group, c.suites[k].name, c.suites[s].group, c.suites[s].endpoints[i])
    {
      assert !SamePair(c, OfSuite(k), p);
    }
    forall t, j | 0 <= t < |c.suites| && 0 <= j < |c.suites[t].endpoints| && !(s == t && i == j)
      ensures !Clash(c.suites[s].group, c.suites[s].endpoints[i], c.suites[t].group, c.suites[t].endpoints[j])
    {
      assert !SamePair(c, p, InSuite(t, j));
    }
  }

  lemma DistinctKeys(c: Config, keyMap: map<string, Kind>)
    requires HoldsUpTo(keyMap, c, OfSuite(|c.suites|))
    ensures PairsDiffer(c)
  {
    var seen :| Seen(c, OfSuite(|c.suites|), seen) && Distinct(seen) && Holds(keyMap, seen);
    forall p, q | IsIn(c, p) && IsIn(c, q) && p != q
      ensures !SamePair(c, p, q)
    {
      assert p in seen && q in seen;
      SameKeyIsSamePair(c, p, q);
    }
  }

  lemma RepeatedKey(c: Config, d: Duplicate)
    requires Repeats(c, d)
    ensures !PairsDiffer(c)
  {
    var p, seen :| RepeatsAt(c, p, seen, d);
    var q :| q in seen && seen[q] == Entry(d.key, d.existing);
    SameKeyIsSamePair(c, p, q);
  }

  /**
   Accepts a configuration exactly when no two of its endpoints, external endpoints,
   suites, and endpoints of suites (with the group of their suite) agree in group and
   name up to sanitizing; otherwise it reports the first key that occurred before, and
   what it occurred as.
   */
  method ValidateUniqueKeys(c: Config) returns (r: Option<Duplicate>)
    ensures r == None <==> PairsDiffer(c)
    ensures r.Some? ==> Repeats(c, r.value)
  {
    var keyMap;
    r, keyMap := RegisterEndpoints(c);
    if r == None {
      r, keyMap := RegisterExternalEndpoints(keyMap, c);
    }
    if r == None {
      r := RegisterSuites(keyMap, c);
    }
    if r == None {
      ghost var known :| HoldsUpTo(known, c, OfSuite(|c.suites|));
      DistinctKeys(c, known);
    } else {
      RepeatedKey(c, r.value);
    }
  }
}
