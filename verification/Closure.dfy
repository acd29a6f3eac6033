/** The schema closure of tools/gen_management.py: every schema reachable through `$ref`
    from the operations' request and response schemas, found by a worklist whose pops
    come in no particular order, and returned sorted. */
module Closure {
  import opened Outcomes
  import opened Text

  /** A schema document. */
  datatype Node = Dict(entries: seq<(string, Node)>) | List(items: seq<Node>) | Str(text: string) | Scalar

  type Schemas = map<string, Node>

  datatype Operation = Operation(requestSchema: Option<string>, responseSchema: Option<string>)

  function LastSegment(path: string): string {
    var parts := Split(path, '/');
    parts[|parts| - 1]
  }

  function Lookup(entries: seq<(string, Node)>, key: string): Option<Node> {
    if entries == [] then None else if entries[0].0 == key then Some(entries[0].1) else Lookup(entries[1..], key)
  }

  /** The name a node's own `$ref` gives, if it has one. */
  function OwnRef(node: Node): set<string> {
    if !node.Dict? then {}
    else
      match Lookup(node.entries, "$ref")
      case Some(Str(path)) => {LastSegment(path)}
      case _ => {}
  }

  function Width(node: Node): nat {
    match node
    case Dict(entries) => |entries|
    case List(items) => |items|
    case _ => 0
  }

  function Child(node: Node, i: nat): (child: Node)
    requires i < Width(node)
    ensures child < node
  {
    if node.Dict? then node.entries[i].1 else node.items[i]
  }

  /** A path of at least one segment, and the name after its last slash. */
  ghost predicate EndsIn(path: string, name: string) {
    '/' !in name && (path == name || exists p :: path == p + "/" + name)
  }

  lemma {:induction false} JoinEndsInLast(parts: seq<string>, sep: char) returns (before: Option<string>)
    requires parts != []
    ensures var last := parts[|parts| - 1];
            Join(parts, sep) == if before.None? then last else before.value + [sep] + last
  {
    if |parts| == 1 {
      before := None;
    } else {
      var rest := JoinEndsInLast(parts[1..], sep);
      before := Some(if rest.None? then parts[0] else parts[0] + [sep] + rest.value);
    }
  }

  lemma {:induction false} JoinAppend(parts: seq<string>, last: string, sep: char)
    requires parts != []
    ensures Join(parts + [last], sep) == Join(parts, sep) + [sep] + last
  {
    assert (parts + [last])[1..] == parts[1..] + [last];
    if |parts| > 1 {
      JoinAppend(parts[1..], last, sep);
    } else {
      assert parts[1..] == [];
    }
  }

  lemma LastSegmentIff(path: string, name: string)
    ensures LastSegment(path) == name <==> EndsIn(path, name)
  {
    if LastSegment(path) == name {
      var before := JoinEndsInLast(Split(path, '/'), '/');
      if before.Some? {
        assert path == before.value + "/" + name;
      }
    }
    if EndsIn(path, name) {
      if path == name {
        SplitJoin([name], '/');
      } else {
        var p :| path == p + "/" + name;
        JoinAppend(Split(p, '/'), name, '/');
        SplitJoin(Split(p, '/') + [name], '/');
      }
    }
  }

  lemma {:induction false} LookupIff(entries: seq<(string, Node)>, key: string, value: Node)
    ensures Lookup(entries, key) == Some(value)
       <==> exists i :: 0 <= i < |entries| && entries[i] == (key, value)
                     && forall j :: 0 <= j < i ==> entries[j].0 != key
  {
    if entries != [] {
      var rest := entries[1..];
      LookupIff(rest, key, value);
      if entries[0].0 == key {
        assert Lookup(entries, key) == Some(value) <==> entries[0] == (key, value);
      } else {
        if i :| 0 <= i < |rest| && rest[i] == (key, value) && forall j :: 0 <= j < i ==> rest[j].0 != key {
          assert entries[i + 1] == (key, value) && forall j :: 0 < j < i + 1 ==> entries[j] == rest[j - 1];
        }
        if i :| 0 <= i < |entries| && entries[i] == (key, value) && forall j :: 0 <= j < i ==> entries[j].0 != key {
          assert rest[i - 1] == (key, value) && forall j :: 0 <= j < i - 1 ==> rest[j] == entries[j + 1];
        }
      }
    }
  }

  /** A node gives a name exactly when it is an object whose `$ref` is a path that ends
      in that name. */
  lemma OwnRefIff(node: Node, name: string)
    ensures name in OwnRef(node)
       <==> node.Dict? && exists path :: Lookup(node.entries, "$ref") == Some(Str(path)) && EndsIn(path, name)
  {
    if node.Dict? && Lookup(node.entries, "$ref").Some? && Lookup(node.entries, "$ref").value.Str? {
      LastSegmentIff(Lookup(node.entries, "$ref").value.text, name);
    }
  }

  /** The children of an object are its values, and of a list its items. */
  lemma ChildrenAre(node: Node, child: Node)
    ensures (exists i :: 0 <= i < Width(node) && Child(node, i) == child)
       <==> (node.Dict? && exists key :: (key, child) in node.entries) || (node.List? && child in node.items)
  {
    if node.Dict? {
      if key :| (key, child) in node.entries {
        var i :| 0 <= i < |node.entries| && node.entries[i] == (key, child);
        assert Child(node, i) == child;
      }
      if i :| 0 <= i < Width(node) && Child(node, i) == child {
        assert node.entries[i] == (node.entries[i].0, child) && node.entries[i] in node.entries;
      }
    } else if node.List? && child in node.items {
      var i :| 0 <= i < |node.items| && node.items[i] == child;
      assert Child(node, i) == child;
    }
  }

  /** The names `refs_in` collects from a node and everything below it. */
  function Refs(node: Node): set<string>
    decreases node, Width(node) + 1
  {
    OwnRef(node) + RefsOfFirst(node, Width(node))
  }

  /** Those below its first `k` children. */
  function RefsOfFirst(node: Node, k: nat): set<string>
    requires k <= Width(node)
    decreases node, k
  {
    if k == 0 then {} else RefsOfFirst(node, k - 1) + Refs(Child(node, k - 1))
  }

  /** `d` is `node` or a node somewhere below it. */
  ghost predicate Within(d: Node, node: Node)
    decreases node
  {
    d == node || exists i :: 0 <= i < Width(node) && Within(d, Child(node, i))
  }

  /** Some object in the document carries `$ref` to this name. */
  ghost predicate Mentions(node: Node, name: string) {
    exists d :: Within(d, node) && name in OwnRef(d)
  }

  lemma {:induction false} RefsAreMentions(node: Node, name: string)
    ensures name in Refs(node) <==> Mentions(node, name)
    decreases node, Width(node) + 1
  {
    RefsOfFirstAreMentions(node, Width(node), name);
    assert Within(node, node);
    if i :| 0 <= i < Width(node) && Mentions(Child(node, i), name) {
      var d :| Within(d, Child(node, i)) && name in OwnRef(d);
      assert Within(d, node);
    }
  }

  lemma {:induction false} RefsOfFirstAreMentions(node: Node, k: nat, name: string)
    requires k <= Width(node)
    ensures name in RefsOfFirst(node, k) <==> exists i :: 0 <= i < k && Mentions(Child(node, i), name)
    decreases node, k
  {
    hide Mentions, Within, OwnRef, Refs;
    if k > 0 {
      RefsOfFirstAreMentions(node, k - 1, name);
      RefsAreMentions(Child(node, k - 1), name);
    }
  }

  /** `refs_in`: add the names to the set passed down. */
  method RefsInto(node: Node, out: set<string>) returns (found: set<string>)
    ensures found == out + Refs(node)
    decreases node
  {
    found := out + OwnRef(node);
    for i := 0 to Width(node)
      invariant found == out + OwnRef(node) + RefsOfFirst(node, i)
    {
      found := RefsInto(Child(node, i), found);
    }
  }

  // --- Reachability ---

  predicate IsBracket(c: char) {
    c == '[' || c == ']'
  }

  /** A schema named by an operation, without the brackets of a list. */
  function SeedOf(name: Option<string>): set<string> {
    if name.None? || name.value == "" then {} else {StripLeft(name.value, IsBracket)}
  }

  function Seeds(ops: seq<Operation>): set<string> {
    if ops == [] then {} else SeedOf(ops[0].requestSchema) + SeedOf(ops[0].responseSchema) + Seeds(ops[1..])
  }

  /** The name without any leading brackets. */
  ghost predicate Unbracketed(name: string, bare: string) {
    && (bare == "" || (bare[0] != '[' && bare[0] != ']'))
    && exists lead :: name == lead + bare && forall k :: 0 <= k < |lead| ==> lead[k] == '[' || lead[k] == ']'
  }

  lemma SeedOfIff(name: Option<string>, seed: string)
    ensures seed in SeedOf(name) <==> name.Some? && name.value != "" && Unbracketed(name.value, seed)
  {
    if name.Some? {
      var lead := LeftPart(name.value, IsBracket);
      if Unbracketed(name.value, seed) {
        var front :| name.value == front + seed && forall k :: 0 <= k < |front| ==> front[k] == '[' || front[k] == ']';
        StripLeftPadded(front, seed, IsBracket);
      }
    }
  }

  /** The seeds are the request and response schemas the operations name. */
  lemma {:induction false} SeedsIff(ops: seq<Operation>, seed: string)
    ensures seed in Seeds(ops)
       <==> exists i :: 0 <= i < |ops|
                     && (seed in SeedOf(ops[i].requestSchema) || seed in SeedOf(ops[i].responseSchema))
  {
    if ops != [] {
      SeedsIff(ops[1..], seed);
      assert forall i :: 0 <= i < |ops| - 1 ==> ops[1..][i] == ops[i + 1];
      assert forall i :: 0 < i < |ops| ==> ops[i] == ops[1..][i - 1];
    }
  }

  /** Each name on the path is a schema, the first a seed, each mentioned by the one before. */
  ghost predicate IsPath(schemas: Schemas, seeds: set<string>, path: seq<string>) {
    && path != [] && path[0] in seeds && (forall i :: 0 <= i < |path| ==> path[i] in schemas)
    && forall i :: 0 < i < |path| ==> Mentions(schemas[path[i - 1]], path[i])
  }

  ghost predicate Reachable(schemas: Schemas, seeds: set<string>, name: string) {
    exists path :: IsPath(schemas, seeds, path) && path[|path| - 1] == name
  }

  lemma ReachableStep(schemas: Schemas, seeds: set<string>, from: string, name: string)
    requires Reachable(schemas, seeds, from) && name in schemas && Mentions(schemas[from], name)
    ensures Reachable(schemas, seeds, name)
  {
    var path :| IsPath(schemas, seeds, path) && path[|path| - 1] == from;
    assert IsPath(schemas, seeds, path + [name]);
    assert (path + [name])[|path|] == name;
  }

  /** A set of schemas holding the seeds and closed under mention holds all that is reachable. */
  lemma {:induction false} ClosedHoldsPath(schemas: Schemas, seeds: set<string>, seen: set<string>, path: seq<string>)
    requires forall n :: n in seeds && n in schemas ==> n in seen
    requires forall m, n :: m in seen && m in schemas && n in schemas && Mentions(schemas[m], n) ==> n in seen
    requires IsPath(schemas, seeds, path)
    ensures path[|path| - 1] in seen
  {
    var n := |path| - 1;
    if n > 0 {
      assert IsPath(schemas, seeds, path[..n]);
      ClosedHoldsPath(schemas, seeds, seen, path[..n]);
      assert Mentions(schemas[path[n - 1]], path[n]);
    }
  }

  // --- Sorting by code point ---

  predicate Less(a: string, b: string) {
    if b == "" then false
    else if a == "" then true
    else if a[0] != b[0] then a[0] < b[0]
    else Less(a[1..], b[1..])
  }

  /** At the first difference, the smaller character or the end of the string. */
  lemma {:induction false} LessIff(a: string, b: string)
    ensures Less(a, b)
       <==> exists n :: 0 <= n <= |a| && n < |b| && a[..n] == b[..n] && (n == |a| || a[n] < b[n])
  {
    if b != "" {
      if a == "" {
        assert a[..0] == b[..0];
      } else if a[0] != b[0] {
        if a[0] < b[0] {
          assert a[..0] == b[..0];
        }
        forall n | 0 < n <= |a| && n < |b|
          ensures a[..n] != b[..n]
        {
          assert a[..n][0] == a[0] && b[..n][0] == b[0];
        }
      } else {
        var (x, y) := (a[1..], b[1..]);
        LessIff(x, y);
        if n :| 0 <= n <= |x| && n < |y| && x[..n] == y[..n] && (n == |x| || x[n] < y[n]) {
          assert a[..n + 1] == [a[0]] + x[..n] && b[..n + 1] == [b[0]] + y[..n];
        }
        if n :| 0 <= n <= |a| && n < |b| && a[..n] == b[..n] && (n == |a| || a[n] < b[n]) {
          assert a[1..][..n - 1] == a[..n][1..] && b[1..][..n - 1] == b[..n][1..];
        }
      }
    }
  }

  lemma {:induction false} LessIsTotal(a: string, b: string)
    ensures a == b <==> !Less(a, b) && !Less(b, a)
    ensures !(Less(a, b) && Less(b, a))
  {
    if a != "" && b != "" {
      LessIsTotal(a[1..], b[1..]);
      assert a == [a[0]] + a[1..] && b == [b[0]] + b[1..];
    }
  }

  lemma {:induction false} LessIsTransitive(a: string, b: string, c: string)
    requires Less(a, b) && Less(b, c)
    ensures Less(a, c)
  {
    if a != "" && a[0] == b[0] && b[0] == c[0] {
      LessIsTransitive(a[1..], b[1..], c[1..]);
    }
  }

  ghost predicate Ascending(s: seq<string>) {
    forall i, j :: 0 <= i < j < |s| ==> Less(s[i], s[j])
  }

  function InsertSorted(s: seq<string>, x: string): seq<string> {
    if s == [] || Less(x, s[0]) then [x] + s else [s[0]] + InsertSorted(s[1..], x)
  }

  lemma {:induction false} InsertKeepsAscending(s: seq<string>, x: string)
    requires Ascending(s) && x !in s
    ensures Ascending(InsertSorted(s, x)) && forall n :: n in InsertSorted(s, x) <==> n in s || n == x
  {
    if s != [] {
      LessIsTotal(x, s[0]);
      if Less(x, s[0]) {
        forall j | 0 < j < |s|
          ensures Less(x, s[j])
        {
          LessIsTransitive(x, s[0], s[j]);
        }
      } else {
        InsertKeepsAscending(s[1..], x);
        var r := InsertSorted(s[1..], x);
        forall j | 0 <= j < |r|
          ensures Less(s[0], r[j])
        {
          assert r[j] in r;
        }
        assert s == [s[0]] + s[1..];
      }
    }
  }

  /** There is only one ascending list of a set of names. */
  lemma {:induction false} AscendingIsUnique(a: seq<string>, b: seq<string>)
    requires Ascending(a) && Ascending(b) && forall n :: n in a <==> n in b
    ensures a == b
  {
    NonemptyTogether(a, b);
    if a != [] {
      assert a[0] in b && b[0] in a;
      HeadIsLeast(a);
      HeadIsLeast(b);
      LessIsTotal(a[0], b[0]);
      AscendingIsUnique(a[1..], b[1..]);
    }
  }

  lemma NonemptyTogether(a: seq<string>, b: seq<string>)
    requires forall n :: n in a <==> n in b
    ensures a == [] <==> b == []
  {
    if a != [] { assert a[0] in b; }
    if b != [] { assert b[0] in a; }
  }

  lemma HeadIsLeast(s: seq<string>)
    requires Ascending(s) && s != []
    ensures forall n :: n in s[1..] <==> n in s && Less(s[0], n)
    ensures forall n :: n in s ==> n == s[0] || Less(s[0], n)
  {
    LessIsTotal(s[0], s[0]);
    assert s == [s[0]] + s[1..];
    forall n | n in s[1..]
      ensures Less(s[0], n)
    {
      var k :| 0 <= k < |s[1..]| && s[1..][k] == n;
      assert s[k + 1] == n;
    }
  }

  method Sorted(names: set<string>) returns (r: seq<string>)
    ensures Ascending(r) && forall n :: n in r <==> n in names
  {
    r := [];
    var left := names;
    while left != {}
      invariant left <= names && Ascending(r) && forall n :: n in r <==> n in names - left
    {
      var x :| x in left;
      InsertKeepsAscending(r, x);
      r := InsertSorted(r, x);
      left := left - {x};
    }
  }

  // --- The worklist ---

  method SeedSet(ops: seq<Operation>) returns (seeds: set<string>)
    ensures seeds == Seeds(ops)
  {
    seeds := {};
    assert ops[0..] == ops;
    for i := 0 to |ops|
      invariant seeds + Seeds(ops[i..]) == Seeds(ops)
    {
      assert ops[i..][1..] == ops[i + 1..];
      seeds := seeds + SeedOf(ops[i].requestSchema) + SeedOf(ops[i].responseSchema);
    }
  }

  /** What is known of the worklist between pops. */
  ghost predicate Progress(schemas: Schemas, seeds: set<string>, seen: set<string>, frontier: set<string>) {
    && seen <= schemas.Keys
    && (forall n :: n in seen || (n in frontier && n in schemas) ==> Reachable(schemas, seeds, n))
    && (forall n :: n in seeds && n in schemas ==> n in seen || n in frontier)
    && forall m, n :: m in seen && n in schemas && Mentions(schemas[m], n) ==> n in seen || n in frontier
  }

  lemma ProgressStarts(schemas: Schemas, seeds: set<string>)
    ensures Progress(schemas, seeds, {}, seeds)
  {
    forall n | n in seeds && n in schemas
      ensures Reachable(schemas, seeds, n)
    {
      assert IsPath(schemas, seeds, [n]) && [n][0] == n;
    }
  }

  lemma ProgressGrows(schemas: Schemas, seeds: set<string>, seen: set<string>, frontier: set<string>, n: string)
    requires Progress(schemas, seeds, seen, frontier) && n in frontier && n in schemas
    ensures Progress(schemas, seeds, seen + {n}, frontier - {n} + (Refs(schemas[n]) - (seen + {n})))
  {
    forall b | b in schemas
      ensures b in Refs(schemas[n]) <==> Mentions(schemas[n], b)
      ensures b in Refs(schemas[n]) ==> Reachable(schemas, seeds, b)
    {
      RefsAreMentions(schemas[n], b);
      if b in Refs(schemas[n]) {
        ReachableStep(schemas, seeds, n, b);
      }
    }
  }

  /** Terminates on every schema graph, cyclic ones included: a pop either shrinks the
      frontier or adds one of finitely many schemas to `seen`. */
  method Closure(ops: seq<Operation>, schemas: Schemas) returns (r: seq<string>)
    ensures Ascending(r) && forall n :: n in r <==> Reachable(schemas, Seeds(ops), n)
  {
    var seeds := SeedSet(ops);
    var seen: set<string>, frontier := {}, seeds;
    ProgressStarts(schemas, seeds);
    while frontier != {}
      invariant Progress(schemas, seeds, seen, frontier)
      decreases schemas.Keys - seen, frontier
    {
      var n :| n in frontier;
      if n in seen || n !in schemas {
        frontier := frontier - {n};
      } else {
        ProgressGrows(schemas, seeds, seen, frontier, n);
        frontier := frontier - {n};
        seen := seen + {n};
        var found := RefsInto(schemas[n], {});
        assert {} + Refs(schemas[n]) == Refs(schemas[n]);
        frontier := frontier + (found - seen);
      }
    }
    forall n
      ensures n in seen <==> Reachable(schemas, seeds, n)
    {
      if Reachable(schemas, seeds, n) {
        var path :| IsPath(schemas, seeds, path) && path[|path| - 1] == n;
        ClosedHoldsPath(schemas, seeds, seen, path);
      }
    }
    r := Sorted(seen);
  }

  /** The order in which the worklist is popped does not show: any two results agree. */
  lemma ClosureIsDetermined(ops: seq<Operation>, schemas: Schemas, a: seq<string>, b: seq<string>)
    requires Ascending(a) && forall n :: n in a <==> Reachable(schemas, Seeds(ops), n)
    requires Ascending(b) && forall n :: n in b <==> Reachable(schemas, Seeds(ops), n)
    ensures a == b
  {
    AscendingIsUnique(a, b);
  }
}
