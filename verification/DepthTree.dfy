// The depth-annotated dependency listing and the graph rebuilt from it: a stack machine that is
// the inverse of printing a tree in preorder.

module TreeLines {
  import opened Prelude
  import opened Text

  /** One line of the listing: `<depth><name> v<version>` and an optional annotation. */
  datatype Line = Line(depth: nat, name: string, version: string)

  predicate IsLetter(c: char) {
    'A' <= c <= 'Z' || 'a' <= c <= 'z'
  }

  predicate IsNameChar(c: char) {
    IsLetter(c) || IsDigit(c) || c == '_' || c == '-'
  }

  predicate IsVersionChar(c: char) {
    IsLetter(c) || IsDigit(c) || c == '.' || c == '+' || c == '-'
  }

  predicate All(p: char -> bool, s: string) {
    forall k | 0 <= k < |s| :: p(s[k])
  }

  /** The longest prefix whose characters satisfy `p`, and the rest. */
  function Span(p: char -> bool, s: string): (string, string) {
    if s == "" || !p(s[0]) then ("", s)
    else
      var (head, rest) := Span(p, s[1..]);
      ([s[0]] + head, rest)
  }

  lemma {:induction false} SpanParts(p: char -> bool, s: string)
    ensures var (head, rest) := Span(p, s);
            head + rest == s && All(p, head) && (rest != "" ==> !p(rest[0]))
  {
    if s != "" && p(s[0]) {
      var (head, rest) := Span(p, s[1..]);
      SpanParts(p, s[1..]);
      OneMoreInSpan(p, s, head, rest);
    }
  }

  lemma OneMoreInSpan(p: char -> bool, s: string, head: string, rest: string)
    requires s != "" && p(s[0]) && s[1..] == head + rest && All(p, head)
    ensures [s[0]] + head + rest == s && All(p, [s[0]] + head)
  {
    assert s == [s[0]] + s[1..];
    forall k | 0 <= k < |[s[0]] + head| ensures p(([s[0]] + head)[k]) {
      if k > 0 {
        assert ([s[0]] + head)[k] == head[k - 1];
      }
    }
  }

  lemma {:induction false} SpanAt(p: char -> bool, head: string, rest: string)
    requires All(p, head) && (rest != "" ==> !p(rest[0]))
    ensures Span(p, head + rest) == (head, rest)
  {
    if head == "" {
      assert head + rest == rest;
    } else {
      var s := head + rest;
      assert s[0] == head[0] && p(head[0]);
      assert s[1..] == head[1..] + rest;
      SpanAt(p, head[1..], rest);
      assert [s[0]] + head[1..] == head;
    }
  }

  /** The depth digits and the name of a run of name characters: as many digits as leave a name. */
  function SplitDepth(run: string): (string, string) {
    var (digits, name) := Span(IsDigit, run);
    if name == "" && digits != "" then (digits[..|digits| - 1], digits[|digits| - 1..]) else (digits, name)
  }

  predicate IsVersion(version: string) {
    version != "" && IsDigit(version[0]) && All(IsVersionChar, version)
  }

  predicate IsAnnotation(rest: string) {
    rest == "" || (rest[0] == ' ' && '\n' !in rest)
  }

  /** The full match of `([0-9]+)([A-Za-z0-9_-]+) v([0-9][0-9A-Za-z.+-]*)(?: .*)?`. */
  function ParseLine(line: string): Option<Line> {
    var (run, rest) := Span(IsNameChar, line);
    var (digits, name) := SplitDepth(run);
    if digits == "" || name == "" || !AllDigits(digits) || |rest| < 2 || rest[..2] != " v" then None
    else
      var (version, annotation) := Span(IsVersionChar, rest[2..]);
      if !IsVersion(version) || !IsAnnotation(annotation) then None
      else Some(Line(DecimalValue(digits), name, version))
  }

  function PrintLine(depth: nat, name: string, version: string, annotation: string): string {
    Decimal(depth) + name + (" v" + (version + annotation))
  }

  lemma SplitDepthAt(digits: string, name: string)
    requires digits != "" && AllDigits(digits) && name != ""
    requires !IsDigit(name[0]) || |name| == 1
    ensures SplitDepth(digits + name) == (digits, name)
  {
    RunSpan(digits, name);
    SpanParts(IsDigit, name);
    if !IsDigit(name[0]) {
      assert digits + "" == digits;
    } else {
      assert [name[0]] + "" == name && name[1..] == "";
      assert Span(IsDigit, name[1..]) == ("", "");
      assert Span(IsDigit, name) == (name, "");
      assert (digits + name)[..|digits + name| - 1] == digits && (digits + name)[|digits + name| - 1..] == name;
    }
  }

  /** The digits of a name follow those of the depth without a break. */
  lemma RunSpan(digits: string, name: string)
    requires AllDigits(digits)
    ensures Span(IsDigit, digits + name) == (digits + Span(IsDigit, name).0, Span(IsDigit, name).1)
  {
    var (more, rest) := Span(IsDigit, name);
    SpanParts(IsDigit, name);
    assert All(IsDigit, digits + more);
    SpanAt(IsDigit, digits + more, rest);
    assert digits + name == (digits + more) + rest;
  }

  /**
   * One way of reading a line: depth digits, a name, and a version after ` v`, then nothing or
   * a space and anything up to the end of the line.
   */
  ghost predicate Matches(line: string, digits: string, name: string, version: string, annotation: string) {
    && digits != "" && AllDigits(digits)
    && name != "" && (forall c | c in name :: 'A' <= c <= 'Z' || 'a' <= c <= 'z' || '0' <= c <= '9' || c == '_' || c == '-')
    && version != "" && '0' <= version[0] <= '9'
    && (forall c | c in version :: 'A' <= c <= 'Z' || 'a' <= c <= 'z' || '0' <= c <= '9' || c == '.' || c == '+' || c == '-')
    && (annotation == "" || (annotation[0] == ' ' && '\n' !in annotation))
    && line == digits + name + (" v" + (version + annotation))
  }

  lemma MatchesExactly(line: string, digits: string, name: string, version: string, annotation: string)
    ensures Matches(line, digits, name, version, annotation) <==>
            && digits != "" && AllDigits(digits)
            && name != "" && All(IsNameChar, name)
            && IsVersion(version) && IsAnnotation(annotation)
            && line == digits + name + (" v" + (version + annotation))
  {
    assert All(IsNameChar, name) <==> forall c | c in name :: IsNameChar(c);
    assert All(IsVersionChar, version) <==> forall c | c in version :: IsVersionChar(c);
  }

  /** The digits read as far as they can: the name keeps a leading digit only if it has no more. */
  ghost predicate MatchesGreedily(line: string, digits: string, name: string, version: string, annotation: string) {
    Matches(line, digits, name, version, annotation) && (!IsDigit(name[0]) || |name| == 1)
  }

  lemma GreedyLineReads(line: string, digits: string, name: string, version: string, annotation: string)
    requires MatchesGreedily(line, digits, name, version, annotation)
    ensures ParseLine(line) == Some(Line(DecimalValue(digits), name, version))
  {
    var tail := " v" + (version + annotation);
    MatchesExactly(line, digits, name, version, annotation);
    assert All(IsNameChar, digits + name);
    assert !IsNameChar(' ') && tail[0] == ' ';
    SpanAt(IsNameChar, digits + name, tail);
    SplitDepthAt(digits, name);
    assert tail[..2] == " v" && tail[2..] == version + annotation;
    assert !IsVersionChar(' ');
    SpanAt(IsVersionChar, version, annotation);
  }

  lemma SplitDepthParts(run: string)
    ensures var (digits, name) := SplitDepth(run);
            && digits + name == run && AllDigits(digits)
            && (name != "" ==> !IsDigit(name[0]) || |name| == 1)
            && (|run| > 1 && IsDigit(run[0]) ==> digits != "" && name != "")
  {
    SpanParts(IsDigit, run);
    var (digits, name) := Span(IsDigit, run);
    if name == "" && digits != "" {
      assert digits == digits[..|digits| - 1] + digits[|digits| - 1..];
    }
  }

  lemma ReadLineMatches(line: string) returns (digits: string, name: string, version: string, annotation: string)
    requires ParseLine(line).Some?
    ensures MatchesGreedily(line, digits, name, version, annotation)
    ensures ParseLine(line).value == Line(DecimalValue(digits), name, version)
  {
    var (run, rest) := Span(IsNameChar, line);
    SpanParts(IsNameChar, line);
    digits, name := SplitDepth(run).0, SplitDepth(run).1;
    SplitDepthParts(run);
    version, annotation := Span(IsVersionChar, rest[2..]).0, Span(IsVersionChar, rest[2..]).1;
    SpanParts(IsVersionChar, rest[2..]);
    assert rest == rest[..2] + rest[2..];
    forall k | 0 <= k < |name| ensures IsNameChar(name[k]) {
      assert run[|digits| + k] == name[k];
    }
    MatchesExactly(line, digits, name, version, annotation);
  }

  /** What a line reads as, for every line: its greedy reading, and nothing without one. */
  lemma ParseLineExactly(line: string, l: Line)
    ensures ParseLine(line) == Some(l) <==>
            exists digits, annotation ::
              MatchesGreedily(line, digits, l.name, l.version, annotation) && DecimalValue(digits) == l.depth
  {
    if ParseLine(line) == Some(l) {
      var digits, name, version, annotation := ReadLineMatches(line);
    }
    forall digits, annotation |
      MatchesGreedily(line, digits, l.name, l.version, annotation) && DecimalValue(digits) == l.depth
      ensures ParseLine(line) == Some(l)
    {
      GreedyLineReads(line, digits, l.name, l.version, annotation);
    }
  }

  /** A line is refused exactly when it cannot be read in any way, greedy or not. */
  lemma LineRefusedExactly(line: string)
    ensures ParseLine(line) == None <==>
            forall digits, name, version, annotation :: !Matches(line, digits, name, version, annotation)
  {
    if ParseLine(line).Some? {
      var digits, name, version, annotation := ReadLineMatches(line);
    }
    forall digits, name, version, annotation | Matches(line, digits, name, version, annotation)
      ensures ParseLine(line).Some?
    {
      var run := digits + name;
      MatchesExactly(line, digits, name, version, annotation);
      assert run[0] == digits[0];
      SplitDepthParts(run);
      var (digits', name') := SplitDepth(run);
      forall k | 0 <= k < |name'| ensures IsNameChar(name'[k]) {
        assert run[|digits'| + k] == name'[k];
      }
      MatchesExactly(line, digits', name', version, annotation);
      GreedyLineReads(line, digits', name', version, annotation);
    }
  }

  /**
   * A printed line reads back as itself exactly when the package name does not start with a
   * digit (a name that is one digit is the only other exception): such digits would be read as
   * part of the depth.
   */
  lemma LineRoundTrip(depth: nat, name: string, version: string, annotation: string)
    requires name != "" && All(IsNameChar, name) && IsVersion(version) && IsAnnotation(annotation)
    ensures ParseLine(PrintLine(depth, name, version, annotation)) == Some(Line(depth, name, version)) <==>
            !IsDigit(name[0]) || |name| == 1
  {
    var line := PrintLine(depth, name, version, annotation);
    DecimalRoundTrip(depth);
    if !IsDigit(name[0]) || |name| == 1 {
      MatchesExactly(line, Decimal(depth), name, version, annotation);
      GreedyLineReads(line, Decimal(depth), name, version, annotation);
    }
    if ParseLine(line) == Some(Line(depth, name, version)) {
      var _, _, _, _ := ReadLineMatches(line);
    }
  }
}

module DepthTree {
  import opened Prelude
  import opened TreeLines

  datatype Package = Package(id: string, name: string, version: string, source: Option<string>)

  /** A resolved dependency and the kinds under which it is declared; `None` is a normal one. */
  datatype Dep = Dep(pkg: string, kinds: seq<Option<string>>)

  datatype Node = Node(id: string, deps: seq<Dep>)

  datatype Metadata = Metadata(packages: seq<Package>, nodes: seq<Node>)

  datatype TreeError =
    | AmbiguousCoordinates | InvalidTreeSize | UnrecognizedLine | IncompleteTree
    | MissingMetadata | ExpectedProvider | UndeclaredEdge | EmptyTree

  type Coordinates = map<(string, string), Package>
  type Nodes = map<string, Node>

  const PROVIDER := "vaultwarden-eso-provider"
  const MAX_LINES := 100000

  /** The tables the walk consults. */
  datatype Tables = Tables(coordinates: Coordinates, nodes: Nodes)

  function Index(packages: seq<Package>, coordinates: Coordinates): Result<Coordinates, TreeError>
    decreases |packages|
  {
    if packages == [] then Ok(coordinates)
    else
      var p := packages[0];
      if (p.name, p.version) in coordinates then Err(AmbiguousCoordinates)
      else Index(packages[1..], coordinates[(p.name, p.version) := p])
  }

  function IndexNodes(nodes: seq<Node>): Nodes {
    if nodes == [] then map[] else IndexNodes(nodes[..|nodes| - 1])[nodes[|nodes| - 1].id := nodes[|nodes| - 1]]
  }

  predicate Declared(tables: Tables, parent: string, child: string) {
    && parent in tables.nodes
    && exists d | d in tables.nodes[parent].deps :: d.pkg == child && None in d.kinds
  }

  /** The mutable state of the walk. */
  datatype Walk = Walk(
    root: Option<string>,
    visited: map<string, Package>,
    edges: map<string, set<string>>,
    stack: seq<string>)

  const START := Walk(None, map[], map[], [])

  /** One package at one depth. */
  datatype Item = Item(depth: nat, package: Package)

  predicate IsProvider(p: Package) {
    p.name == PROVIDER && p.source.None?
  }

  function WithKey(edges: map<string, set<string>>, k: string): map<string, set<string>> {
    if k in edges then edges else edges[k := {}]
  }

  function Visit(w: Walk, item: Item): Walk
    requires item.depth <= |w.stack|
  {
    var id := item.package.id;
    w.(visited := w.visited[id := item.package],
       edges := WithKey(w.edges, id),
       stack := w.stack[..item.depth] + [id])
  }

  function AddEdge(edges: map<string, set<string>>, parent: string, child: string): map<string, set<string>> {
    edges[parent := (if parent in edges then edges[parent] else {}) + {child}]
  }

  /** One package of the listing. */
  function Push(tables: Tables, w: Walk, item: Item): Result<Walk, TreeError> {
    var id := item.package.id;
    if item.depth > |w.stack| then Err(IncompleteTree)
    else if id !in tables.nodes then Err(MissingMetadata)
    else if item.depth == 0 then
      if w.root.Some? || !IsProvider(item.package) then Err(ExpectedProvider)
      else Ok(Visit(w.(root := Some(id)), item))
    else
      var parent := w.stack[item.depth - 1];
      if !Declared(tables, parent, id) then Err(UndeclaredEdge)
      else Ok(Visit(w.(edges := AddEdge(w.edges, parent, id)), item))
  }

  function ReadItem(tables: Tables, line: string): Result<Item, TreeError> {
    match ParseLine(line)
    case None => Err(UnrecognizedLine)
    case Some(l) =>
      if (l.name, l.version) !in tables.coordinates then Err(IncompleteTree)
      else Ok(Item(l.depth, tables.coordinates[(l.name, l.version)]))
  }

  function PushLine(tables: Tables, w: Walk, line: string): Result<Walk, TreeError> {
    var item :- ReadItem(tables, line);
    Push(tables, w, item)
  }

  function WalkLines(tables: Tables, w: Walk, lines: seq<string>): Result<Walk, TreeError>
    decreases |lines|
  {
    if lines == [] then Ok(w)
    else
      var w' :- PushLine(tables, w, lines[0]);
      WalkLines(tables, w', lines[1..])
  }

  datatype Graph = Graph(root: string, visited: map<string, Package>, edges: map<string, set<string>>)

  function RuntimeGraphOf(metadata: Metadata, lines: seq<string>): Result<Graph, TreeError> {
    var coordinates :- Index(metadata.packages, map[]);
    if !(0 < |lines| <= MAX_LINES) then Err(InvalidTreeSize)
    else
      var w :- WalkLines(Tables(coordinates, IndexNodes(metadata.nodes)), START, lines);
      if w.root.None? then Err(EmptyTree) else Ok(Graph(w.root.value, w.visited, w.edges))
  }

  /** `runtime_graph`: the tables are filled in one loop each, then the lines drive the stack. */
  method RuntimeGraph(metadata: Metadata, lines: seq<string>) returns (r: Result<Graph, TreeError>)
    ensures r == RuntimeGraphOf(metadata, lines)
  {
    var coordinates: Coordinates := map[];
    for i := 0 to |metadata.packages|
      invariant Index(metadata.packages[i..], coordinates) == Index(metadata.packages, map[])
    {
      var package := metadata.packages[i];
      assert metadata.packages[i..][1..] == metadata.packages[i + 1..];
      if (package.name, package.version) in coordinates {
        return Err(AmbiguousCoordinates);
      }
      coordinates := coordinates[(package.name, package.version) := package];
    }
    var nodes: Nodes := map[];
    for i := 0 to |metadata.nodes|
      invariant nodes == IndexNodes(metadata.nodes[..i])
    {
      assert metadata.nodes[..i + 1][..i] == metadata.nodes[..i];
      nodes := nodes[metadata.nodes[i].id := metadata.nodes[i]];
    }
    assert metadata.nodes[..|metadata.nodes|] == metadata.nodes;
    if !(0 < |lines| <= MAX_LINES) {
      return Err(InvalidTreeSize);
    }
    ghost var tables := Tables(coordinates, nodes);
    var root: Option<string> := None;
    var visited: map<string, Package> := map[];
    var edges: map<string, set<string>> := map[];
    var stack: seq<string> := [];
    for i := 0 to |lines|
      invariant WalkLines(tables, Walk(root, visited, edges, stack), lines[i..]) == WalkLines(tables, START, lines)
    {
      ghost var w := Walk(root, visited, edges, stack);
      assert lines[i..][0] == lines[i] && lines[i..][1..] == lines[i + 1..];
      var parsed := ParseLine(lines[i]);
      if parsed.None? {
        assert PushLine(tables, w, lines[i]) == Err(UnrecognizedLine);
        return Err(UnrecognizedLine);
      }
      var line := parsed.value;
      if line.depth > |stack| || (line.name, line.version) !in coordinates {
        assert PushLine(tables, w, lines[i]) == Err(IncompleteTree);
        return Err(IncompleteTree);
      }
      var package := coordinates[(line.name, line.version)];
      var identity := package.id;
      if identity !in nodes {
        return Err(MissingMetadata);
      }
      if line.depth == 0 {
        if !(root.None? && package.name == PROVIDER && package.source.None?) {
          return Err(ExpectedProvider);
        }
        root := Some(identity);
      } else {
        var parent := stack[line.depth - 1];
        if !(parent in nodes && exists d | d in nodes[parent].deps :: d.pkg == identity && None in d.kinds) {
          return Err(UndeclaredEdge);
        }
        edges := AddEdge(edges, parent, identity);
      }
      visited := visited[identity := package];
      edges := WithKey(edges, identity);
      stack := stack[..line.depth] + [identity];
      assert PushLine(tables, w, lines[i]) == Ok(Walk(root, visited, edges, stack));
    }
    if root.None? {
      return Err(EmptyTree);
    }
    return Ok(Graph(root.value, visited, edges));
  }

  // ---------- Walking over items ----------

  function WalkItems(tables: Tables, w: Walk, items: seq<Item>): Result<Walk, TreeError>
    decreases |items|
  {
    if items == [] then Ok(w)
    else
      var w' :- Push(tables, w, items[0]);
      WalkItems(tables, w', items[1..])
  }

  lemma {:induction false} WalkConcat(tables: Tables, w: Walk, a: seq<Item>, b: seq<Item>)
    ensures WalkItems(tables, w, a + b) ==
            match WalkItems(tables, w, a)
            case Err(e) => Err(e)
            case Ok(w') => WalkItems(tables, w', b)
    decreases |a|
  {
    if a == [] {
      assert a + b == b;
    } else {
      assert (a + b)[0] == a[0] && (a + b)[1..] == a[1..] + b;
      if Push(tables, w, a[0]).Ok? {
        WalkConcat(tables, Push(tables, w, a[0]).value, a[1..], b);
      }
    }
  }

  // ---------- Trees ----------

  datatype Tree = Tree(head: Package, children: seq<Tree>)

  /** The preorder listing of a forest whose roots are at depth `d`. */
  function Items(ts: seq<Tree>, d: nat): seq<Item>
    decreases ts
  {
    if ts == [] then []
    else [Item(d, ts[0].head)] + Items(ts[0].children, d + 1) + Items(ts[1..], d)
  }

  function Labels(ts: seq<Tree>): set<Package>
    decreases ts
  {
    if ts == [] then {} else {ts[0].head} + Labels(ts[0].children) + Labels(ts[1..])
  }

  function Ids(ps: set<Package>): set<string> {
    set p | p in ps :: p.id
  }

  /** The edges of a forest hung under `parent`. */
  function EdgesUnder(parent: string, ts: seq<Tree>): set<(string, string)>
    decreases ts
  {
    if ts == [] then {}
    else {(parent, ts[0].head.id)} + EdgesUnder(ts[0].head.id, ts[0].children) + EdgesUnder(parent, ts[1..])
  }

  function TreeEdges(t: Tree): set<(string, string)> {
    EdgesUnder(t.head.id, t.children)
  }

  function Pairs(edges: map<string, set<string>>): set<(string, string)> {
    set k, c | k in edges && c in edges[k] :: (k, c)
  }

  /** Every label has metadata and every edge is a declared normal dependency. */
  predicate WellDeclared(tables: Tables, parent: string, ts: seq<Tree>) {
    && (forall p | p in Labels(ts) :: p.id in tables.nodes)
    && (forall e | e in EdgesUnder(parent, ts) :: Declared(tables, e.0, e.1))
  }

  lemma PairsVisit(edges: map<string, set<string>>, parent: string, child: string)
    requires parent in edges
    ensures Pairs(WithKey(AddEdge(edges, parent, child), child)) == Pairs(edges) + {(parent, child)}
    ensures WithKey(AddEdge(edges, parent, child), child).Keys == edges.Keys + {child}
  {
    var after := WithKey(AddEdge(edges, parent, child), child);
    forall e: (string, string) ensures e in Pairs(after) <==> e in Pairs(edges) + {(parent, child)} {
      var (k, c) := e;
    }
  }

  /** The result of walking a forest under the current stack top at depth `d`. */
  predicate Walked(w: Walk, w': Walk, d: nat, labels: set<Package>, edges: set<(string, string)>) {
    && w'.root == w.root
    && |w'.stack| >= d && |w.stack| >= d && w'.stack[..d] == w.stack[..d]
    && w'.visited.Keys == w.visited.Keys + Ids(labels)
    && w'.edges.Keys == w.edges.Keys + Ids(labels)
    && Pairs(w'.edges) == Pairs(w.edges) + edges
  }

  lemma IdsUnion(a: set<Package>, b: set<Package>)
    ensures Ids(a + b) == Ids(a) + Ids(b)
  {
  }

  lemma WalkedCompose(
      w: Walk, v: Walk, w': Walk, d: nat, dv: nat,
      a: set<Package>, b: set<Package>, e: set<(string, string)>, f: set<(string, string)>)
    requires Walked(w, v, d, a, e) && Walked(v, w', dv, b, f) && d <= dv
    ensures Walked(w, w', d, a + b, e + f)
  {
    IdsUnion(a, b);
    assert v.stack[..dv][..d] == v.stack[..d];
    assert w'.stack[..dv][..d] == w'.stack[..d];
  }

  lemma PushWalked(tables: Tables, w: Walk, item: Item)
    requires 0 < item.depth <= |w.stack| && w.stack[item.depth - 1] in w.edges
    ensures Push(tables, w, item).Ok? <==>
            item.package.id in tables.nodes && Declared(tables, w.stack[item.depth - 1], item.package.id)
    ensures Push(tables, w, item).Ok? ==>
            var w' := Push(tables, w, item).value;
            && Walked(w, w', item.depth, {item.package}, {(w.stack[item.depth - 1], item.package.id)})
            && |w'.stack| == item.depth + 1 && w'.stack[item.depth] == item.package.id
  {
    PairsVisit(w.edges, w.stack[item.depth - 1], item.package.id);
    assert Ids({item.package}) == {item.package.id};
  }

  /** The listing of a forest is its first root, that root's children, then the other trees. */
  lemma WalkSplit(tables: Tables, w: Walk, ts: seq<Tree>, d: nat)
    requires ts != []
    ensures WalkItems(tables, w, Items(ts, d)) ==
            match Push(tables, w, Item(d, ts[0].head))
            case Err(e) => Err(e)
            case Ok(v) =>
              match WalkItems(tables, v, Items(ts[0].children, d + 1))
              case Err(e) => Err(e)
              case Ok(u) => WalkItems(tables, u, Items(ts[1..], d))
  {
    var head, inner, after := [Item(d, ts[0].head)], Items(ts[0].children, d + 1), Items(ts[1..], d);
    assert Items(ts, d) == head + inner + after;
    WalkConcat(tables, w, head + inner, after);
    WalkConcat(tables, w, head, inner);
    assert head[1..] == [];
  }

  lemma ForestWalked(w: Walk, v: Walk, u: Walk, x: Walk, d: nat, parent: string, ts: seq<Tree>)
    requires ts != []
    requires Walked(w, v, d, {ts[0].head}, {(parent, ts[0].head.id)})
    requires Walked(v, u, d + 1, Labels(ts[0].children), EdgesUnder(ts[0].head.id, ts[0].children))
    requires Walked(u, x, d, Labels(ts[1..]), EdgesUnder(parent, ts[1..]))
    ensures Walked(w, x, d, Labels(ts), EdgesUnder(parent, ts))
  {
    var t := ts[0];
    WalkedCompose(w, v, u, d, d + 1, {t.head}, Labels(t.children), {(parent, t.head.id)}, EdgesUnder(t.head.id, t.children));
    WalkedCompose(w, u, x, d, d, {t.head} + Labels(t.children), Labels(ts[1..]),
                  {(parent, t.head.id)} + EdgesUnder(t.head.id, t.children), EdgesUnder(parent, ts[1..]));
  }

  lemma StackBelow(w: Walk, u: Walk, d: nat, e: nat)
    requires 0 < d <= e <= |w.stack| && e <= |u.stack| && u.stack[..e] == w.stack[..e]
    ensures u.stack[d - 1] == w.stack[d - 1]
  {
    assert u.stack[d - 1] == u.stack[..e][d - 1];
  }

  /**
   * Walking the listing of a forest succeeds exactly when everything in it is declared, and
   * then adds exactly its labels and its edges, restoring the stack below it.
   */
  lemma {:induction false} WalkForest(tables: Tables, w: Walk, ts: seq<Tree>, d: nat)
    requires 0 < d <= |w.stack| && w.stack[d - 1] in w.edges
    ensures WalkItems(tables, w, Items(ts, d)).Ok? <==> WellDeclared(tables, w.stack[d - 1], ts)
    ensures WalkItems(tables, w, Items(ts, d)).Ok? ==>
            Walked(w, WalkItems(tables, w, Items(ts, d)).value, d, Labels(ts), EdgesUnder(w.stack[d - 1], ts))
    decreases ts, 1
  {
    if ts == [] {
      assert Ids({}) == {};
    } else {
      WalkSplit(tables, w, ts, d);
      PushWalked(tables, w, Item(d, ts[0].head));
      DeclaredParts(tables, w.stack[d - 1], ts);
      var pushed := Push(tables, w, Item(d, ts[0].head));
      if pushed.Ok? {
        WalkPushed(tables, w, pushed.value, ts, d);
      }
    }
  }

  /** Walking the first tree's children and then the other trees, once its root is on the stack. */
  lemma {:induction false} WalkPushed(tables: Tables, w: Walk, v: Walk, ts: seq<Tree>, d: nat)
    requires ts != [] && 0 < d <= |w.stack| && w.stack[d - 1] in w.edges
    requires Walked(w, v, d, {ts[0].head}, {(w.stack[d - 1], ts[0].head.id)})
    requires |v.stack| == d + 1 && v.stack[d] == ts[0].head.id
    ensures var parent, inner := w.stack[d - 1], WalkItems(tables, v, Items(ts[0].children, d + 1));
            && (inner.Ok? <==> WellDeclared(tables, ts[0].head.id, ts[0].children))
            && (inner.Ok? ==>
                  var rest := WalkItems(tables, inner.value, Items(ts[1..], d));
                  && (rest.Ok? <==> WellDeclared(tables, parent, ts[1..]))
                  && (rest.Ok? ==> Walked(w, rest.value, d, Labels(ts), EdgesUnder(parent, ts))))
    decreases ts, 0
  {
    assert Ids({ts[0].head}) == {ts[0].head.id};
    WalkForest(tables, v, ts[0].children, d + 1);
    var inner := WalkItems(tables, v, Items(ts[0].children, d + 1));
    if inner.Ok? {
      StackBelow(v, inner.value, d, d + 1);
      StackBelow(w, v, d, d);
      WalkForest(tables, inner.value, ts[1..], d);
      var rest := WalkItems(tables, inner.value, Items(ts[1..], d));
      if rest.Ok? {
        ForestWalked(w, v, inner.value, rest.value, d, w.stack[d - 1], ts);
      }
    }
  }

  lemma DeclaredParts(tables: Tables, parent: string, ts: seq<Tree>)
    requires ts != []
    ensures WellDeclared(tables, parent, ts) <==>
            && ts[0].head.id in tables.nodes && Declared(tables, parent, ts[0].head.id)
            && WellDeclared(tables, ts[0].head.id, ts[0].children)
            && WellDeclared(tables, parent, ts[1..])
  {
    var t, rest := ts[0], ts[1..];
    assert Labels(ts) == {t.head} + Labels(t.children) + Labels(rest);
    assert EdgesUnder(parent, ts) ==
           {(parent, t.head.id)} + EdgesUnder(t.head.id, t.children) + EdgesUnder(parent, rest);
    if WellDeclared(tables, parent, ts) {
      assert t.head in Labels(ts);
      assert (parent, t.head.id) in EdgesUnder(parent, ts);
    }
  }
}
