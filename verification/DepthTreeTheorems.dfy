// The depth-tree walk as an inverse of preorder printing.

module DepthTreeTheorems {
  import opened Prelude
  import opened Text
  import opened TreeLines
  import opened DepthTree

  // ---------- Listings and trees ----------

  /** The walk ended with exactly the root, the labels and the edges of the tree. */
  predicate IsGraphOf(t: Tree, root: Option<string>, visited: map<string, Package>, edges: map<string, set<string>>) {
    && root == Some(t.head.id)
    && visited.Keys == Ids(Labels([t]))
    && edges.Keys == Ids(Labels([t]))
    && Pairs(edges) == TreeEdges(t)
  }

  predicate AcceptableTree(tables: Tables, t: Tree) {
    && t.head.name == "vaultwarden-eso-provider" && t.head.source.None?
    && t.head.id in tables.nodes && WellDeclared(tables, t.head.id, t.children)
  }

  /**
   * The listing of a tree is accepted exactly when its root is the provider and all its labels
   * and edges are declared; the walk then rebuilds exactly that tree's graph.
   */
  lemma WalkTree(tables: Tables, t: Tree)
    ensures WalkItems(tables, START, Items([t], 0)).Ok? <==> AcceptableTree(tables, t)
    ensures var r := WalkItems(tables, START, Items([t], 0));
            r.Ok? ==> IsGraphOf(t, r.value.root, r.value.visited, r.value.edges)
  {
    WalkOne(tables, t);
    var pushed := Push(tables, START, Item(0, t.head));
    if pushed.Ok? {
      PushedRoot(tables, t.head);
      WalkForest(tables, pushed.value, t.children, 1);
      var walked := WalkItems(tables, pushed.value, Items(t.children, 1));
      if walked.Ok? {
        RootWalked(t, pushed.value, walked.value);
      }
    }
  }

  lemma WalkOne(tables: Tables, t: Tree)
    ensures var pushed := Push(tables, START, Item(0, t.head));
            WalkItems(tables, START, Items([t], 0)) ==
            if pushed.Err? then pushed else WalkItems(tables, pushed.value, Items(t.children, 1))
  {
    WalkSplit(tables, START, [t], 0);
    assert [t][1..] == [] && Items([t][1..], 0) == [];
  }

  lemma PushedRoot(tables: Tables, head: Package)
    requires Push(tables, START, Item(0, head)).Ok?
    ensures Push(tables, START, Item(0, head)).value ==
            Walk(Some(head.id), map[head.id := head], map[head.id := {}], [head.id])
  {
  }

  lemma RootWalked(t: Tree, v: Walk, w: Walk)
    requires v.root == Some(t.head.id) && v.visited.Keys == {t.head.id}
    requires v.edges == map[t.head.id := {}]
    requires Walked(v, w, 1, Labels(t.children), TreeEdges(t))
    ensures IsGraphOf(t, w.root, w.visited, w.edges)
  {
    assert [t][1..] == [] && Labels([t][1..]) == {};
    assert Labels([t]) == {t.head} + Labels(t.children);
    IdsUnion({t.head}, Labels(t.children));
    assert Ids({t.head}) == {t.head.id};
    assert Pairs(v.edges) == {};
  }

  /** Each depth is at most one more than the depth before it. */
  predicate Steps(items: seq<Item>) {
    |items| > 1 ==> items[1].depth <= items[0].depth + 1 && Steps(items[1..])
  }

  /** The forest listed at depth `d` at the front of `items`, and what follows it. */
  function Build(items: seq<Item>, d: nat): (r: (seq<Tree>, seq<Item>))
    requires Steps(items) && (items != [] ==> items[0].depth <= d)
    ensures |r.1| <= |items| && Steps(r.1) && (r.1 != [] ==> r.1[0].depth < d)
    decreases |items|
  {
    if items == [] || items[0].depth < d then ([], items)
    else
      var (children, after) := Build(items[1..], d + 1);
      var (siblings, rest) := Build(after, d);
      ([Tree(items[0].package, children)] + siblings, rest)
  }

  lemma ItemsCons(t: Tree, ts: seq<Tree>, d: nat)
    ensures Items([t] + ts, d) == [Item(d, t.head)] + Items(t.children, d + 1) + Items(ts, d)
  {
    assert ([t] + ts)[1..] == ts;
  }

  lemma BuildStep(items: seq<Item>, d: nat)
    requires Steps(items) && items != [] && items[0].depth == d
    ensures var inner := Build(items[1..], d + 1);
            var after := Build(inner.1, d);
            Build(items, d) == ([Tree(items[0].package, inner.0)] + after.0, after.1)
  {
  }

  /** What was built lists as the items it was built from. */
  lemma {:induction false} BuildLists(items: seq<Item>, d: nat)
    requires Steps(items) && (items != [] ==> items[0].depth <= d)
    ensures Items(Build(items, d).0, d) + Build(items, d).1 == items
    decreases |items|, 1
  {
    if items == [] || items[0].depth < d {
      NoItems(items, d);
    } else {
      BuildListsTree(items, d);
    }
  }

  lemma {:induction false} BuildListsTree(items: seq<Item>, d: nat)
    requires Steps(items) && items != [] && items[0].depth == d
    ensures Items(Build(items, d).0, d) + Build(items, d).1 == items
    decreases |items|, 0
  {
    var inner := Build(items[1..], d + 1);
    var after := Build(inner.1, d);
    BuildLists(items[1..], d + 1);
    BuildLists(inner.1, d);
    Regroup(items, d, inner.0, inner.1, after.0, after.1);
    BuildStep(items, d);
  }

  lemma NoItems(items: seq<Item>, d: nat)
    ensures Items([], d) + items == items
  {
  }

  lemma Regroup(items: seq<Item>, d: nat, children: seq<Tree>, after: seq<Item>, siblings: seq<Tree>, rest: seq<Item>)
    requires items != [] && items[0].depth == d
    requires Items(children, d + 1) + after == items[1..]
    requires Items(siblings, d) + rest == after
    ensures Items([Tree(items[0].package, children)] + siblings, d) + rest == items
  {
    ItemsCons(Tree(items[0].package, children), siblings, d);
    RegroupItems(items, Items(children, d + 1), Items(siblings, d), rest, after);
  }

  lemma RegroupItems(items: seq<Item>, inner: seq<Item>, outer: seq<Item>, rest: seq<Item>, after: seq<Item>)
    requires items != [] && inner + after == items[1..] && outer + rest == after
    ensures [Item(items[0].depth, items[0].package)] + inner + outer + rest == items
  {
    var head := [items[0]];
    assert items == head + items[1..];
    assert head + inner + outer + rest == head + (inner + (outer + rest));
  }

  lemma {:induction false} StepsDrop(a: seq<Item>, b: seq<Item>)
    requires Steps(a + b)
    ensures Steps(b)
    decreases |a|
  {
    if a == [] {
      assert a + b == b;
    } else {
      assert (a + b)[1..] == a[1..] + b;
      StepsDrop(a[1..], b);
    }
  }

  /** Rebuilding is the inverse of listing. */
  lemma {:induction false} BuildItems(ts: seq<Tree>, d: nat, rest: seq<Item>)
    requires Steps(Items(ts, d) + rest)
    requires rest != [] ==> rest[0].depth < d
    ensures Items(ts, d) + rest != [] ==> (Items(ts, d) + rest)[0].depth <= d
    ensures Build(Items(ts, d) + rest, d) == (ts, rest)
    decreases ts
  {
    var items := Items(ts, d) + rest;
    ItemsStart(ts, d);
    if ts == [] {
      assert items == rest;
    } else {
      var after := Items(ts[1..], d) + rest;
      var inner := Items(ts[0].children, d + 1);
      assert items == [Item(d, ts[0].head)] + (inner + after);
      assert items[1..] == inner + after;
      ItemsStart(ts[1..], d);
      StepsDrop([Item(d, ts[0].head)], inner + after);
      BuildItems(ts[0].children, d + 1, after);
      StepsDrop(inner, after);
      BuildItems(ts[1..], d, rest);
      assert [ts[0]] + ts[1..] == ts;
    }
  }

  lemma ItemsStart(ts: seq<Tree>, d: nat)
    ensures ts != [] ==> Items(ts, d) != [] && Items(ts, d)[0] == Item(d, ts[0].head)
  {
  }

  /** The number of lines at depth zero. */
  function Roots(items: seq<Item>): nat {
    if items == [] then 0 else (if items[0].depth == 0 then 1 else 0) + Roots(items[1..])
  }

  lemma {:induction false} RootsConcat(a: seq<Item>, b: seq<Item>)
    ensures Roots(a + b) == Roots(a) + Roots(b)
  {
    if a == [] {
      assert a + b == b;
    } else {
      assert (a + b)[1..] == a[1..] + b;
      RootsConcat(a[1..], b);
    }
  }

  lemma {:induction false} RootsOfForest(ts: seq<Tree>, d: nat)
    ensures Roots(Items(ts, d)) == if d == 0 then |ts| else 0
    decreases ts
  {
    if ts != [] {
      var head := [Item(d, ts[0].head)];
      RootsOfForest(ts[0].children, d + 1);
      RootsOfForest(ts[1..], d);
      RootsConcat(head + Items(ts[0].children, d + 1), Items(ts[1..], d));
      RootsConcat(head, Items(ts[0].children, d + 1));
      assert head[1..] == [];
    }
  }

  /** Acceptance forces the shape of a listing: one root, then depths that grow by at most one. */
  lemma {:induction false} AcceptedShape(tables: Tables, w: Walk, items: seq<Item>)
    requires WalkItems(tables, w, items).Ok?
    ensures Steps(items)
    ensures items != [] ==> items[0].depth <= |w.stack|
    ensures w.root.Some? ==> Roots(items) == 0
    decreases |items|
  {
    if items != [] {
      AcceptedShape(tables, Push(tables, w, items[0]).value, items[1..]);
    }
  }

  /** Every accepted listing is the preorder listing of a tree, which can be rebuilt from it. */
  lemma AcceptedIsListing(tables: Tables, items: seq<Item>) returns (t: Tree)
    requires items != [] && WalkItems(tables, START, items).Ok?
    ensures Items([t], 0) == items && AcceptableTree(tables, t)
  {
    AcceptedShape(tables, START, items);
    AcceptedShape(tables, Push(tables, START, items[0]).value, items[1..]);
    var (ts, rest) := Build(items, 0);
    BuildLists(items, 0);
    assert rest == [] && Items(ts, 0) == items;
    RootsOfForest(ts, 0);
    assert ts == [ts[0]];
    t := ts[0];
    WalkTree(tables, t);
  }

  /** A tree is determined by its listing. */
  lemma ListingDeterminesTree(tables: Tables, t: Tree, u: Tree)
    requires Items([t], 0) == Items([u], 0) && AcceptableTree(tables, t)
    ensures t == u
  {
    WalkTree(tables, t);
    var items := Items([t], 0);
    AcceptedShape(tables, START, items);
    assert items + [] == items;
    BuildItems([t], 0, []);
    BuildItems([u], 0, []);
  }

  /** A nonempty listing is accepted exactly when it is the listing of an acceptable tree. */
  lemma AcceptsExactlyTrees(tables: Tables, items: seq<Item>)
    requires items != []
    ensures WalkItems(tables, START, items).Ok? <==> exists t :: Items([t], 0) == items && AcceptableTree(tables, t)
  {
    if WalkItems(tables, START, items).Ok? {
      var t := AcceptedIsListing(tables, items);
    }
    forall t | Items([t], 0) == items && AcceptableTree(tables, t) ensures WalkItems(tables, START, items).Ok? {
      WalkTree(tables, t);
    }
  }

  // ---------- From text ----------

  /** Each line reads as the corresponding item. */
  predicate ReadsAs(tables: Tables, lines: seq<string>, items: seq<Item>) {
    && |lines| == |items|
    && forall i | 0 <= i < |lines| :: ReadItem(tables, lines[i]) == Ok(items[i])
  }

  lemma {:induction false} WalkLinesItems(tables: Tables, w: Walk, lines: seq<string>, items: seq<Item>)
    requires ReadsAs(tables, lines, items)
    ensures WalkLines(tables, w, lines) == WalkItems(tables, w, items)
    decreases |lines|
  {
    if lines != [] {
      assert ReadItem(tables, lines[0]) == Ok(items[0]);
      assert ReadsAs(tables, lines[1..], items[1..]) by {
        forall i | 0 <= i < |lines[1..]| ensures ReadItem(tables, lines[1..][i]) == Ok(items[1..][i]) {
          assert ReadItem(tables, lines[i + 1]) == Ok(items[i + 1]);
        }
      }
      if Push(tables, w, items[0]).Ok? {
        WalkLinesItems(tables, Push(tables, w, items[0]).value, lines[1..], items[1..]);
      }
    }
  }

  lemma {:induction false} AcceptedReads(tables: Tables, w: Walk, lines: seq<string>) returns (items: seq<Item>)
    requires WalkLines(tables, w, lines).Ok?
    ensures ReadsAs(tables, lines, items)
    decreases |lines|
  {
    if lines == [] {
      items := [];
    } else {
      var rest := AcceptedReads(tables, PushLine(tables, w, lines[0]).value, lines[1..]);
      items := [ReadItem(tables, lines[0]).value] + rest;
      forall i | 0 <= i < |lines| ensures ReadItem(tables, lines[i]) == Ok(items[i]) {
        if i > 0 {
          assert lines[i] == lines[1..][i - 1];
        }
      }
    }
  }

  lemma {:induction false} IndexFinds(packages: seq<Package>, coordinates: Coordinates, p: Package)
    requires Index(packages, coordinates).Ok?
    requires p in packages || ((p.name, p.version) in coordinates && coordinates[(p.name, p.version)] == p)
    ensures (p.name, p.version) in Index(packages, coordinates).value
    ensures Index(packages, coordinates).value[(p.name, p.version)] == p
    decreases |packages|
  {
    if packages != [] {
      var q := packages[0];
      assert packages == [q] + packages[1..];
      IndexFinds(packages[1..], coordinates[(q.name, q.version) := q], p);
    }
  }

  /** A package that the listing can name: a crate name and version in the listing's alphabet. */
  predicate Printable(p: Package) {
    && p.name != "" && All(IsNameChar, p.name) && !IsDigit(p.name[0]) && IsVersion(p.version)
  }

  /** The line is the printed form of the item, with any annotation. */
  ghost predicate Prints(line: string, item: Item) {
    exists annotation ::
      IsAnnotation(annotation) && line == PrintLine(item.depth, item.package.name, item.package.version, annotation)
  }

  lemma PrintedReads(tables: Tables, packages: seq<Package>, line: string, item: Item)
    requires Index(packages, map[]) == Ok(tables.coordinates)
    requires item.package in packages && Printable(item.package) && Prints(line, item)
    ensures ReadItem(tables, line) == Ok(item)
  {
    var p := item.package;
    var annotation :| IsAnnotation(annotation) && line == PrintLine(item.depth, p.name, p.version, annotation);
    LineRoundTrip(item.depth, p.name, p.version, annotation);
    IndexFinds(packages, map[], p);
  }

  lemma {:induction false} ItemsLabels(ts: seq<Tree>, d: nat)
    ensures forall item :: item in Items(ts, d) ==> item.package in Labels(ts)
    decreases ts
  {
    if ts != [] {
      ItemsLabels(ts[0].children, d + 1);
      ItemsLabels(ts[1..], d);
    }
  }

  /** Every visited entry is a package of the listing, under its own id. */
  predicate VisitedFrom(visited: map<string, Package>, packages: set<Package>) {
    forall id | id in visited :: visited[id] in packages && visited[id].id == id
  }

  lemma {:induction false} WalkVisits(tables: Tables, w: Walk, items: seq<Item>, packages: set<Package>)
    requires VisitedFrom(w.visited, packages) && forall item | item in items :: item.package in packages
    requires WalkItems(tables, w, items).Ok?
    ensures VisitedFrom(WalkItems(tables, w, items).value.visited, packages)
    decreases |items|
  {
    if items != [] {
      assert items[0] in items;
      WalkVisits(tables, Push(tables, w, items[0]).value, items[1..], packages);
    }
  }

  /**
   * Round trip: printing a tree of declared normal dependencies and reading the listing back
   * yields exactly the tree's root, its labels, each under its own id, and its edges.
   */
  lemma RoundTrip(metadata: Metadata, t: Tree, lines: seq<string>)
    requires Index(metadata.packages, map[]).Ok?
    requires AcceptableTree(Tables(Index(metadata.packages, map[]).value, IndexNodes(metadata.nodes)), t)
    requires forall p | p in Labels([t]) :: p in metadata.packages && Printable(p)
    requires |lines| == |Items([t], 0)| <= 100000
    requires forall i | 0 <= i < |lines| :: Prints(lines[i], Items([t], 0)[i])
    ensures RuntimeGraphOf(metadata, lines).Ok?
    ensures var g := RuntimeGraphOf(metadata, lines).value;
            IsGraphOf(t, Some(g.root), g.visited, g.edges) && VisitedFrom(g.visited, Labels([t]))
  {
    var tables := Tables(Index(metadata.packages, map[]).value, IndexNodes(metadata.nodes));
    var items := Items([t], 0);
    ItemsLabels([t], 0);
    forall i | 0 <= i < |lines| ensures ReadItem(tables, lines[i]) == Ok(items[i]) {
      assert items[i] in items;
      PrintedReads(tables, metadata.packages, lines[i], items[i]);
    }
    WalkLinesItems(tables, START, lines, items);
    WalkTree(tables, t);
    WalkVisits(tables, START, items, Labels([t]));
    ItemsStart([t], 0);
  }

  /**
   * Conversely, whatever listing is accepted, it is the listing of one tree of declared normal
   * dependencies below the provider, and the result is that tree's graph.
   */
  lemma AcceptedIsATree(metadata: Metadata, lines: seq<string>) returns (t: Tree)
    requires RuntimeGraphOf(metadata, lines).Ok?
    ensures var tables := Tables(Index(metadata.packages, map[]).value, IndexNodes(metadata.nodes));
            AcceptableTree(tables, t) && ReadsAs(tables, lines, Items([t], 0))
    ensures var g := RuntimeGraphOf(metadata, lines).value;
            IsGraphOf(t, Some(g.root), g.visited, g.edges) && VisitedFrom(g.visited, Labels([t]))
  {
    var tables := Tables(Index(metadata.packages, map[]).value, IndexNodes(metadata.nodes));
    var items := AcceptedReads(tables, START, lines);
    WalkLinesItems(tables, START, lines, items);
    t := AcceptedIsListing(tables, items);
    WalkTree(tables, t);
    ItemsLabels([t], 0);
    WalkVisits(tables, START, items, Labels([t]));
  }

  // ---------- Eliding repeated subtrees ----------

  function Heads(ts: seq<Tree>): seq<Package> {
    if ts == [] then [] else [ts[0].head] + Heads(ts[1..])
  }

  /** Every node of the forest shows either all the dependencies `g` gives its label, or none. */
  predicate Unfolds(g: Package -> seq<Package>, ts: seq<Tree>)
    decreases ts
  {
    ts == [] || (
      && (ts[0].children == [] || Heads(ts[0].children) == g(ts[0].head))
      && Unfolds(g, ts[0].children)
      && Unfolds(g, ts[1..]))
  }

  /** The labels that some node shows in full. */
  function Expanded(g: Package -> seq<Package>, ts: seq<Tree>): set<Package>
    decreases ts
  {
    if ts == [] then {}
    else (if Heads(ts[0].children) == g(ts[0].head) then {ts[0].head} else {})
         + Expanded(g, ts[0].children) + Expanded(g, ts[1..])
  }

  /** A listing of `g` in which every label that occurs is printed in full at least once. */
  predicate Complete(g: Package -> seq<Package>, t: Tree) {
    Unfolds(g, [t]) && Labels([t]) <= Expanded(g, [t])
  }

  lemma {:induction false} HeadsAreLabels(ts: seq<Tree>)
    ensures forall p :: p in Heads(ts) ==> p in Labels(ts)
  {
    if ts != [] {
      HeadsAreLabels(ts[1..]);
    }
  }

  lemma {:induction false} ExpandedAreLabels(g: Package -> seq<Package>, ts: seq<Tree>)
    ensures Expanded(g, ts) <= Labels(ts)
    decreases ts
  {
    if ts != [] {
      ExpandedAreLabels(g, ts[0].children);
      ExpandedAreLabels(g, ts[1..]);
    }
  }

  /** What an expanded label depends on occurs in the forest too. */
  lemma {:induction false} ExpandedClosed(g: Package -> seq<Package>, ts: seq<Tree>)
    ensures forall p, c :: p in Expanded(g, ts) && c in g(p) ==> c in Labels(ts)
    decreases ts
  {
    if ts != [] {
      ExpandedClosed(g, ts[0].children);
      ExpandedClosed(g, ts[1..]);
      HeadsAreLabels(ts[0].children);
    }
  }

  /** A set closed under `g` that holds the roots holds every label. */
  lemma {:induction false} LabelsWithin(g: Package -> seq<Package>, ts: seq<Tree>, closed: set<Package>)
    requires Unfolds(g, ts)
    requires forall p | p in Heads(ts) :: p in closed
    requires forall p, c :: p in closed && c in g(p) ==> c in closed
    ensures Labels(ts) <= closed
    decreases ts
  {
    if ts != [] {
      var t := ts[0];
      assert t.head in Heads(ts);
      forall p | p in Heads(t.children) ensures p in closed {
        if t.children != [] {
          assert p in g(t.head);
        }
      }
      LabelsWithin(g, t.children, closed);
      LabelsWithin(g, ts[1..], closed);
    }
  }

  ghost predicate GraphEdge(g: Package -> seq<Package>, from: set<Package>, e: (string, string)) {
    exists p, c :: p in from && c in g(p) && e == (p.id, c.id)
  }

  predicate RootEdge(parent: string, heads: seq<Package>, e: (string, string)) {
    exists c | c in heads :: e == (parent, c.id)
  }

  /** The edges printed below a forest are those of its expanded labels, plus one to each root. */
  lemma {:induction false} UnfoldedEdges(g: Package -> seq<Package>, parent: string, ts: seq<Tree>, e: (string, string))
    requires Unfolds(g, ts)
    ensures e in EdgesUnder(parent, ts) <==> RootEdge(parent, Heads(ts), e) || GraphEdge(g, Expanded(g, ts), e)
    decreases ts
  {
    if ts != [] {
      var t, rest := ts[0], ts[1..];
      UnfoldedEdges(g, t.head.id, t.children, e);
      UnfoldedEdges(g, parent, rest, e);
      var own: set<Package> := if Heads(t.children) == g(t.head) then {t.head} else {};
      assert Expanded(g, ts) == own + Expanded(g, t.children) + Expanded(g, rest);
      assert RootEdge(parent, Heads(ts), e) <==> e == (parent, t.head.id) || RootEdge(parent, Heads(rest), e) by {
        assert Heads(ts) == [t.head] + Heads(rest);
        assert t.head in Heads(ts);
      }
      assert RootEdge(t.head.id, Heads(t.children), e) <==> GraphEdge(g, own, e) by {
        if RootEdge(t.head.id, Heads(t.children), e) {
          var c :| c in Heads(t.children) && e == (t.head.id, c.id);
          assert t.head in own && c in g(t.head);
        }
      }
      GraphEdgeUnion(g, own, Expanded(g, t.children), e);
      GraphEdgeUnion(g, own + Expanded(g, t.children), Expanded(g, rest), e);
    }
  }

  lemma GraphEdgeUnion(g: Package -> seq<Package>, a: set<Package>, b: set<Package>, e: (string, string))
    ensures GraphEdge(g, a + b, e) <==> GraphEdge(g, a, e) || GraphEdge(g, b, e)
  {
    if GraphEdge(g, a, e) {
      var p, c :| p in a && c in g(p) && e == (p.id, c.id);
      assert p in a + b;
    }
    if GraphEdge(g, b, e) {
      var p, c :| p in b && c in g(p) && e == (p.id, c.id);
      assert p in a + b;
    }
  }

  lemma CompleteLabels(g: Package -> seq<Package>, t: Tree, u: Tree)
    requires Complete(g, t) && Complete(g, u) && t.head == u.head
    ensures Labels([t]) <= Labels([u])
  {
    ExpandedClosed(g, [u]);
    ExpandedAreLabels(g, [u]);
    assert Heads([t]) == [t.head] + Heads([t][1..]);
    assert u.head in Labels([u]);
    LabelsWithin(g, [t], Labels([u]));
  }

  lemma CompleteEdges(g: Package -> seq<Package>, t: Tree, e: (string, string))
    requires Complete(g, t)
    ensures e in TreeEdges(t) <==> GraphEdge(g, Labels([t]), e)
  {
    ExpandedAreLabels(g, [t]);
    UnfoldedEdges(g, t.head.id, t.children, e);
    var own: set<Package> := if Heads(t.children) == g(t.head) then {t.head} else {};
    assert [t][1..] == [];
    assert Expanded(g, [t]) == own + Expanded(g, t.children) + {};
    assert Expanded(g, [t]) == own + Expanded(g, t.children);
    GraphEdgeUnion(g, own, Expanded(g, t.children), e);
    assert t.head in Labels([t]);
    if RootEdge(t.head.id, Heads(t.children), e) {
      var c :| c in Heads(t.children) && e == (t.head.id, c.id);
      assert t.children != [];
      assert t.head in own && c in g(t.head);
    }
    if GraphEdge(g, own, e) {
      var p, c :| p in own && c in g(p) && e == (p.id, c.id);
      assert c in Heads(t.children);
    }
  }

  /**
   * Leaving out the children of a repeated package changes nothing, as long as each package
   * that occurs is printed in full somewhere: any two such listings of one dependency graph
   * with the same root have the same labels and the same edges.
   */
  lemma ElisionPreserves(g: Package -> seq<Package>, t: Tree, u: Tree)
    requires Complete(g, t) && Complete(g, u) && t.head == u.head
    ensures Labels([t]) == Labels([u]) && TreeEdges(t) == TreeEdges(u)
  {
    CompleteLabels(g, t, u);
    CompleteLabels(g, u, t);
    forall e ensures e in TreeEdges(t) <==> e in TreeEdges(u) {
      CompleteEdges(g, t, e);
      CompleteEdges(g, u, e);
    }
  }

  lemma EdgesDetermined(a: map<string, set<string>>, b: map<string, set<string>>)
    requires a.Keys == b.Keys && Pairs(a) == Pairs(b)
    ensures a == b
  {
    forall k | k in a ensures a[k] == b[k] {
      forall c ensures c in a[k] <==> c in b[k] {
        assert c in a[k] <==> (k, c) in Pairs(a);
        assert c in b[k] <==> (k, c) in Pairs(b);
      }
    }
  }

  lemma LabelsOfRoot(t: Tree)
    ensures Labels([t]) == {t.head} + Labels(t.children)
  {
    assert [t][1..] == [] && Labels([t][1..]) == {};
  }

  /** An elided listing is acceptable whenever the full one is, since it has the same labels and edges. */
  lemma ElidedIsAcceptable(tables: Tables, g: Package -> seq<Package>, t: Tree, u: Tree)
    requires Complete(g, t) && Complete(g, u) && t.head == u.head
    requires AcceptableTree(tables, t)
    ensures AcceptableTree(tables, u)
  {
    ElisionPreserves(g, t, u);
    LabelsOfRoot(t);
    LabelsOfRoot(u);
    forall p | p in Labels(u.children) ensures p.id in tables.nodes {
      assert p in Labels([t]);
    }
  }

  /** The program, on lines that read as the listing of a tree within the line limit. */
  lemma ListingAccepted(metadata: Metadata, t: Tree, lines: seq<string>)
    requires Index(metadata.packages, map[]).Ok? && |lines| <= 100000
    requires ReadsAs(Tables(Index(metadata.packages, map[]).value, IndexNodes(metadata.nodes)), lines, Items([t], 0))
    ensures RuntimeGraphOf(metadata, lines).Ok? <==>
            AcceptableTree(Tables(Index(metadata.packages, map[]).value, IndexNodes(metadata.nodes)), t)
    ensures var r := RuntimeGraphOf(metadata, lines);
            r.Ok? ==>
              && IsGraphOf(t, Some(r.value.root), r.value.visited, r.value.edges)
              && VisitedFrom(r.value.visited, Labels([t]))
  {
    var tables := Tables(Index(metadata.packages, map[]).value, IndexNodes(metadata.nodes));
    WalkLinesItems(tables, START, lines, Items([t], 0));
    WalkTree(tables, t);
    ItemsStart([t], 0);
    ItemsLabels([t], 0);
    if WalkItems(tables, START, Items([t], 0)).Ok? {
      WalkVisits(tables, START, Items([t], 0), Labels([t]));
    }
  }

  predicate DistinctIds(packages: set<Package>) {
    forall p, q | p in packages && q in packages && p.id == q.id :: p == q
  }

  lemma VisitedDetermined(a: map<string, Package>, b: map<string, Package>, packages: set<Package>)
    requires VisitedFrom(a, packages) && VisitedFrom(b, packages) && a.Keys == b.Keys && DistinctIds(packages)
    ensures a == b
  {
    forall id | id in a ensures a[id] == b[id] {
      assert id in b;
    }
  }

  /**
   * The program accepts an elided listing exactly when it accepts the full one, and then gives
   * the same graph for both: the same root, edges and visited ids, and, if no two packages share
   * an id, the same visited packages.
   */
  lemma ElidedListingsAgree(metadata: Metadata, g: Package -> seq<Package>, t: Tree, u: Tree, full: seq<string>, elided: seq<string>)
    requires Complete(g, t) && Complete(g, u) && t.head == u.head
    requires Index(metadata.packages, map[]).Ok? && |full| <= 100000 && |elided| <= 100000
    requires var tables := Tables(Index(metadata.packages, map[]).value, IndexNodes(metadata.nodes));
             ReadsAs(tables, full, Items([t], 0)) && ReadsAs(tables, elided, Items([u], 0))
    ensures RuntimeGraphOf(metadata, full).Ok? <==> RuntimeGraphOf(metadata, elided).Ok?
    ensures RuntimeGraphOf(metadata, full).Ok? ==>
              var a, b := RuntimeGraphOf(metadata, full).value, RuntimeGraphOf(metadata, elided).value;
              && a.root == b.root && a.edges == b.edges && a.visited.Keys == b.visited.Keys
              && (DistinctIds(Labels([t])) ==> a == b)
  {
    var tables := Tables(Index(metadata.packages, map[]).value, IndexNodes(metadata.nodes));
    ListingAccepted(metadata, t, full);
    ListingAccepted(metadata, u, elided);
    ElisionPreserves(g, t, u);
    if AcceptableTree(tables, t) {
      ElidedIsAcceptable(tables, g, t, u);
      var a, b := RuntimeGraphOf(metadata, full).value, RuntimeGraphOf(metadata, elided).value;
      EdgesDetermined(a.edges, b.edges);
      if DistinctIds(Labels([t])) {
        VisitedDetermined(a.visited, b.visited, Labels([t]));
      }
    } else if AcceptableTree(tables, u) {
      ElidedIsAcceptable(tables, g, u, t);
    }
  }

  // ---------- The stack is a path ----------

  predicate IsPath(edges: map<string, set<string>>, path: seq<string>) {
    forall i | 0 <= i < |path| - 1 :: path[i] in edges && path[i + 1] in edges[path[i]]
  }

  predicate PathTo(edges: map<string, set<string>>, root: string, x: string, path: seq<string>) {
    path != [] && path[0] == root && path[|path| - 1] == x && IsPath(edges, path)
  }

  ghost predicate Reaches(edges: map<string, set<string>>, root: string, x: string) {
    exists path :: PathTo(edges, root, x, path)
  }

  /** Every edge stays inside the visited set and is a declared normal dependency. */
  predicate EdgesDeclared(tables: Tables, w: Walk) {
    && w.edges.Keys == w.visited.Keys
    && forall k, c | k in w.edges && c in w.edges[k] :: c in w.visited && Declared(tables, k, c)
  }

  /** The stack is a path of recorded edges from the root; every visited package is reachable. */
  ghost predicate StackIsPath(w: Walk) {
    if w.root.None? then w == START
    else
      && w.stack != [] && w.stack[0] == w.root.value && IsPath(w.edges, w.stack)
      && (forall x | x in w.stack :: x in w.visited)
      && (forall x | x in w.visited :: Reaches(w.edges, w.root.value, x))
  }

  ghost predicate WalkInv(tables: Tables, w: Walk) {
    StackIsPath(w) && EdgesDeclared(tables, w)
  }

  lemma ReachesMore(edges: map<string, set<string>>, more: map<string, set<string>>, root: string, x: string)
    requires Reaches(edges, root, x)
    requires Grows(edges, more)
    ensures Reaches(more, root, x)
  {
    var path :| PathTo(edges, root, x, path);
    assert PathTo(more, root, x, path);
  }

  predicate Grows(edges: map<string, set<string>>, more: map<string, set<string>>) {
    forall k | k in edges :: k in more && edges[k] <= more[k]
  }

  lemma PathExtends(edges: map<string, set<string>>, more: map<string, set<string>>, stack: seq<string>, d: nat, id: string)
    requires 0 < d <= |stack| && IsPath(edges, stack) && Grows(edges, more)
    requires stack[d - 1] in more && id in more[stack[d - 1]]
    ensures PathTo(more, stack[0], id, stack[..d] + [id])
  {
    var path := stack[..d] + [id];
    forall i | 0 <= i < |path| - 1 ensures path[i] in more && path[i + 1] in more[path[i]] {
      assert path[i] == stack[i];
      if i < d - 1 {
        assert path[i + 1] == stack[i + 1];
      }
    }
  }

  lemma PushRootKeepsPath(tables: Tables, item: Item)
    requires Push(tables, START, item).Ok? && item.depth == 0
    ensures WalkInv(tables, Push(tables, START, item).value)
  {
    var w', id := Push(tables, START, item).value, item.package.id;
    assert w'.stack == [id] && w'.edges == map[id := {}];
    assert PathTo(w'.edges, id, id, [id]);
  }

  lemma PushKeepsEdges(tables: Tables, w: Walk, item: Item)
    requires EdgesDeclared(tables, w) && Push(tables, w, item).Ok? && item.depth > 0
    requires w.stack[item.depth - 1] in w.visited
    ensures EdgesDeclared(tables, Push(tables, w, item).value)
  {
  }

  lemma PushKeepsStack(tables: Tables, w: Walk, item: Item)
    requires StackIsPath(w) && w.edges.Keys == w.visited.Keys && Push(tables, w, item).Ok? && item.depth > 0
    ensures StackIsPath(Push(tables, w, item).value)
  {
    var w', id := Push(tables, w, item).value, item.package.id;
    var root, parent := w.root.value, w.stack[item.depth - 1];
    assert parent in w.stack;
    assert Grows(w.edges, w'.edges);
    PathExtends(w.edges, w'.edges, w.stack, item.depth, id);
    forall x | x in w'.visited ensures Reaches(w'.edges, root, x) {
      if x == id {
        assert PathTo(w'.edges, root, id, w'.stack);
      } else {
        ReachesMore(w.edges, w'.edges, root, x);
      }
    }
    forall x | x in w'.stack ensures x in w'.visited {
      assert x == id || x in w.stack;
    }
  }

  lemma PushKeepsPath(tables: Tables, w: Walk, item: Item)
    requires WalkInv(tables, w) && Push(tables, w, item).Ok?
    ensures WalkInv(tables, Push(tables, w, item).value)
    ensures Push(tables, w, item).value.stack == w.stack[..item.depth] + [item.package.id]
  {
    if item.depth == 0 {
      PushRootKeepsPath(tables, item);
    } else {
      assert w.stack[item.depth - 1] in w.stack;
      PushKeepsEdges(tables, w, item);
      PushKeepsStack(tables, w, item);
    }
  }

  /** The invariant holds after every prefix of every listing, however the listing continues. */
  lemma {:induction false} StackIsAlwaysAPath(tables: Tables, w: Walk, lines: seq<string>)
    requires WalkInv(tables, w) && WalkLines(tables, w, lines).Ok?
    ensures WalkInv(tables, WalkLines(tables, w, lines).value)
    decreases |lines|
  {
    if lines != [] {
      var item := ReadItem(tables, lines[0]).value;
      PushKeepsPath(tables, w, item);
      StackIsAlwaysAPath(tables, Push(tables, w, item).value, lines[1..]);
    }
  }

  /**
   * In every accepted graph each visited package is reachable from the single root along
   * recorded edges, and each edge joins visited packages and is a declared normal dependency.
   */
  lemma AcceptedGraphIsReachable(metadata: Metadata, lines: seq<string>)
    requires RuntimeGraphOf(metadata, lines).Ok?
    ensures var tables := Tables(Index(metadata.packages, map[]).value, IndexNodes(metadata.nodes));
            var g := RuntimeGraphOf(metadata, lines).value;
            && (forall x | x in g.visited :: Reaches(g.edges, g.root, x))
            && g.edges.Keys == g.visited.Keys
            && (forall k, c | k in g.edges && c in g.edges[k] :: c in g.visited && Declared(tables, k, c))
  {
    var tables := Tables(Index(metadata.packages, map[]).value, IndexNodes(metadata.nodes));
    StackIsAlwaysAPath(tables, START, lines);
  }
}
