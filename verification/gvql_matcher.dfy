/** Enumerating the bindings of graph patterns. */
module GvqlMatcher {
  import opened EncodedGraph
  import opened GvqlValues
  import opened GvqlExpressions
  import opened GvqlIndex
  import opened Folding

  datatype NodePattern = NodePattern(alias: string, typeName: Option<string>)

  datatype Direction = Outward | Inward

  datatype Link = Link(direction: Direction, tag: Option<string>, node: NodePattern)

  datatype Pattern = Pattern(start: NodePattern, chain: seq<Link>)

  /** A `MATCH` or `OPTIONAL MATCH` pattern. */
  datatype Clause = Clause(pattern: Pattern, optional: bool)

  /** `previousAlias`: the alias the link at `i` starts from. */
  function PreviousAlias(p: Pattern, i: nat): string
    requires i < |p.chain|
  {
    if i == 0 then p.start.alias else p.chain[i - 1].node.alias
  }

  predicate MatchesType(nodes: map<ObjectId, EncodedNode>, id: ObjectId, typeName: Option<string>) {
    typeName.None? || (id in nodes && TypeOf(nodes[id]) == typeName)
  }

  function Far(link: Link, e: Edge): ObjectId {
    if link.direction.Outward? then e.to else e.from
  }

  predicate TagAllows(tag: Option<string>, path: string) {
    tag.None? || EdgeLabel(path) == tag.value || path == tag.value
  }

  predicate EdgeAllowed(tag: Option<string>, x: Edge) {
    tag.None? || x.tag == tag.value || x.path == tag.value
  }

  predicate Accepts(nodes: map<ObjectId, EncodedNode>, b: Binding, link: Link, e: Edge) {
    && EdgeAllowed(link.tag, e)
    && MatchesType(nodes, Far(link, e), link.node.typeName)
    && (link.node.alias in b ==> b[link.node.alias] == Far(link, e))
  }

  function Follow(nodes: map<ObjectId, EncodedNode>, b: Binding, link: Link, es: seq<Edge>): seq<Binding> {
    if es == [] then []
    else
      var last := es[|es| - 1];
      Follow(nodes, b, link, es[..|es| - 1]) +
      (if Accepts(nodes, b, link, last) then [b[link.node.alias := Far(link, last)]] else [])
  }

  function EdgesAt(ix: GraphIndex, link: Link, id: ObjectId): seq<Edge> {
    Bucket(if link.direction.Outward? then ix.outgoing else ix.incoming, id)
  }

  function Expand(ix: GraphIndex, previous: string, link: Link, b: Binding): seq<Binding> {
    if previous in b then Follow(ix.nodes, b, link, EdgesAt(ix, link, b[previous])) else []
  }

  function Expander(ix: GraphIndex, previous: string, link: Link): Binding -> seq<Binding> {
    (b: Binding) => Expand(ix, previous, link, b)
  }

  function ConcatMap(bs: seq<Binding>, f: Binding -> seq<Binding>): seq<Binding> {
    if bs == [] then [] else ConcatMap(bs[..|bs| - 1], f) + f(bs[|bs| - 1])
  }

  function Traverse(ix: GraphIndex, p: Pattern, n: nat, bs: seq<Binding>): seq<Binding>
    requires n <= |p.chain|
  {
    if n == 0 then bs
    else ConcatMap(Traverse(ix, p, n - 1, bs), Expander(ix, PreviousAlias(p, n - 1), p.chain[n - 1]))
  }

  function Starts(ix: GraphIndex, start: NodePattern, b: Binding, ids: seq<ObjectId>,
                  selected: seq<ObjectId>): seq<Binding> {
    if ids == [] then []
    else
      var last := ids[|ids| - 1];
      Starts(ix, start, b, ids[..|ids| - 1], selected) +
      (if last in selected && MatchesType(ix.nodes, last, start.typeName) then [b[start.alias := last]] else [])
  }

  function FirstBindings(ix: GraphIndex, p: Pattern, b: Binding, selected: seq<ObjectId>): seq<Binding> {
    Starts(ix, p.start, b, if p.start.alias in b then [b[p.start.alias]] else selected, selected)
  }

  /** All ways one input binding extends along the pattern. */
  function MatchOne(ix: GraphIndex, p: Pattern, b: Binding, selected: seq<ObjectId>): seq<Binding> {
    Traverse(ix, p, |p.chain|, FirstBindings(ix, p, b, selected))
  }

  function MatchInput(ix: GraphIndex, c: Clause, b: Binding, selected: seq<ObjectId>): seq<Binding> {
    var matched := MatchOne(ix, c.pattern, b, selected);
    if matched == [] && c.optional then [b] else matched
  }

  function Matcher(ix: GraphIndex, c: Clause, selected: seq<ObjectId>): Binding -> seq<Binding> {
    (b: Binding) => MatchInput(ix, c, b, selected)
  }

  /** The bindings after the first `n` clauses, `run` expanding one binding along one clause. */
  function RunClauses(clauses: seq<Clause>, run: Clause -> Binding -> seq<Binding>, n: nat): seq<Binding>
    requires n <= |clauses|
  {
    if n == 0 then [map[]] else ConcatMap(RunClauses(clauses, run, n - 1), run(clauses[n - 1]))
  }

  /** What a choice per start pattern gives for a clause. */
  function AtStart<T>(choice: NodePattern -> T, c: Clause): T {
    choice(c.pattern.start)
  }

  function Matching(ix: GraphIndex, select: NodePattern -> seq<ObjectId>): Clause -> Binding -> seq<Binding> {
    (c: Clause) => Matcher(ix, c, AtStart(select, c))
  }

  /** Each clause matched from the candidates selected for its start. */
  function MatchClauses(ix: GraphIndex, clauses: seq<Clause>, select: NodePattern -> seq<ObjectId>,
                        n: nat): seq<Binding>
    requires n <= |clauses|
  {
    RunClauses(clauses, Matching(ix, select), n)
  }

  lemma Chopped<T>(s: seq<T>, i: nat)
    requires i < |s|
    ensures s[..i + 1][..i] == s[..i] && s[..i + 1][i] == s[i] && |s[..i + 1]| == i + 1
  {
  }

  /** `traversePatternChain`. */
  method TraversePatternChain(ix: GraphIndex, p: Pattern, bs: seq<Binding>) returns (r: seq<Binding>)
    ensures r == Traverse(ix, p, |p.chain|, bs)
  {
    r := bs;
    for n := 0 to |p.chain|
      invariant r == Traverse(ix, p, n, bs)
    {
      r := ExpandAll(ix, PreviousAlias(p, n), p.chain[n], r);
    }
  }

  method ExpandAll(ix: GraphIndex, previous: string, link: Link, bs: seq<Binding>) returns (next: seq<Binding>)
    ensures next == ConcatMap(bs, Expander(ix, previous, link))
  {
    next := [];
    for j := 0 to |bs|
      invariant next == ConcatMap(bs[..j], Expander(ix, previous, link))
    {
      Chopped(bs, j);
      next := ExpandOne(ix, previous, link, bs[j], next);
    }
    assert bs[..|bs|] == bs;
  }

  /** Pushes the rows one binding gets from the link. */
  method ExpandOne(ix: GraphIndex, previous: string, link: Link, b: Binding, rows: seq<Binding>)
    returns (next: seq<Binding>)
    ensures next == rows + Expand(ix, previous, link, b)
  {
    next := rows;
    if previous !in b {
      return;
    }
    var es := EdgesAt(ix, link, b[previous]);
    for k := 0 to |es|
      invariant next == rows + Follow(ix.nodes, b, link, es[..k])
    {
      Chopped(es, k);
      if Accepts(ix.nodes, b, link, es[k]) {
        next := next + [b[link.node.alias := Far(link, es[k])]];
      }
    }
    assert es[..|es|] == es;
  }

  method FindStarts(ix: GraphIndex, start: NodePattern, b: Binding, selected: seq<ObjectId>) returns (bs: seq<Binding>)
    ensures bs == Starts(ix, start, b, if start.alias in b then [b[start.alias]] else selected, selected)
  {
    var ids := if start.alias in b then [b[start.alias]] else selected;
    bs := [];
    for k := 0 to |ids|
      invariant bs == Starts(ix, start, b, ids[..k], selected)
    {
      Chopped(ids, k);
      if ids[k] in selected && MatchesType(ix.nodes, ids[k], start.typeName) {
        bs := bs + [b[start.alias := ids[k]]];
      }
    }
    assert ids[..|ids|] == ids;
  }

  /** `matchPattern`. */
  method MatchPattern(ix: GraphIndex, c: Clause, inputs: seq<Binding>, selected: seq<ObjectId>)
    returns (matched: seq<Binding>)
    ensures matched == ConcatMap(inputs, Matcher(ix, c, selected))
  {
    matched := [];
    for j := 0 to |inputs|
      invariant matched == ConcatMap(inputs[..j], Matcher(ix, c, selected))
    {
      Chopped(inputs, j);
      var bs := FindStarts(ix, c.pattern.start, inputs[j], selected);
      bs := TraversePatternChain(ix, c.pattern, bs);
      if bs != [] {
        matched := matched + bs;
      } else if c.optional {
        matched := matched + [inputs[j]];
      }
    }
    assert inputs[..|inputs|] == inputs;
  }

  // What a binding means, without enumeration.

  predicate Extends(b: Binding, b': Binding) {
    forall x | x in b :: x in b' && b'[x] == b[x]
  }

  function AliasesTo(p: Pattern, n: nat): set<string>
    requires n <= |p.chain|
  {
    {p.start.alias} + set i | 0 <= i < n :: p.chain[i].node.alias
  }

  function Aliases(p: Pattern): set<string> {
    AliasesTo(p, |p.chain|)
  }

  /** Node `from` holds a reference to `to` at a position the label allows. */
  predicate Refers(nodes: map<ObjectId, EncodedNode>, from: ObjectId, to: ObjectId, tag: Option<string>) {
    from in nodes && exists v | v in Visits(nodes[from]) :: v.value == Ref(to) && TagAllows(tag, v.path)
  }

  predicate LinkHolds(nodes: map<ObjectId, EncodedNode>, b: Binding, previous: string, link: Link) {
    && previous in b && link.node.alias in b
    && MatchesType(nodes, b[link.node.alias], link.node.typeName)
    && if link.direction.Outward? then Refers(nodes, b[previous], b[link.node.alias], link.tag)
       else Refers(nodes, b[link.node.alias], b[previous], link.tag)
  }

  predicate StartHolds(nodes: map<ObjectId, EncodedNode>, b: Binding, start: NodePattern, selected: seq<ObjectId>) {
    start.alias in b && b[start.alias] in selected && MatchesType(nodes, b[start.alias], start.typeName)
  }

  /** `b` makes the start and the first `n` links of the pattern true. */
  predicate PatternHolds(nodes: map<ObjectId, EncodedNode>, b: Binding, p: Pattern, n: nat, selected: seq<ObjectId>)
    requires n <= |p.chain|
  {
    StartHolds(nodes, b, p.start, selected) && forall i {:trigger PreviousAlias(p, i)} | 0 <= i < n ::
        LinkHolds(nodes, b, PreviousAlias(p, i), p.chain[i])
  }

  /** `b'` adds to `b` exactly the pattern's aliases, and makes the pattern true. */
  ghost predicate Satisfies(nodes: map<ObjectId, EncodedNode>, p: Pattern, n: nat, b: Binding, b': Binding,
                            selected: seq<ObjectId>)
    requires n <= |p.chain|
  {
    forall u {:trigger Unfold(u)} | Unfold(u) ::
      Extends(b, b') && b'.Keys == b.Keys + AliasesTo(p, n) && PatternHolds(nodes, b', p, n, selected)
  }

  lemma {:induction false} ConcatMapMember(bs: seq<Binding>, f: Binding -> seq<Binding>, x: Binding)
    ensures x in ConcatMap(bs, f) <==> exists b | b in bs :: x in f(b)
    decreases |bs|
  {
    if bs != [] {
      ConcatMapMember(bs[..|bs| - 1], f, x);
      assert bs == bs[..|bs| - 1] + [bs[|bs| - 1]];
    }
  }

  lemma {:induction false} FollowMember(nodes: map<ObjectId, EncodedNode>, b: Binding, link: Link, es: seq<Edge>,
                                        x: Binding)
    ensures x in Follow(nodes, b, link, es) <==>
            exists e | e in es :: Accepts(nodes, b, link, e) && x == b[link.node.alias := Far(link, e)]
    decreases |es|
  {
    if es != [] {
      FollowMember(nodes, b, link, es[..|es| - 1], x);
      assert es == es[..|es| - 1] + [es[|es| - 1]];
    }
  }

  lemma {:induction false} StartsMember(ix: GraphIndex, start: NodePattern, b: Binding, ids: seq<ObjectId>,
                                        selected: seq<ObjectId>, x: Binding)
    ensures x in Starts(ix, start, b, ids, selected) <==>
            exists id | id in ids ::
              id in selected && MatchesType(ix.nodes, id, start.typeName) && x == b[start.alias := id]
    decreases |ids|
  {
    if ids != [] {
      StartsMember(ix, start, b, ids[..|ids| - 1], selected, x);
      assert ids == ids[..|ids| - 1] + [ids[|ids| - 1]];
    }
  }

  /** The edge index is the graph's: edges are the references of the nodes, incoming the transpose of outgoing. */
  ghost predicate EdgesFaithful(ix: GraphIndex, nodes: map<ObjectId, EncodedNode>) {
    && (forall id, x | x in Bucket(ix.outgoing, id) :: x.from == id)
    && (forall id, x | x in Bucket(ix.incoming, id) :: x.to == id)
    && (forall x: Edge :: x in Bucket(ix.incoming, x.to) <==> x in Bucket(ix.outgoing, x.from))
    && (forall x: Edge :: x in Bucket(ix.outgoing, x.from) <==>
         x.from in nodes && x.tag == EdgeLabel(x.path) && Visit(x.path, Ref(x.to)) in Visits(nodes[x.from]))
  }

  ghost predicate GraphOf(ix: GraphIndex, nodes: map<ObjectId, EncodedNode>) {
    ix.nodes == nodes && forall u {:trigger Unfold(u)} | Unfold(u) :: EdgesFaithful(ix, nodes)
  }

  /** The built index satisfies what matching relies on. */
  lemma IndexIsGraph(ix: GraphIndex, e: Envelope, order: seq<ObjectId>, mode: PropertyMode, valueKey: JsValue -> string)
    requires IndexOf(ix, e, order, mode, valueKey)
    ensures GraphOf(ix, e.nodes)
  {
    EdgesAreGraph(ix, e.nodes, order);
  }

  lemma EdgesAreGraph(ix: GraphIndex, nodes: map<ObjectId, EncodedNode>, order: seq<ObjectId>)
    requires (forall id :: id in order <==> id in nodes) && EdgesIndexed(ix, order, nodes)
    ensures EdgesFaithful(ix, nodes)
  {
    forall x: Edge
      ensures x in Bucket(ix.incoming, x.to) <==> x in Bucket(ix.outgoing, x.from)
      ensures x in Bucket(ix.outgoing, x.from) <==>
                x.from in nodes && x.tag == EdgeLabel(x.path) && Visit(x.path, Ref(x.to)) in Visits(nodes[x.from])
    {
      IncomingIsTranspose(ix, nodes, order, x);
      EdgeWitnessed(ix, nodes, order, x);
    }
    forall id, x
      ensures x in Bucket(ix.outgoing, id) ==> x.from == id
      ensures x in Bucket(ix.incoming, id) ==> x.to == id
    {
      EdgesInMember(AllEdges(order, nodes), id, x);
    }
  }

  /** The index lists an edge at `near` exactly where one end refers to the other. */
  lemma EdgesAtRefers(ix: GraphIndex, nodes: map<ObjectId, EncodedNode>, link: Link, near: ObjectId, far: ObjectId)
    requires GraphOf(ix, nodes)
    ensures (exists x | x in EdgesAt(ix, link, near) :: Far(link, x) == far && EdgeAllowed(link.tag, x)) <==>
            (if link.direction.Outward? then Refers(nodes, near, far, link.tag) else Refers(nodes, far, near, link.tag))
  {
    var from, to := if link.direction.Outward? then near else far, if link.direction.Outward? then far else near;
    assert Unfold(true);
    forall x | x in EdgesAt(ix, link, near) && Far(link, x) == far && EdgeAllowed(link.tag, x)
      ensures Refers(nodes, from, to, link.tag)
    {
      assert x in Bucket(ix.outgoing, x.from);
      assert Visit(x.path, Ref(to)) in Visits(nodes[from]);
    }
    if Refers(nodes, from, to, link.tag) {
      var v :| v in Visits(nodes[from]) && v.value == Ref(to) && TagAllows(link.tag, v.path);
      var x := Edge(from, to, v.path, EdgeLabel(v.path));
      assert v == Visit(x.path, Ref(to));
      assert x in Bucket(ix.outgoing, x.from) && x in Bucket(ix.incoming, x.to);
      assert x in EdgesAt(ix, link, near) && EdgeAllowed(link.tag, x);
    }
  }

  /** One link: `x` extends `b` to the link's alias, and the link holds. */
  lemma ExpandExact(ix: GraphIndex, nodes: map<ObjectId, EncodedNode>,
                    previous: string, link: Link, b: Binding, x: Binding)
    requires GraphOf(ix, nodes) && previous in b
    ensures x in Expand(ix, previous, link, b) <==>
            Extends(b, x) && x.Keys == b.Keys + {link.node.alias} && LinkHolds(nodes, x, previous, link)
  {
    var near, alias := b[previous], link.node.alias;
    var es := EdgesAt(ix, link, near);
    FollowMember(ix.nodes, b, link, es, x);
    if x in Expand(ix, previous, link, b) {
      var y :| y in es && Accepts(ix.nodes, b, link, y) && x == b[alias := Far(link, y)];
      EdgesAtRefers(ix, nodes, link, near, Far(link, y));
    }
    if Extends(b, x) && x.Keys == b.Keys + {alias} && LinkHolds(nodes, x, previous, link) {
      EdgesAtRefers(ix, nodes, link, near, x[alias]);
      var y :| y in es && Far(link, y) == x[alias] && EdgeAllowed(link.tag, y);
      assert x == b[alias := Far(link, y)];
    }
  }

  function Restrict(b: Binding, keys: set<string>): Binding {
    map x | x in b && x in keys :: b[x]
  }

  lemma LinkRestricts(nodes: map<ObjectId, EncodedNode>, b: Binding, b': Binding, previous: string, link: Link)
    requires Extends(b, b') && previous in b && link.node.alias in b
    ensures LinkHolds(nodes, b, previous, link) <==> LinkHolds(nodes, b', previous, link)
  {
  }

  lemma AliasesStep(p: Pattern, n: nat)
    requires 0 < n <= |p.chain|
    ensures AliasesTo(p, n) == AliasesTo(p, n - 1) + {p.chain[n - 1].node.alias}
    ensures PreviousAlias(p, n - 1) in AliasesTo(p, n - 1)
    ensures forall i {:trigger PreviousAlias(p, i)} | 0 <= i < n - 1 ::
              p.chain[i].node.alias in AliasesTo(p, n - 1) && PreviousAlias(p, i) in AliasesTo(p, n - 1)
  {
  }

  lemma PatternRestricts(nodes: map<ObjectId, EncodedNode>, b: Binding, b': Binding, p: Pattern, n: nat,
                         selected: seq<ObjectId>)
    requires n <= |p.chain| && Extends(b, b') && AliasesTo(p, n) <= b.Keys
    ensures PatternHolds(nodes, b, p, n, selected) <==> PatternHolds(nodes, b', p, n, selected)
  {
    forall i | 0 <= i < n
      ensures LinkHolds(nodes, b, PreviousAlias(p, i), p.chain[i]) <==>
              LinkHolds(nodes, b', PreviousAlias(p, i), p.chain[i])
    {
      assert p.chain[i].node.alias in AliasesTo(p, n) && PreviousAlias(p, i) in AliasesTo(p, n);
      LinkRestricts(nodes, b, b', PreviousAlias(p, i), p.chain[i]);
    }
  }

  lemma StartExact(ix: GraphIndex, p: Pattern, b: Binding, x: Binding, selected: seq<ObjectId>)
    ensures x in FirstBindings(ix, p, b, selected) <==> Satisfies(ix.nodes, p, 0, b, x, selected)
  {
    assert Unfold(true);
    var alias := p.start.alias;
    var ids := if alias in b then [b[alias]] else selected;
    StartsMember(ix, p.start, b, ids, selected, x);
    if Satisfies(ix.nodes, p, 0, b, x, selected) {
      assert x == b[alias := x[alias]];
      assert x[alias] in ids;
    }
  }

  lemma SatisfiesGrows(nodes: map<ObjectId, EncodedNode>, p: Pattern, n: nat, b: Binding, y: Binding, x: Binding,
                       selected: seq<ObjectId>)
    requires 0 < n <= |p.chain| && Satisfies(nodes, p, n - 1, b, y, selected)
    requires Extends(y, x) && x.Keys == y.Keys + {p.chain[n - 1].node.alias}
    requires LinkHolds(nodes, x, PreviousAlias(p, n - 1), p.chain[n - 1])
    ensures Satisfies(nodes, p, n, b, x, selected)
  {
    assert Unfold(true);
    AliasesStep(p, n);
    assert x.Keys == b.Keys + AliasesTo(p, n);
    PatternRestricts(nodes, y, x, p, n - 1, selected);
    PatternGrows(nodes, x, p, n, selected);
  }

  lemma PatternGrows(nodes: map<ObjectId, EncodedNode>, x: Binding, p: Pattern, n: nat, selected: seq<ObjectId>)
    requires 0 < n <= |p.chain| && PatternHolds(nodes, x, p, n - 1, selected)
    requires LinkHolds(nodes, x, PreviousAlias(p, n - 1), p.chain[n - 1])
    ensures PatternHolds(nodes, x, p, n, selected)
  {
  }

  lemma SatisfiesShrinks(nodes: map<ObjectId, EncodedNode>, p: Pattern, n: nat, b: Binding, x: Binding,
                         selected: seq<ObjectId>)
    returns (y: Binding)
    requires 0 < n <= |p.chain| && Satisfies(nodes, p, n, b, x, selected)
    ensures Satisfies(nodes, p, n - 1, b, y, selected)
    ensures Extends(y, x) && x.Keys == y.Keys + {p.chain[n - 1].node.alias} && PreviousAlias(p, n - 1) in y
    ensures LinkHolds(nodes, x, PreviousAlias(p, n - 1), p.chain[n - 1])
  {
    assert Unfold(true);
    AliasesStep(p, n);
    y := Restrict(x, b.Keys + AliasesTo(p, n - 1));
    assert y.Keys == b.Keys + AliasesTo(p, n - 1);
    PatternRestricts(nodes, y, x, p, n - 1, selected);
  }

  /** `bs` holds exactly the extensions of `b` that satisfy the start and the first `n` links. */
  ghost predicate ExactlyFrom(bs: seq<Binding>, nodes: map<ObjectId, EncodedNode>, p: Pattern, n: nat, b: Binding,
                              selected: seq<ObjectId>)
    requires n <= |p.chain|
  {
    forall x :: x in bs <==> Satisfies(nodes, p, n, b, x, selected)
  }

  lemma LinkStep(ix: GraphIndex, nodes: map<ObjectId, EncodedNode>, p: Pattern, n: nat, b: Binding,
                 selected: seq<ObjectId>,
                 before: seq<Binding>)
    requires GraphOf(ix, nodes) && 0 < n <= |p.chain| && ExactlyFrom(before, nodes, p, n - 1, b, selected)
    ensures ExactlyFrom(ConcatMap(before, Expander(ix, PreviousAlias(p, n - 1), p.chain[n - 1])), nodes, p, n, b,
                        selected)
  {
    var previous, link := PreviousAlias(p, n - 1), p.chain[n - 1];
    var f := Expander(ix, previous, link);
    forall x ensures x in ConcatMap(before, f) <==> Satisfies(nodes, p, n, b, x, selected) {
      ConcatMapMember(before, f, x);
      if y :| y in before && x in f(y) {
        ExpandExact(ix, nodes, previous, link, y, x);
        SatisfiesGrows(nodes, p, n, b, y, x, selected);
      }
      if Satisfies(nodes, p, n, b, x, selected) {
        var y := SatisfiesShrinks(nodes, p, n, b, x, selected);
        ExpandExact(ix, nodes, previous, link, y, x);
        assert y in before && x in f(y);
      }
    }
  }

  lemma {:induction false} TraverseExact(ix: GraphIndex, nodes: map<ObjectId, EncodedNode>, p: Pattern, n: nat,
                                         b: Binding,
                                         selected: seq<ObjectId>)
    requires GraphOf(ix, nodes) && n <= |p.chain|
    ensures ExactlyFrom(Traverse(ix, p, n, FirstBindings(ix, p, b, selected)), nodes, p, n, b, selected)
  {
    if n == 0 {
      forall x ensures x in FirstBindings(ix, p, b, selected) <==> Satisfies(nodes, p, 0, b, x, selected) {
        StartExact(ix, p, b, x, selected);
      }
    } else {
      TraverseExact(ix, nodes, p, n - 1, b, selected);
      LinkStep(ix, nodes, p, n, b, selected, Traverse(ix, p, n - 1, FirstBindings(ix, p, b, selected)));
    }
  }

  /**
   * A binding is returned exactly when it adds the pattern's aliases to its input and the graph witnesses every link.
   */
  lemma MatchOneExact(ix: GraphIndex, nodes: map<ObjectId, EncodedNode>,
                      p: Pattern, b: Binding, x: Binding, selected: seq<ObjectId>)
    requires GraphOf(ix, nodes)
    ensures x in MatchOne(ix, p, b, selected) <==> Satisfies(nodes, p, |p.chain|, b, x, selected)
  {
    TraverseExact(ix, nodes, p, |p.chain|, b, selected);
  }

  /** The aliases of the pattern's nodes, from left to right. */
  function NodeAliases(p: Pattern): seq<string> {
    [p.start.alias] + seq(|p.chain|, i requires 0 <= i < |p.chain| => p.chain[i].node.alias)
  }

  /** The bound nodes are a path of the graph: each link leads from the node left of it to the one right of it. */
  ghost predicate IsPath(nodes: map<ObjectId, EncodedNode>, p: Pattern, x: Binding) {
    && (forall a | a in NodeAliases(p) :: a in x)
    && forall i: nat | i < |p.chain| :: LinksPair(nodes, p, x, i)
  }

  ghost predicate LinksPair(nodes: map<ObjectId, EncodedNode>, p: Pattern, x: Binding, i: nat)
    requires i < |p.chain| && forall a | a in NodeAliases(p) :: a in x
  {
    var from, to, link := x[NodeAliases(p)[i]], x[NodeAliases(p)[i + 1]], p.chain[i];
    && MatchesType(nodes, to, link.node.typeName)
    && (link.direction.Outward? ==> Refers(nodes, from, to, link.tag))
    && (link.direction.Inward? ==> Refers(nodes, to, from, link.tag))
  }

  lemma AliasesFromLeft(p: Pattern, i: nat)
    requires i < |p.chain|
    ensures PreviousAlias(p, i) == NodeAliases(p)[i] && p.chain[i].node.alias == NodeAliases(p)[i + 1]
  {
  }

  lemma AliasMember(p: Pattern, a: string)
    ensures a in NodeAliases(p) <==> a in Aliases(p)
  {
    if i :| 0 <= i < |p.chain| && p.chain[i].node.alias == a {
      assert NodeAliases(p)[i + 1] == a;
    }
  }

  lemma LinksFromLeft(nodes: map<ObjectId, EncodedNode>, p: Pattern, x: Binding)
    requires forall a | a in NodeAliases(p) :: a in x
    ensures (forall i: nat | i < |p.chain| :: LinksPair(nodes, p, x, i)) <==>
            forall i {:trigger PreviousAlias(p, i)} | 0 <= i < |p.chain| ::
              LinkHolds(nodes, x, PreviousAlias(p, i), p.chain[i])
  {
    forall i: nat | i < |p.chain|
      ensures LinksPair(nodes, p, x, i) <==> LinkHolds(nodes, x, PreviousAlias(p, i), p.chain[i])
    {
      AliasesFromLeft(p, i);
      assert NodeAliases(p)[i] in NodeAliases(p) && NodeAliases(p)[i + 1] in NodeAliases(p);
    }
  }

  lemma BindsAliases(p: Pattern, b: Binding, x: Binding)
    ensures x.Keys == b.Keys + Aliases(p) <==> forall a :: a in x <==> a in b || a in NodeAliases(p)
  {
    forall a ensures a in NodeAliases(p) <==> a in Aliases(p) {
      AliasMember(p, a);
    }
  }

  /** So a pattern matches exactly the paths of the graph that start at a selected node and extend the input. */
  lemma MatchOnePaths(ix: GraphIndex, nodes: map<ObjectId, EncodedNode>, p: Pattern, b: Binding, x: Binding,
                      selected: seq<ObjectId>)
    requires GraphOf(ix, nodes)
    ensures x in MatchOne(ix, p, b, selected) <==>
            && Extends(b, x) && (forall a :: a in x <==> a in b || a in NodeAliases(p))
            && StartHolds(nodes, x, p.start, selected) && IsPath(nodes, p, x)
  {
    MatchOneExact(ix, nodes, p, b, x, selected);
    BindsAliases(p, b, x);
    assert Unfold(true);
    if forall a | a in NodeAliases(p) :: a in x {
      LinksFromLeft(nodes, p, x);
    }
  }

  /** An optional pattern keeps its input unchanged exactly when nothing satisfies the pattern. */
  lemma OptionalExact(ix: GraphIndex, nodes: map<ObjectId, EncodedNode>,
                      p: Pattern, b: Binding, x: Binding, selected: seq<ObjectId>)
    requires GraphOf(ix, nodes)
    ensures x in MatchInput(ix, Clause(p, true), b, selected) <==>
            Satisfies(nodes, p, |p.chain|, b, x, selected) ||
            (x == b && forall y :: !Satisfies(nodes, p, |p.chain|, b, y, selected))
  {
    forall y {:trigger Satisfies(nodes, p, |p.chain|, b, y, selected)}
      ensures y in MatchOne(ix, p, b, selected) <==> Satisfies(nodes, p, |p.chain|, b, y, selected)
    {
      MatchOneExact(ix, nodes, p, b, y, selected);
    }
    var matched := MatchOne(ix, p, b, selected);
    if matched != [] {
      assert Satisfies(nodes, p, |p.chain|, b, matched[0], selected);
    }
  }

  function ClauseAliases(clauses: seq<Clause>, n: nat): set<string>
    requires n <= |clauses|
    decreases n
  {
    if n == 0 then {} else ClauseAliases(clauses, n - 1) + Aliases(clauses[n - 1].pattern)
  }

  predicate AllHold(nodes: map<ObjectId, EncodedNode>, b: Binding, clauses: seq<Clause>,
                    select: NodePattern -> seq<ObjectId>, n: nat)
    requires n <= |clauses|
  {
    forall i | 0 <= i < n :: PatternHolds(nodes, b, clauses[i].pattern, |clauses[i].pattern.chain|,
                                          AtStart(select, clauses[i]))
  }

  lemma {:induction false} AliasesOf(clauses: seq<Clause>, n: nat, i: nat)
    requires i < n <= |clauses|
    ensures Aliases(clauses[i].pattern) <= ClauseAliases(clauses, n)
  {
    if i < n - 1 {
      AliasesOf(clauses, n - 1, i);
    }
  }

  lemma AllRestrict(nodes: map<ObjectId, EncodedNode>, b: Binding, b': Binding, clauses: seq<Clause>,
                    select: NodePattern -> seq<ObjectId>, n: nat)
    requires n <= |clauses| && Extends(b, b') && ClauseAliases(clauses, n) <= b.Keys
    ensures AllHold(nodes, b, clauses, select, n) <==> AllHold(nodes, b', clauses, select, n)
  {
    forall i | 0 <= i < n
      ensures PatternHolds(nodes, b, clauses[i].pattern, |clauses[i].pattern.chain|, AtStart(select, clauses[i])) <==>
              PatternHolds(nodes, b', clauses[i].pattern, |clauses[i].pattern.chain|, AtStart(select, clauses[i]))
    {
      AliasesOf(clauses, n, i);
      PatternRestricts(nodes, b, b', clauses[i].pattern, |clauses[i].pattern.chain|, AtStart(select, clauses[i]));
    }
  }

  ghost predicate Answers(nodes: map<ObjectId, EncodedNode>, clauses: seq<Clause>, select: NodePattern -> seq<ObjectId>,
                          n: nat, x: Binding)
    requires n <= |clauses|
  {
    forall u {:trigger Unfold(u)} | Unfold(u) :: x.Keys == ClauseAliases(clauses, n) &&
           AllHold(nodes, x, clauses, select, n)
  }

  lemma HoldGrows(nodes: map<ObjectId, EncodedNode>, clauses: seq<Clause>, select: NodePattern -> seq<ObjectId>, n: nat,
                  y: Binding, x: Binding)
    requires 0 < n <= |clauses| && Answers(nodes, clauses, select, n - 1, y)
    requires Satisfies(nodes, clauses[n - 1].pattern, |clauses[n - 1].pattern.chain|, y, x,
                       AtStart(select, clauses[n - 1]))
    ensures Answers(nodes, clauses, select, n, x)
  {
    assert Unfold(true);
    AllRestrict(nodes, y, x, clauses, select, n - 1);
  }

  lemma HoldShrinks(nodes: map<ObjectId, EncodedNode>, clauses: seq<Clause>, select: NodePattern -> seq<ObjectId>,
                    n: nat, x: Binding)
    returns (y: Binding)
    requires 0 < n <= |clauses| && Answers(nodes, clauses, select, n, x)
    ensures Answers(nodes, clauses, select, n - 1, y)
    ensures Satisfies(nodes, clauses[n - 1].pattern, |clauses[n - 1].pattern.chain|, y, x,
                      AtStart(select, clauses[n - 1]))
  {
    assert Unfold(true);
    y := Restrict(x, ClauseAliases(clauses, n - 1));
    assert y.Keys == ClauseAliases(clauses, n - 1);
    AllRestrict(nodes, y, x, clauses, select, n - 1);
  }

  /** `bs` holds exactly the answers to the first `n` clauses. */
  ghost predicate Exactly(bs: seq<Binding>, nodes: map<ObjectId, EncodedNode>, clauses: seq<Clause>,
                          select: NodePattern -> seq<ObjectId>, n: nat)
    requires n <= |clauses|
  {
    forall x :: x in bs <==> Answers(nodes, clauses, select, n, x)
  }

  lemma NoClauses(nodes: map<ObjectId, EncodedNode>, clauses: seq<Clause>, select: NodePattern -> seq<ObjectId>)
    ensures Exactly([map[]], nodes, clauses, select, 0)
  {
    assert Unfold(true);
  }

  lemma ClauseStep(ix: GraphIndex, nodes: map<ObjectId, EncodedNode>, clauses: seq<Clause>,
                   select: NodePattern -> seq<ObjectId>, n: nat,
                   before: seq<Binding>)
    requires GraphOf(ix, nodes) && 0 < n <= |clauses| && !clauses[n - 1].optional
    requires Exactly(before, nodes, clauses, select, n - 1)
    ensures Exactly(ConcatMap(before, Matcher(ix, clauses[n - 1], AtStart(select, clauses[n - 1]))), nodes, clauses,
                    select,
                    n)
  {
    var c, f := clauses[n - 1], Matcher(ix, clauses[n - 1], AtStart(select, clauses[n - 1]));
    forall x ensures x in ConcatMap(before, f) <==> Answers(nodes, clauses, select, n, x) {
      ConcatMapMember(before, f, x);
      if y :| y in before && x in f(y) {
        MatchOneExact(ix, nodes, c.pattern, y, x, AtStart(select, clauses[n - 1]));
        HoldGrows(nodes, clauses, select, n, y, x);
      }
      if Answers(nodes, clauses, select, n, x) {
        var y := HoldShrinks(nodes, clauses, select, n, x);
        MatchOneExact(ix, nodes, c.pattern, y, x, AtStart(select, clauses[n - 1]));
        assert y in before && x in f(y);
      }
    }
  }

  /** Without optional patterns: the answers bind exactly the patterns' aliases and make every pattern true. */
  lemma {:induction false} MatchExact(ix: GraphIndex, nodes: map<ObjectId, EncodedNode>, clauses: seq<Clause>,
                                      select: NodePattern -> seq<ObjectId>, n: nat)
    requires GraphOf(ix, nodes) && n <= |clauses|
    requires forall c | c in clauses :: !c.optional
    ensures Exactly(MatchClauses(ix, clauses, select, n), nodes, clauses, select, n)
    decreases n
  {
    if n == 0 {
      NoClauses(nodes, clauses, select);
    } else {
      MatchExact(ix, nodes, clauses, select, n - 1);
      ClauseStep(ix, nodes, clauses, select, n, MatchClauses(ix, clauses, select, n - 1));
    }
  }

  /** Aliases once bound are never rebound, optional patterns included, and a binding gets only its clause's aliases. */
  lemma InputExtends(ix: GraphIndex, nodes: map<ObjectId, EncodedNode>,
                     c: Clause, b: Binding, x: Binding, selected: seq<ObjectId>)
    requires GraphOf(ix, nodes) && x in MatchInput(ix, c, b, selected)
    ensures Extends(b, x) && b.Keys <= x.Keys <= b.Keys + Aliases(c.pattern)
  {
    assert Unfold(true);
    if x in MatchOne(ix, c.pattern, b, selected) {
      MatchOneExact(ix, nodes, c.pattern, b, x, selected);
    }
  }
}
