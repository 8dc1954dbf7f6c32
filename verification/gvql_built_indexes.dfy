/** Every envelope has indexes as specified, unless two nodes claim one unique key. */
module GvqlBuiltIndexes {
  import opened EncodedGraph
  import opened GvqlValues
  import opened GvqlExpressions
  import opened GvqlIndex
  import opened GvqlIndexKeys
  import opened GvqlAdvancedIndex
  import opened GvqlPlanner
  import opened GvqlPlanEquivalence

  // The graph index.

  function KeysUnder(mode: PropertyMode, valueKey: JsValue -> string, node: EncodedNode): (keys: set<string>)
    ensures forall key :: key in keys <==> NodeIndexedUnder(mode, valueKey, node, key)
  {
    if !node.ObjectNode? then {}
    else
      (set i | 0 <= i < |node.props| && ShouldIndex(mode, node.typeName, node.props[i].name) ::
        PropertyIndexKey(None, node.props[i].name, valueKey(EncodedToJs(node.props[i].value)))) +
      (set i | 0 <= i < |node.props| && ShouldIndex(mode, node.typeName, node.props[i].name) && node.typeName.Some? ::
        PropertyIndexKey(node.typeName, node.props[i].name, valueKey(EncodedToJs(node.props[i].value))))
  }

  function MarksOf(mode: PropertyMode, node: EncodedNode): (keys: set<string>)
    ensures forall key :: key in keys <==> NodeMarks(node, mode, key)
  {
    if !node.ObjectNode? then {}
    else
      (set i | 0 <= i < |node.props| && ShouldIndex(mode, node.typeName, node.props[i].name) ::
        PropertyKey(None, node.props[i].name)) +
      (set i | 0 <= i < |node.props| && ShouldIndex(mode, node.typeName, node.props[i].name) && node.typeName.Some? ::
        PropertyKey(node.typeName, node.props[i].name))
  }

  /** The nodes listed under a property key, in order. */
  ghost function ListedUnder(order: seq<ObjectId>, nodes: map<ObjectId, EncodedNode>, mode: PropertyMode,
                             valueKey: JsValue -> string, key: string): (ids: seq<ObjectId>)
    requires forall id | id in order :: id in nodes
    ensures forall id :: id in ids <==> id in order && NodeIndexedUnder(mode, valueKey, nodes[id], key)
    decreases |order|
  {
    if order == [] then []
    else
      var last := order[|order| - 1];
      assert order == order[..|order| - 1] + [last];
      ListedUnder(order[..|order| - 1], nodes, mode, valueKey, key) +
      (if NodeIndexedUnder(mode, valueKey, nodes[last], key) then [last] else [])
  }

  lemma {:induction false} NoEdgeOut(es: seq<Edge>, id: ObjectId)
    requires forall e | e in es :: e.from != id
    ensures EdgesOut(es, id) == []
    decreases |es|
  {
    if es != [] {
      assert es[|es| - 1] in es;
      NoEdgeOut(es[..|es| - 1], id);
    }
  }

  lemma {:induction false} NoEdgeIn(es: seq<Edge>, id: ObjectId)
    requires forall e | e in es :: e.to != id
    ensures EdgesIn(es, id) == []
    decreases |es|
  {
    if es != [] {
      assert es[|es| - 1] in es;
      NoEdgeIn(es[..|es| - 1], id);
    }
  }

  lemma {:induction false} NoneOfType(order: seq<ObjectId>, nodes: map<ObjectId, EncodedNode>, t: string)
    requires forall id | id in order :: id in nodes && TypeOf(nodes[id]) != Some(t)
    ensures OfType(order, nodes, t) == []
    decreases |order|
  {
    if order != [] {
      assert order[|order| - 1] in order;
      NoneOfType(order[..|order| - 1], nodes, t);
    }
  }

  ghost function TypesOf(e: Envelope, order: seq<ObjectId>): (m: map<string, seq<ObjectId>>)
    requires forall id :: id in order <==> id in e.nodes
    ensures forall t :: Bucket(m, t) == OfType(order, e.nodes, t)
  {
    var m := map t | t in (set id | id in order && TypeOf(e.nodes[id]).Some? :: TypeOf(e.nodes[id]).value) ::
      OfType(order, e.nodes, t);
    assert forall t :: Bucket(m, t) == OfType(order, e.nodes, t) by {
      forall t | t !in m ensures OfType(order, e.nodes, t) == [] {
        NoneOfType(order, e.nodes, t);
      }
    }
    m
  }

  ghost function PropertiesOf(e: Envelope, order: seq<ObjectId>, mode: PropertyMode, valueKey: JsValue -> string)
    : (m: map<string, seq<ObjectId>>)
    requires forall id :: id in order <==> id in e.nodes
    ensures forall key, id :: id in Bucket(m, key) <==>
              id in e.nodes && NodeIndexedUnder(mode, valueKey, e.nodes[id], key)
    ensures forall key :: key in m ==> Bucket(m, key) != []
  {
    var keys := set id, key | id in order && key in KeysUnder(mode, valueKey, e.nodes[id]) :: key;
    var m := map key | key in keys :: ListedUnder(order, e.nodes, mode, valueKey, key);
    assert forall key, id :: id in Bucket(m, key) <==>
           id in e.nodes && NodeIndexedUnder(mode, valueKey, e.nodes[id], key) by {
      forall key, id | id in e.nodes && NodeIndexedUnder(mode, valueKey, e.nodes[id], key) ensures key in keys {
        assert key in KeysUnder(mode, valueKey, e.nodes[id]);
      }
    }
    assert forall key :: key in m ==> Bucket(m, key) != [] by {
      forall id, key | id in order && key in KeysUnder(mode, valueKey, e.nodes[id])
        ensures id in ListedUnder(order, e.nodes, mode, valueKey, key)
      {
      }
    }
    m
  }

  ghost function EdgesFrom(es: seq<Edge>): (m: map<ObjectId, seq<Edge>>)
    ensures forall id :: Bucket(m, id) == EdgesOut(es, id)
  {
    var m := map id | id in (set e | e in es :: e.from) :: EdgesOut(es, id);
    assert forall id :: Bucket(m, id) == EdgesOut(es, id) by {
      forall id | id !in m ensures EdgesOut(es, id) == [] {
        NoEdgeOut(es, id);
      }
    }
    m
  }

  ghost function EdgesTo(es: seq<Edge>): (m: map<ObjectId, seq<Edge>>)
    ensures forall id :: Bucket(m, id) == EdgesIn(es, id)
  {
    var m := map id | id in (set e | e in es :: e.to) :: EdgesIn(es, id);
    assert forall id :: Bucket(m, id) == EdgesIn(es, id) by {
      forall id | id !in m ensures EdgesIn(es, id) == [] {
        NoEdgeIn(es, id);
      }
    }
    m
  }

  ghost function GraphIndexOf(e: Envelope, order: seq<ObjectId>, mode: PropertyMode, valueKey: JsValue -> string)
    : (ix: GraphIndex)
    requires forall id :: id in order <==> id in e.nodes
    ensures IndexOf(ix, e, order, mode, valueKey)
  {
    var es := AllEdges(order, e.nodes);
    var marks := set id, key | id in order && key in MarksOf(mode, e.nodes[id]) :: key;
    var ix := GraphIndex(order, e.nodes, TypesOf(e, order), PropertiesOf(e, order, mode, valueKey), EdgesFrom(es),
                         EdgesTo(es),
                         mode, marks);
    assert forall key :: key in marks <==> SomeMarks(order, e.nodes, mode, key) by {
      forall id, key | id in order && key in MarksOf(mode, e.nodes[id]) ensures SomeMarks(order, e.nodes, mode, key) {
        var i :| 0 <= i < |order| && order[i] == id;
      }
      forall key | SomeMarks(order, e.nodes, mode, key) ensures key in marks {
        var i :| 0 <= i < |order| && order[i] in e.nodes && NodeMarks(e.nodes[order[i]], mode, key);
        assert order[i] in order && key in MarksOf(mode, e.nodes[order[i]]);
      }
    }
    ix
  }

  // The advanced index.

  function AffixesOf(t: string, n: nat): (terms: set<string>)
    requires n <= |t|
    ensures forall term :: term in terms <==> AffixTermOf(t, n, term)
  {
    {PrefixTerm(t[..n]), SuffixTerm(t[|t| - n..])}
  }

  ghost function TermsOf(rt: Runtime, t: string, o: TextOptions): (terms: set<string>)
    ensures forall term :: term in terms <==> IsIndexTerm(rt, t, o, term)
  {
    var affixes := set n, term | 1 <= n <= Min(|t|, LONGEST_AFFIX) && term in AffixesOf(t, n) :: term;
    var grams := set n, term | LeastGram(o) <= n <= Min(GreatestGram(o), |t|) && term in Grams(t, n) :: term;
    var tokens := if t == "" then {} else set token | token in rt.tokens(t) :: TokenTerm(token);
    assert forall n, term | 1 <= n <= Min(|t|, LONGEST_AFFIX) :: AffixTermOf(t, n, term) <==> term in AffixesOf(t, n);
    assert forall n, term | LeastGram(o) <= n <= Min(GreatestGram(o), |t|) :: GramOf(t, n, term) <==>
           term in Grams(t, n);
    affixes + grams + tokens
  }

  ghost function KeysListed(rt: Runtime, d: Definition, node: EncodedNode): (keys: set<string>)
    ensures forall key :: key in keys <==> ListsUnder(rt, d, node, key)
  {
    if !Lists(rt, d, node) then {}
    else
      var vs := DefinedValues(rt, node, d);
      match d.kind
      case Range => if IsNullish(vs[0]) then {} else {StableKey(rt, vs[0])}
      case TextTerms => TermsOf(rt, rt.normalize(TextOf(rt, vs[0]), d.text.caseSensitive), d.text)
      case FullText => rt.tokens(rt.normalize(TextOf(rt, vs[0]), d.text.caseSensitive))
      case Computed => {StableKey(rt, vs[0])}
      case Composite => {TupleKey(rt, vs)}
      case UniqueKey => {}
  }

  ghost function AllSlots(rt: Runtime, nodes: map<ObjectId, EncodedNode>,
                          done: set<(ObjectId, Definition)>): (slots: set<Slot>)
    ensures forall at: Slot :: at in slots <==> exists x :: ListedBy(rt, nodes, done, at, x)
  {
    var slots := set w, key | w in done && w.0 in nodes && key in KeysListed(rt, w.1, nodes[w.0]) ::
                Slot(w.1.kind, w.1.name, key);
    assert forall at: Slot :: at in slots <==> exists x :: ListedBy(rt, nodes, done, at, x) by {
      forall at: Slot, x | ListedBy(rt, nodes, done, at, x) ensures at in slots {
        var d: Definition :|
          (x, d) in done && at.kind == d.kind && at.name == d.name && ListsUnder(rt, d, nodes[x], at.key);
        assert at == Slot(d.kind, d.name, at.key) && (x, d).0 == x && (x, d).1 == d;
      }
      forall w, key | w in done && w.0 in nodes && key in KeysListed(rt, w.1, nodes[w.0])
        ensures ListedBy(rt, nodes, done, Slot(w.1.kind, w.1.name, key), w.0)
      {
        assert (w.0, w.1) == w;
      }
    }
    slots
  }

  ghost function AllClaims(rt: Runtime, nodes: map<ObjectId, EncodedNode>,
                           done: set<(ObjectId, Definition)>): (slots: set<Slot>)
    ensures forall at: Slot :: at in slots <==> exists x :: ClaimedBy(rt, nodes, done, at, x)
  {
    var slots := set w | w in done && w.0 in nodes && ClaimsKey(rt, w.1, nodes[w.0], KeyOf(rt, w.1, nodes[w.0])) ::
      Slot(UniqueKey, w.1.name, KeyOf(rt, w.1, nodes[w.0]));
    assert forall at: Slot :: at in slots <==> exists x :: ClaimedBy(rt, nodes, done, at, x) by {
      forall at: Slot, x | ClaimedBy(rt, nodes, done, at, x) ensures at in slots {
        var d: Definition :| (x, d) in done && at.name == d.name && ClaimsKey(rt, d, nodes[x], at.key);
        assert at == Slot(UniqueKey, d.name, KeyOf(rt, d, nodes[x])) && (x, d).0 == x && (x, d).1 == d;
      }
      forall w | w in done && w.0 in nodes && ClaimsKey(rt, w.1, nodes[w.0], KeyOf(rt, w.1, nodes[w.0]))
        ensures ClaimedBy(rt, nodes, done, Slot(UniqueKey, w.1.name, KeyOf(rt, w.1, nodes[w.0])), w.0)
      {
        assert (w.0, w.1) == w;
      }
    }
    slots
  }

  function KeyOf(rt: Runtime, d: Definition, node: EncodedNode): string {
    TupleKey(rt, DefinedValues(rt, node, d))
  }

  /** A value listed in the range bucket. */
  ghost function RawOf(rt: Runtime, nodes: map<ObjectId, EncodedNode>, done: set<(ObjectId, Definition)>,
                       at: Slot): (v: JsValue)
    requires at.kind.Range? && exists x :: ListedBy(rt, nodes, done, at, x)
    ensures StableKey(rt, v) == at.key && !v.JsArray? && !v.JsSummary?
  {
    var x :| ListedBy(rt, nodes, done, at, x);
    var d: Definition :| (x, d) in done && at.kind == d.kind && at.name == d.name &&
        ListsUnder(rt, d, nodes[x], at.key);
    DefinedValues(rt, nodes[x], d)[0]
  }

  ghost function Claimant(rt: Runtime, nodes: map<ObjectId, EncodedNode>, done: set<(ObjectId, Definition)>,
                          at: Slot): (x: ObjectId)
    requires exists x :: ClaimedBy(rt, nodes, done, at, x)
    ensures ClaimedBy(rt, nodes, done, at, x)
  {
    var x :| ClaimedBy(rt, nodes, done, at, x);
    x
  }

  ghost function BucketsOf(rt: Runtime, nodes: map<ObjectId, EncodedNode>, done: set<(ObjectId, Definition)>)
    : (m: map<Slot, set<ObjectId>>)
    ensures forall at: Slot :: at in m <==> exists x :: ListedBy(rt, nodes, done, at, x)
    ensures forall at: Slot, x | at in m :: x in m[at] <==> ListedBy(rt, nodes, done, at, x)
  {
    map at | at in AllSlots(rt, nodes, done) :: set id | id in nodes && ListedBy(rt, nodes, done, at, id)
  }

  ghost function RawsOf(rt: Runtime, nodes: map<ObjectId, EncodedNode>,
                        done: set<(ObjectId, Definition)>): (m: map<Slot, JsValue>)
    ensures forall at: Slot | at.kind.Range? && (exists x :: ListedBy(rt, nodes, done, at, x)) ::
              at in m && StableKey(rt, m[at]) == at.key && !m[at].JsArray? && !m[at].JsSummary?
  {
    map at | at in AllSlots(rt, nodes, done) && at.kind.Range? :: RawOf(rt, nodes, done, at)
  }

  ghost function ClaimsOf(rt: Runtime, nodes: map<ObjectId, EncodedNode>,
                          done: set<(ObjectId, Definition)>): (m: map<Slot, ObjectId>)
    requires !Conflict(rt, nodes, done)
    ensures forall at: Slot, x :: at in m && m[at] == x <==> ClaimedBy(rt, nodes, done, at, x)
  {
    map at | at in AllClaims(rt, nodes, done) :: Claimant(rt, nodes, done, at)
  }

  ghost function AdvancedIndexOf(rt: Runtime, nodes: map<ObjectId, EncodedNode>, done: set<(ObjectId, Definition)>,
                                 definitions: seq<Definition>): (ax: AdvancedIndex)
    requires !Conflict(rt, nodes, done)
    ensures ax.definitions == definitions && AdvancedOf(ax, rt, nodes, done)
  {
    var ax := AdvancedIndex(definitions, BucketsOf(rt, nodes, done), RawsOf(rt, nodes, done),
                            ClaimsOf(rt, nodes, done));
    assert forall at: Slot, x :: x in Ids(ax, at) <==> ListedBy(rt, nodes, done, at, x);
    ax
  }

  /** The search over the indexes of an envelope. */
  ghost function SearchOf(e: Envelope, order: seq<ObjectId>, mode: PropertyMode, definitions: seq<Definition>,
                          rt: Runtime,
                          parameters: map<string, JsValue>, where: Condition): (s: Search)
    requires (forall id :: id in order <==> id in e.nodes) && !Conflict(rt, e.nodes, Pairs(order, definitions))
    ensures BuiltFor(s, e, order, mode, definitions)
    ensures s.cx == Context(e.nodes, e.nodes, parameters, rt) && s.where == Some(where)
  {
    Search(
      Context(e.nodes, e.nodes, parameters, rt),
      GraphIndexOf(e, order, mode, StableKeys(rt)),
      if definitions == [] then None else Some(AdvancedIndexOf(rt, e.nodes, Pairs(order, definitions), definitions)),
      Some(where))
  }

  /** One node alone claims nothing twice. */
  lemma OneNodeNoConflict(rt: Runtime, node: EncodedNode, definitions: seq<Definition>)
    ensures !Conflict(rt, map[0 := node], Pairs([0], definitions))
  {
  }
}
