/** Building the configured composite, range, text, full-text, unique and expression indexes. */
module GvqlAdvancedIndex {
  import opened EncodedGraph
  import opened GvqlValues
  import opened GvqlExpressions
  import opened GvqlIndexKeys

  datatype Kind = Composite | Range | TextTerms | FullText | UniqueKey | Computed

  datatype PartialCondition = PartialCondition(path: Path, operator: Operator, value: JsValue, values: seq<JsValue>)

  /** `fn` is used by computed definitions, `unique` by composite ones, `text` by text ones. */
  datatype Definition = Definition(
    kind: Kind,
    name: string,
    typeName: Option<string>,
    paths: seq<Path>,
    fn: ScalarFunction,
    sparse: bool,
    partial: Option<PartialCondition>,
    unique: bool,
    text: TextOptions)

  /** A bucket of one index family: which family, which definition name, which key. */
  datatype Slot = Slot(kind: Kind, name: string, key: string)

  /** `raw` is the value a range bucket was opened with. */
  datatype AdvancedIndex = AdvancedIndex(
    definitions: seq<Definition>,
    buckets: map<Slot, set<ObjectId>>,
    raw: map<Slot, JsValue>,
    unique: map<Slot, ObjectId>)

  function ReadValue(node: EncodedNode, path: Path): JsValue {
    PathToJs(GetNodePath(node, path))
  }

  /** `evaluateExpression`: as the query's scalar function, but locale-aware, and keeping a missing value as it is. */
  function ComputedValue(rt: Runtime, node: EncodedNode, fn: ScalarFunction, path: Path): JsValue {
    var v := ReadValue(node, path);
    if IsNullish(v) then v
    else match fn
      case Length => if v.JsArray? then JsNumber(|v.items| as real) else JsNumber(|rt.text(v)| as real)
      case Lower => JsString(rt.localeLower(rt.text(v)))
      case Upper => JsString(rt.localeUpper(rt.text(v)))
      case _ => JsString(rt.trim(rt.text(v)))
  }

  function ReadValues(node: EncodedNode, paths: seq<Path>): (vs: seq<JsValue>)
    ensures |vs| == |paths|
  {
    seq(|paths|, i requires 0 <= i < |paths| => ReadValue(node, paths[i]))
  }

  function DefinedValues(rt: Runtime, node: EncodedNode, d: Definition): seq<JsValue> {
    if d.kind.Computed? && d.paths != [] then [ComputedValue(rt, node, d.fn, d.paths[0])] else ReadValues(node, d.paths)
  }

  predicate MatchesPartial(node: EncodedNode, c: PartialCondition) {
    var left := ReadValue(node, c.path);
    match c.operator
    case IsNull => IsNullish(left)
    case IsNotNull => !IsNullish(left)
    case In => exists i | 0 <= i < |c.values| :: SameValueZero(c.values[i], left)
    case NotEqual => !StrictEquals(left, c.value)
    case _ => StrictEquals(left, c.value)
  }

  /** The definition lists the node at all. */
  predicate Lists(rt: Runtime, d: Definition, node: EncodedNode) {
    && node.ObjectNode?
    && (d.typeName.None? || node.typeName == d.typeName)
    && (d.partial.None? || MatchesPartial(node, d.partial.value))
    && d.paths != []
    && (d.sparse ==> forall v | v in DefinedValues(rt, node, d) :: !IsNullish(v))
  }

  /** The definition lists the node under this key of its family. */
  predicate ListsUnder(rt: Runtime, d: Definition, node: EncodedNode, key: string) {
    && Lists(rt, d, node)
    && var vs := DefinedValues(rt, node, d);
       var first := vs[0];
       match d.kind
       case Range => !IsNullish(first) && key == StableKey(rt, first)
       case TextTerms => IsIndexTerm(rt, rt.normalize(TextOf(rt, first), d.text.caseSensitive), d.text, key)
       case FullText => key in rt.tokens(rt.normalize(TextOf(rt, first), d.text.caseSensitive))
       case Computed => key == StableKey(rt, first)
       case Composite => key == TupleKey(rt, vs)
       case UniqueKey => false
  }

  /** The definition claims this key for the node alone. */
  predicate ClaimsKey(rt: Runtime, d: Definition, node: EncodedNode, key: string) {
    (d.kind.UniqueKey? || (d.kind.Composite? && d.unique)) && Lists(rt, d, node) &&
    key == TupleKey(rt, DefinedValues(rt, node, d))
  }

  function Ids(ax: AdvancedIndex, at: Slot): set<ObjectId> {
    if at in ax.buckets then ax.buckets[at] else {}
  }

  function Listed(ax: AdvancedIndex, at: Slot, id: ObjectId): (r: AdvancedIndex)
    ensures forall k: Slot :: Ids(r, k) == if k == at then Ids(ax, at) + {id} else Ids(ax, k)
  {
    ax.(buckets := ax.buckets[at := Ids(ax, at) + {id}])
  }

  /** `addTerms`. */
  method AddTerms(ax: AdvancedIndex, kind: Kind, name: string, terms: set<string>, id: ObjectId)
    returns (ax': AdvancedIndex)
    ensures ax' == ax.(buckets := ax'.buckets)
    ensures forall at: Slot, x: ObjectId :: x in Ids(ax', at) <==>
            x in Ids(ax, at) || (x == id && at.kind == kind && at.name == name && at.key in terms)
  {
    ax' := ax;
    var pending := terms;
    while pending != {}
      invariant pending <= terms && ax' == ax.(buckets := ax'.buckets)
      invariant forall at: Slot, x: ObjectId :: x in Ids(ax', at) <==>
                  x in Ids(ax, at) || (x == id && at.kind == kind && at.name == name && at.key in terms - pending)
      decreases |pending|
    {
      var term :| term in pending;
      assert terms - (pending - {term}) == terms - pending + {term};
      pending := pending - {term};
      ax' := Listed(ax', Slot(kind, name, term), id);
    }
  }

  /** `addUnique`: `None` is the error for a value two nodes share. */
  function AddUnique(ax: AdvancedIndex, at: Slot, id: ObjectId): Option<AdvancedIndex> {
    if at in ax.unique && ax.unique[at] != id then None else Some(ax.(unique := ax.unique[at := id]))
  }

  method ListTerms(ax: AdvancedIndex, rt: Runtime, d: Definition, id: ObjectId, node: EncodedNode)
    returns (ax': AdvancedIndex)
    requires (d.kind.TextTerms? || d.kind.FullText?) && Lists(rt, d, node)
    ensures ax' == ax.(buckets := ax'.buckets) && BucketsGrow(ax, ax', rt, d, id, node)
  {
    var first := DefinedValues(rt, node, d)[0];
    if d.kind.TextTerms? {
      var terms := TextIndexTerms(rt, TextOf(rt, first), d.text);
      ax' := AddTerms(ax, TextTerms, d.name, terms, id);
    } else {
      ax' := AddTerms(ax, FullText, d.name, rt.tokens(rt.normalize(TextOf(rt, first), d.text.caseSensitive)), id);
    }
  }

  /** Only this node was added, under exactly the keys the definition lists it under. */
  ghost predicate BucketsGrow(ax: AdvancedIndex, ax': AdvancedIndex, rt: Runtime, d: Definition, id: ObjectId,
                              node: EncodedNode) {
    forall at: Slot, x: ObjectId :: x in Ids(ax', at) <==>
      x in Ids(ax, at) || (x == id && at.kind == d.kind && at.name == d.name && ListsUnder(rt, d, node, at.key))
  }

  /** Range buckets know a value with their key. */
  ghost predicate RawFits(ax: AdvancedIndex, rt: Runtime) {
    forall at: Slot | at.kind.Range? && Ids(ax, at) != {} ::
      at in ax.raw && StableKey(rt, ax.raw[at]) == at.key && !ax.raw[at].JsArray? && !ax.raw[at].JsSummary?
  }

  /** The one key of a range, expression or composite definition. */
  method ListKey(ax: AdvancedIndex, rt: Runtime, d: Definition, id: ObjectId, node: EncodedNode, key: string)
    returns (ax': AdvancedIndex)
    requires forall k :: ListsUnder(rt, d, node, k) <==> k == key
    ensures ax' == ax.(buckets := ax'.buckets) && BucketsGrow(ax, ax', rt, d, id, node)
  {
    ax' := Listed(ax, Slot(d.kind, d.name, key), id);
  }

  /** `addRange`: a bucket is opened with the value. */
  method ListRange(ax: AdvancedIndex, rt: Runtime, d: Definition, id: ObjectId, node: EncodedNode)
    returns (ax': AdvancedIndex)
    requires RawFits(ax, rt) && d.kind.Range? && Lists(rt, d, node)
    ensures ax' == ax.(buckets := ax'.buckets, raw := ax'.raw) && BucketsGrow(ax, ax', rt, d, id, node) &&
            RawFits(ax', rt)
  {
    var v := DefinedValues(rt, node, d)[0];
    if IsNullish(v) {
      return ax;
    }
    var at := Slot(Range, d.name, StableKey(rt, v));
    ax' := ListKey(ax, rt, d, id, node, at.key);
    OnlyThisBucket(ax, ax', rt, d, id, node, at);
    if Ids(ax, at) == {} {
      ax' := ax'.(raw := ax'.raw[at := v]);
    }
  }

  lemma OnlyThisBucket(ax: AdvancedIndex, ax': AdvancedIndex, rt: Runtime, d: Definition, id: ObjectId,
                       node: EncodedNode,
                       at: Slot)
    requires BucketsGrow(ax, ax', rt, d, id, node) && d.kind.Range? && at.kind == d.kind && at.name == d.name
    requires forall k :: ListsUnder(rt, d, node, k) ==> k == at.key
    ensures forall k: Slot | k != at :: Ids(ax', k) == Ids(ax, k)
  {
    forall k: Slot, x | k != at ensures x in Ids(ax', k) <==> x in Ids(ax, k) {
      assert k.kind == at.kind && k.name == at.name ==> k.key != at.key;
    }
  }

  /** One definition applied to one node, unique keys aside. */
  method ListNode(ax: AdvancedIndex, rt: Runtime, d: Definition, id: ObjectId, node: EncodedNode)
    returns (ax': AdvancedIndex)
    requires RawFits(ax, rt)
    ensures ax' == ax.(buckets := ax'.buckets, raw := ax'.raw) && BucketsGrow(ax, ax', rt, d, id, node) &&
            RawFits(ax', rt)
  {
    if !Lists(rt, d, node) || d.kind.UniqueKey? {
      return ax;
    }
    var vs := DefinedValues(rt, node, d);
    match d.kind {
      case Range => ax' := ListRange(ax, rt, d, id, node);
      case Computed => ax' := ListKey(ax, rt, d, id, node, StableKey(rt, vs[0]));
      case Composite => ax' := ListKey(ax, rt, d, id, node, TupleKey(rt, vs));
      case _ => ax' := ListTerms(ax, rt, d, id, node);
    }
    if !d.kind.Range? {
      NoRangeGrows(ax, ax', rt, d, id, node);
    }
  }

  lemma NoRangeGrows(ax: AdvancedIndex, ax': AdvancedIndex, rt: Runtime, d: Definition, id: ObjectId, node: EncodedNode)
    requires RawFits(ax, rt) && ax' == ax.(buckets := ax'.buckets) && BucketsGrow(ax, ax', rt, d, id, node) &&
             !d.kind.Range?
    ensures RawFits(ax', rt)
  {
    forall at: Slot | at.kind.Range? && Ids(ax', at) != {} ensures Ids(ax, at) != {} {
      var x :| x in Ids(ax', at);
      assert x in Ids(ax, at);
    }
  }

  ghost predicate ListedBy(rt: Runtime, nodes: map<ObjectId, EncodedNode>, done: set<(ObjectId, Definition)>, at: Slot,
                           x: ObjectId) {
    x in nodes && exists d: Definition ::
      (x, d) in done && at.kind == d.kind && at.name == d.name && ListsUnder(rt, d, nodes[x], at.key)
  }

  ghost predicate ClaimedBy(rt: Runtime, nodes: map<ObjectId, EncodedNode>, done: set<(ObjectId, Definition)>, at: Slot,
                            x: ObjectId) {
    x in nodes && at.kind.UniqueKey? && exists d: Definition ::
      (x, d) in done && at.name == d.name && ClaimsKey(rt, d, nodes[x], at.key)
  }

  /** The index built from the (node, definition) pairs done so far. */
  ghost predicate AdvancedOf(ax: AdvancedIndex, rt: Runtime, nodes: map<ObjectId, EncodedNode>,
                             done: set<(ObjectId, Definition)>) {
    && (forall at: Slot, x: ObjectId :: x in Ids(ax, at) <==> ListedBy(rt, nodes, done, at, x))
    && RawFits(ax, rt)
    && (forall at: Slot, x: ObjectId :: at in ax.unique && ax.unique[at] == x <==> ClaimedBy(rt, nodes, done, at, x))
  }

  /** Two nodes claim one unique key. */
  ghost predicate Conflict(rt: Runtime, nodes: map<ObjectId, EncodedNode>, done: set<(ObjectId, Definition)>) {
    exists at: Slot, x: ObjectId, y: ObjectId ::
      x != y && ClaimedBy(rt, nodes, done, at, x) && ClaimedBy(rt, nodes, done, at, y)
  }

  lemma ListedGrows(rt: Runtime, nodes: map<ObjectId, EncodedNode>, done: set<(ObjectId, Definition)>, id: ObjectId,
                    d: Definition,
                    at: Slot, x: ObjectId)
    requires id in nodes
    ensures ListedBy(rt, nodes, done + {(id, d)}, at, x) <==>
            ListedBy(rt, nodes, done, at, x) ||
            (x == id && at.kind == d.kind && at.name == d.name && ListsUnder(rt, d, nodes[id], at.key))
    ensures ClaimedBy(rt, nodes, done + {(id, d)}, at, x) <==>
            ClaimedBy(rt, nodes, done, at, x) ||
            (x == id && at.kind.UniqueKey? && at.name == d.name && ClaimsKey(rt, d, nodes[id], at.key))
  {
    var more := done + {(id, d)};
    if ListedBy(rt, nodes, done, at, x) {
      var k :| (x, k) in done && at.kind == k.kind && at.name == k.name && ListsUnder(rt, k, nodes[x], at.key);
      assert (x, k) in more;
    }
    if ClaimedBy(rt, nodes, done, at, x) {
      var k :| (x, k) in done && at.name == k.name && ClaimsKey(rt, k, nodes[x], at.key);
      assert (x, k) in more;
    }
    assert (id, d) in more;
  }

  /** One definition applied to one node. */
  method AddNode(ax: AdvancedIndex, rt: Runtime, d: Definition, id: ObjectId, nodes: map<ObjectId, EncodedNode>,
                 ghost done: set<(ObjectId, Definition)>)
    returns (r: Option<AdvancedIndex>)
    requires id in nodes && AdvancedOf(ax, rt, nodes, done)
    ensures r.Some? ==> r.value.definitions == ax.definitions && AdvancedOf(r.value, rt, nodes, done + {(id, d)})
    ensures r.None? ==> Conflict(rt, nodes, done + {(id, d)})
  {
    var node := nodes[id];
    var ax' := ListNode(ax, rt, d, id, node);
    forall at: Slot, x: ObjectId ensures x in Ids(ax', at) <==> ListedBy(rt, nodes, done + {(id, d)}, at, x) {
      ListedGrows(rt, nodes, done, id, d, at, x);
    }
    r := Some(ax');
    var at := Slot(UniqueKey, d.name, TupleKey(rt, DefinedValues(rt, node, d)));
    if (d.kind.UniqueKey? || (d.kind.Composite? && d.unique)) && Lists(rt, d, node) {
      r := AddUnique(ax', at, id);
      if r.None? {
        ListedGrows(rt, nodes, done, id, d, at, id);
        ListedGrows(rt, nodes, done, id, d, at, ax.unique[at]);
        return;
      }
    }
    forall k: Slot, x: ObjectId ensures k in r.value.unique && r.value.unique[k] == x <==>
           ClaimedBy(rt, nodes, done + {(id, d)}, k, x) {
      ListedGrows(rt, nodes, done, id, d, k, x);
    }
  }

  ghost function Pairs(ids: seq<ObjectId>, definitions: seq<Definition>): set<(ObjectId, Definition)> {
    set id, d | id in ids && d in definitions :: (id, d)
  }

  lemma PairsNext(ids: seq<ObjectId>, definitions: seq<Definition>, i: nat)
    requires i < |ids|
    ensures Pairs(ids[..i + 1], definitions) == Pairs(ids[..i], definitions) + Pairs([ids[i]], definitions)
    ensures Pairs(ids[..i + 1], definitions) <= Pairs(ids, definitions)
  {
  }

  lemma DefinitionsNext(id: ObjectId, definitions: seq<Definition>, j: nat)
    requires j < |definitions|
    ensures Pairs([id], definitions[..j + 1]) == Pairs([id], definitions[..j]) + {(id, definitions[j])}
    ensures Pairs([id], definitions[..j + 1]) <= Pairs([id], definitions)
  {
  }

  /** Every definition applied to one node. */
  method AddToAll(ax: AdvancedIndex, rt: Runtime, definitions: seq<Definition>, id: ObjectId,
                  nodes: map<ObjectId, EncodedNode>,
                  ghost done: set<(ObjectId, Definition)>)
    returns (r: Option<AdvancedIndex>)
    requires id in nodes && AdvancedOf(ax, rt, nodes, done)
    ensures r.Some? ==>
              r.value.definitions == ax.definitions && AdvancedOf(r.value, rt, nodes, done + Pairs([id], definitions))
    ensures r.None? ==> Conflict(rt, nodes, done + Pairs([id], definitions))
  {
    r := Some(ax);
    assert done + Pairs([id], definitions[..0]) == done;
    for j := 0 to |definitions|
      invariant r.Some? && r.value.definitions == ax.definitions
      invariant AdvancedOf(r.value, rt, nodes, done + Pairs([id], definitions[..j]))
    {
      DefinitionsNext(id, definitions, j);
      ghost var now := done + Pairs([id], definitions[..j]);
      assert now + {(id, definitions[j])} == done + Pairs([id], definitions[..j + 1]);
      r := AddNode(r.value, rt, definitions[j], id, nodes, now);
      if r.None? {
        ConflictGrows(rt, nodes, done + Pairs([id], definitions[..j + 1]), done + Pairs([id], definitions));
        return;
      }
    }
    assert definitions[..|definitions|] == definitions;
  }

  /** `buildAdvancedIndexRecord`: an error exactly when two nodes claim one unique key. */
  method BuildAdvancedIndex(e: Envelope, order: seq<ObjectId>, rt: Runtime, definitions: seq<Definition>)
    returns (r: Option<AdvancedIndex>)
    requires forall id :: id in order <==> id in e.nodes
    ensures r.Some? ==>
              r.value.definitions == definitions && AdvancedOf(r.value, rt, e.nodes, Pairs(order, definitions))
    ensures r.None? <==> Conflict(rt, e.nodes, Pairs(order, definitions))
  {
    r := Some(AdvancedIndex(definitions, map[], map[], map[]));
    for i := 0 to |order|
      invariant r.Some? && r.value.definitions == definitions
      invariant AdvancedOf(r.value, rt, e.nodes, Pairs(order[..i], definitions))
    {
      PairsNext(order, definitions, i);
      r := AddToAll(r.value, rt, definitions, order[i], e.nodes, Pairs(order[..i], definitions));
      if r.None? {
        ConflictGrows(rt, e.nodes, Pairs(order[..i + 1], definitions), Pairs(order, definitions));
        return;
      }
    }
    assert order[..|order|] == order;
    NoConflict(r.value, rt, e.nodes, Pairs(order, definitions));
  }

  lemma ConflictGrows(rt: Runtime, nodes: map<ObjectId, EncodedNode>, done: set<(ObjectId, Definition)>,
                      more: set<(ObjectId, Definition)>)
    requires Conflict(rt, nodes, done) && done <= more
    ensures Conflict(rt, nodes, more)
  {
    var at, x, y :| x != y && ClaimedBy(rt, nodes, done, at, x) && ClaimedBy(rt, nodes, done, at, y);
    var dx: Definition :| (x, dx) in done && at.name == dx.name && ClaimsKey(rt, dx, nodes[x], at.key);
    var dy: Definition :| (y, dy) in done && at.name == dy.name && ClaimsKey(rt, dy, nodes[y], at.key);
    assert (x, dx) in more && (y, dy) in more;
    assert ClaimedBy(rt, nodes, more, at, x) && ClaimedBy(rt, nodes, more, at, y);
  }

  lemma NoConflict(ax: AdvancedIndex, rt: Runtime, nodes: map<ObjectId, EncodedNode>, done: set<(ObjectId, Definition)>)
    requires AdvancedOf(ax, rt, nodes, done)
    ensures !Conflict(rt, nodes, done)
  {
  }
}
