/** Checking constraints, whole or touched. */
module StorageConstraints {
  import opened EncodedGraph
  import opened GvqlValues

  datatype Kind = Required | WrongType | NotListed | TooSmall | TooLarge | Dangling | Duplicate

  /** A violation names its definition by position; `other` is the node a duplicate collides with. */
  datatype Violation = Violation(definition: nat, kind: Kind, id: ObjectId, other: Option<ObjectId>)

  /** Bounds compare with numbers, texts and dates; the comparison itself stays abstract. */
  datatype Definition = Definition(
    typeName: Option<string>,
    path: string,
    required: bool,
    unique: bool,
    valueType: Option<string>,
    allowed: Option<seq<EncodedValue>>,
    tooSmall: Option<EncodedValue -> bool>,
    tooLarge: Option<EncodedValue -> bool>,
    referenceExists: bool)

  predicate IsMissing(v: Option<EncodedValue>) {
    v.None? || v.value.Null? || v.value.Undefined?
  }

  /** `encodedValueType`: for a reference it depends on the node referred to. */
  function ValueType(v: EncodedValue, nodes: map<ObjectId, EncodedNode>): string {
    match v
    case Text(_) => "string"
    case Number(_) => "number"
    case Boolean(_) => "boolean"
    case Ref(id) =>
      if id !in nodes || nodes[id].LazyNode? then "reference" else if nodes[id].ArrayNode? then "array" else "object"
    case Undefined => "undefined"
    case Special(_) => "number"
    case BigInt(_) => "bigint"
    case Opaque(kind, _) => kind
    case Null => "object"
  }

  predicate MatchesType(node: EncodedNode, d: Definition) {
    node.ObjectNode? && (d.typeName.None? || node.typeName == d.typeName)
  }

  function FieldOf(node: EncodedNode, d: Definition): Option<EncodedValue> {
    if node.ObjectNode? then FindProperty(node.props, d.path) else None
  }

  function Report(yes: bool, k: nat, kind: Kind, id: ObjectId): seq<Violation> {
    if yes then [Violation(k, kind, id, None)] else []
  }

  predicate WrongTypeAt(d: Definition, v: EncodedValue, nodes: map<ObjectId, EncodedNode>) {
    d.valueType.Some? && ValueType(v, nodes) != d.valueType.value && !(d.valueType.value == "reference" && v.Ref?)
  }

  predicate DanglingAt(d: Definition, v: EncodedValue, nodes: map<ObjectId, EncodedNode>) {
    d.referenceExists && (!v.Ref? || v.id !in nodes)
  }

  /** `validateField`. */
  function FieldViolations(k: nat, d: Definition, id: ObjectId, node: EncodedNode,
                           nodes: map<ObjectId, EncodedNode>): seq<Violation> {
    var v := FieldOf(node, d);
    if IsMissing(v) then Report(d.required, k, Required, id)
    else
      Report(WrongTypeAt(d, v.value, nodes), k, WrongType, id) +
      Report(d.allowed.Some? && v.value !in d.allowed.value, k, NotListed, id) +
      Report(d.tooSmall.Some? && d.tooSmall.value(v.value), k, TooSmall, id) +
      Report(d.tooLarge.Some? && d.tooLarge.value(v.value), k, TooLarge, id) +
      Report(DanglingAt(d, v.value, nodes), k, Dangling, id)
  }

  /** Which nodes are checked: the given ones, or all when none are given. */
  predicate Checked(ids: set<ObjectId>, id: ObjectId) {
    ids == {} || id in ids
  }

  function AllFieldViolations(k: nat, d: Definition, order: seq<ObjectId>, nodes: map<ObjectId, EncodedNode>,
                              ids: set<ObjectId>): seq<Violation>
    requires forall id | id in order :: id in nodes
  {
    if order == [] then []
    else
      var last := order[|order| - 1];
      AllFieldViolations(k, d, order[..|order| - 1], nodes, ids) +
      (if Checked(ids, last) && MatchesType(nodes[last], d) then FieldViolations(k, d, last, nodes[last], nodes)
       else [])
  }

  /** The state of the one-pass scan: which node last claimed each value, and what was reported. */
  datatype Scan = Scan(seen: map<EncodedValue, ObjectId>, violations: seq<Violation>)

  /** Two nodes with the same value: reported if either is checked, otherwise the later one takes the value over. */
  function ScanNode(k: nat, d: Definition, s: Scan, id: ObjectId, node: EncodedNode, ids: set<ObjectId>): Scan {
    var v := FieldOf(node, d);
    if !MatchesType(node, d) || IsMissing(v) then s
    else if v.value in s.seen && (ids == {} || id in ids || s.seen[v.value] in ids) then
      s.(violations := s.violations + [Violation(k, Duplicate, id, Some(s.seen[v.value]))])
    else s.(seen := s.seen[v.value := id])
  }

  function ScanAll(k: nat, d: Definition, order: seq<ObjectId>, nodes: map<ObjectId, EncodedNode>,
                   ids: set<ObjectId>): Scan
    requires forall id | id in order :: id in nodes
  {
    if order == [] then Scan(map[], [])
    else
      var last := order[|order| - 1];
      ScanNode(k, d, ScanAll(k, d, order[..|order| - 1], nodes, ids), last, nodes[last], ids)
  }

  /** What one definition reports. */
  function ReportedBy(k: nat, d: Definition, order: seq<ObjectId>, nodes: map<ObjectId, EncodedNode>,
                      ids: set<ObjectId>): seq<Violation>
    requires forall id | id in order :: id in nodes
  {
    AllFieldViolations(k, d, order, nodes, ids) + (if d.unique then ScanAll(k, d, order, nodes, ids).violations else [])
  }

  function Violations(ds: seq<Definition>, order: seq<ObjectId>, nodes: map<ObjectId, EncodedNode>,
                      ids: set<ObjectId>): seq<Violation>
    requires forall id | id in order :: id in nodes
  {
    if ds == [] then []
    else
      var k := |ds| - 1;
      var d := ds[k];
      Violations(ds[..k], order, nodes, ids) + ReportedBy(k, d, order, nodes, ids)
  }

  /** `validateField`, pushing what it finds. */
  method ValidateField(k: nat, d: Definition, id: ObjectId, node: EncodedNode, nodes: map<ObjectId, EncodedNode>,
                       violations: seq<Violation>)
    returns (r: seq<Violation>)
    ensures r == violations + FieldViolations(k, d, id, node, nodes)
  {
    var v := FieldOf(node, d);
    if d.required && IsMissing(v) {
      return violations + [Violation(k, Required, id, None)];
    }
    if IsMissing(v) {
      assert violations + [] == violations;
      return violations;
    }
    r := Push(violations, WrongTypeAt(d, v.value, nodes), k, WrongType, id);
    r := Push(r, d.allowed.Some? && v.value !in d.allowed.value, k, NotListed, id);
    r := Push(r, d.tooSmall.Some? && d.tooSmall.value(v.value), k, TooSmall, id);
    r := Push(r, d.tooLarge.Some? && d.tooLarge.value(v.value), k, TooLarge, id);
    r := Push(r, DanglingAt(d, v.value, nodes), k, Dangling, id);
    Regrouped(violations, Report(WrongTypeAt(d, v.value, nodes), k, WrongType, id),
              Report(d.allowed.Some? && v.value !in d.allowed.value, k, NotListed, id),
              Report(d.tooSmall.Some? && d.tooSmall.value(v.value), k, TooSmall, id),
              Report(d.tooLarge.Some? && d.tooLarge.value(v.value), k, TooLarge, id),
              Report(DanglingAt(d, v.value, nodes), k, Dangling, id));
  }

  lemma Regrouped<T>(r: seq<T>, a: seq<T>, b: seq<T>, c: seq<T>, d: seq<T>, e: seq<T>)
    ensures r + a + b + c + d + e == r + (a + b + c + d + e)
  {
  }

  method Push(violations: seq<Violation>, yes: bool, k: nat, kind: Kind, id: ObjectId) returns (r: seq<Violation>)
    ensures r == violations + Report(yes, k, kind, id)
  {
    r := violations;
    if yes {
      r := r + [Violation(k, kind, id, None)];
    }
  }

  /** `validateUnique`. */
  method ValidateUnique(k: nat, d: Definition, order: seq<ObjectId>, nodes: map<ObjectId, EncodedNode>,
                        ids: set<ObjectId>)
    returns (violations: seq<Violation>)
    requires forall id | id in order :: id in nodes
    ensures violations == ScanAll(k, d, order, nodes, ids).violations
  {
    var seen: map<EncodedValue, ObjectId> := map[];
    violations := [];
    for i := 0 to |order|
      invariant Scan(seen, violations) == ScanAll(k, d, order[..i], nodes, ids)
    {
      assert order[..i + 1][..i] == order[..i];
      var id := order[i];
      var v := FieldOf(nodes[id], d);
      if MatchesType(nodes[id], d) && !IsMissing(v) {
        if v.value in seen && (ids == {} || id in ids || seen[v.value] in ids) {
          violations := violations + [Violation(k, Duplicate, id, Some(seen[v.value]))];
        } else {
          seen := seen[v.value := id];
        }
      }
    }
    assert order[..|order|] == order;
  }

  method ValidateFields(k: nat, d: Definition, order: seq<ObjectId>, nodes: map<ObjectId, EncodedNode>,
                        ids: set<ObjectId>)
    returns (violations: seq<Violation>)
    requires forall id | id in order :: id in nodes
    ensures violations == AllFieldViolations(k, d, order, nodes, ids)
  {
    violations := [];
    for i := 0 to |order|
      invariant violations == AllFieldViolations(k, d, order[..i], nodes, ids)
    {
      assert order[..i + 1][..i] == order[..i];
      if Checked(ids, order[i]) && MatchesType(nodes[order[i]], d) {
        violations := ValidateField(k, d, order[i], nodes[order[i]], nodes, violations);
      }
    }
    assert order[..|order|] == order;
  }

  /** `validateStorageConstraints`. */
  method ValidateConstraints(ds: seq<Definition>, order: seq<ObjectId>, nodes: map<ObjectId, EncodedNode>,
                             ids: set<ObjectId>)
    returns (violations: seq<Violation>)
    requires forall id | id in order :: id in nodes
    ensures violations == Violations(ds, order, nodes, ids)
  {
    violations := [];
    for k := 0 to |ds|
      invariant violations == Violations(ds[..k], order, nodes, ids)
    {
      assert ds[..k + 1][..k] == ds[..k];
      var found := ValidateFields(k, ds[k], order, nodes, ids);
      if ds[k].unique {
        var duplicates := ValidateUnique(k, ds[k], order, nodes, ids);
        found := found + duplicates;
      } else {
        assert found + [] == found;
      }
      violations := violations + found;
    }
    assert ds[..|ds|] == ds;
  }

  // What a check decides.

  /** The value is of the named type; for a reference, so far as what it refers to is loaded. */
  predicate HasType(v: EncodedValue, t: string, nodes: map<ObjectId, EncodedNode>) {
    || (v.Text? && t == "string") || (v.Boolean? && t == "boolean") || (v.BigInt? && t == "bigint")
    || ((v.Number? || v.Special?) && t == "number")
    || (v.Opaque? && t == v.kind)
    || (v.Ref? && t == "reference")
    || (v.Ref? && v.id in nodes && nodes[v.id].ArrayNode? && t == "array")
    || (v.Ref? && v.id in nodes && (nodes[v.id].ObjectNode? || nodes[v.id].MapNode? || nodes[v.id].SetNode?) &&
        t == "object")
  }

  /** What the definition asks of a value that is there. */
  predicate ValueOk(d: Definition, v: EncodedValue, nodes: map<ObjectId, EncodedNode>) {
    && (d.valueType.Some? ==> HasType(v, d.valueType.value, nodes))
    && (d.allowed.Some? ==> v in d.allowed.value)
    && (d.tooSmall.Some? ==> !d.tooSmall.value(v)) && (d.tooLarge.Some? ==> !d.tooLarge.value(v))
    && (d.referenceExists ==> v.Ref? && v.id in nodes)
  }

  /** The node itself satisfies the definition, if it is of its type: null and undefined count as missing. */
  predicate FieldOk(d: Definition, node: EncodedNode, nodes: map<ObjectId, EncodedNode>) {
    node.ObjectNode? && (d.typeName.Some? ==> node.typeName == d.typeName) ==>
      var v := FindProperty(node.props, d.path);
      if v.None? || v.value == Null || v.value == Undefined then !d.required else ValueOk(d, v.value, nodes)
  }

  lemma TypeDecides(d: Definition, v: EncodedValue, nodes: map<ObjectId, EncodedNode>)
    requires !IsMissing(Some(v))
    ensures WrongTypeAt(d, v, nodes) <==> d.valueType.Some? && !HasType(v, d.valueType.value, nodes)
  {
  }

  /** No report is exactly that the node satisfies the definition. */
  lemma NoReportIffOk(k: nat, d: Definition, id: ObjectId, node: EncodedNode, nodes: map<ObjectId, EncodedNode>)
    ensures FieldOk(d, node, nodes) <==> (MatchesType(node, d) ==> FieldViolations(k, d, id, node, nodes) == [])
  {
    if MatchesType(node, d) && !IsMissing(FieldOf(node, d)) {
      var v := FieldOf(node, d).value;
      TypeDecides(d, v, nodes);
      assert ValueOk(d, v, nodes) <==>
             (!WrongTypeAt(d, v, nodes) && !(d.allowed.Some? && v !in d.allowed.value) &&
              !(d.tooSmall.Some? && d.tooSmall.value(v)) && !(d.tooLarge.Some? && d.tooLarge.value(v)) &&
              !DanglingAt(d, v, nodes));
      EachReported(k, id, WrongTypeAt(d, v, nodes), d.allowed.Some? && v !in d.allowed.value,
                   d.tooSmall.Some? && d.tooSmall.value(v), d.tooLarge.Some? && d.tooLarge.value(v),
                   DanglingAt(d, v, nodes));
    }
  }

  lemma EachReported(k: nat, id: ObjectId, a: bool, b: bool, c: bool, d: bool, e: bool)
    ensures (Report(a, k, WrongType, id) + Report(b, k, NotListed, id) + Report(c, k, TooSmall, id) +
             Report(d, k, TooLarge, id) + Report(e, k, Dangling, id) == []) <==> (!a && !b && !c && !d && !e)
  {
  }

  /** Which violation a check of one field reports. */
  predicate Violates(d: Definition, kind: Kind, node: EncodedNode, nodes: map<ObjectId, EncodedNode>) {
    && node.ObjectNode?
    && var v := FindProperty(node.props, d.path);
       if v.None? || v.value == Null || v.value == Undefined then kind.Required? && d.required
       else match kind
         case WrongType => d.valueType.Some? && !HasType(v.value, d.valueType.value, nodes)
         case NotListed => d.allowed.Some? && v.value !in d.allowed.value
         case TooSmall => d.tooSmall.Some? && d.tooSmall.value(v.value)
         case TooLarge => d.tooLarge.Some? && d.tooLarge.value(v.value)
         case Dangling => d.referenceExists && (v.value.Ref? ==> v.value.id !in nodes)
         case _ => false
  }

  /** A field is reported for exactly what it violates, under its node and definition. */
  lemma FieldReports(k: nat, d: Definition, id: ObjectId, node: EncodedNode, nodes: map<ObjectId, EncodedNode>,
                     x: Violation)
    requires node.ObjectNode?
    ensures x in FieldViolations(k, d, id, node, nodes) <==>
            x == Violation(k, x.kind, id, None) && Violates(d, x.kind, node, nodes)
  {
    if !IsMissing(FieldOf(node, d)) {
      TypeDecides(d, FieldOf(node, d).value, nodes);
    }
  }

  lemma {:induction false} FieldsReport(k: nat, d: Definition, order: seq<ObjectId>, nodes: map<ObjectId, EncodedNode>,
                                        ids: set<ObjectId>, x: Violation)
    requires forall id | id in order :: id in nodes
    ensures x in AllFieldViolations(k, d, order, nodes, ids) <==>
            && x == Violation(k, x.kind, x.id, None) && x.id in order && (ids == {} || x.id in ids)
            && (d.typeName.Some? ==> TypeOf(nodes[x.id]) == d.typeName) && Violates(d, x.kind, nodes[x.id], nodes)
    decreases |order|
  {
    if order != [] {
      var front, last := order[..|order| - 1], order[|order| - 1];
      FieldsReport(k, d, front, nodes, ids, x);
      assert order == front + [last];
      if nodes[last].ObjectNode? {
        FieldReports(k, d, last, nodes[last], nodes, x);
      }
    }
  }

  /** Two different nodes of the definition's type hold the same value. */
  predicate Collide(d: Definition, nodes: map<ObjectId, EncodedNode>, a: ObjectId, b: ObjectId) {
    && a != b && a in nodes && b in nodes && MatchesType(nodes[a], d) && MatchesType(nodes[b], d)
    && !IsMissing(FieldOf(nodes[a], d)) && FieldOf(nodes[a], d) == FieldOf(nodes[b], d)
  }

  lemma OwnViolations(k: nat, d: Definition, id: ObjectId, nodes: map<ObjectId, EncodedNode>, ids: set<ObjectId>)
    requires id in nodes
    ensures (if Checked(ids, id) && MatchesType(nodes[id], d) then FieldViolations(k, d, id, nodes[id], nodes)
             else []) == [] <==>
            (Checked(ids, id) ==> FieldOk(d, nodes[id], nodes))
  {
    NoReportIffOk(k, d, id, nodes[id], nodes);
  }

  lemma {:induction false} NoFieldViolations(k: nat, d: Definition, order: seq<ObjectId>,
                                             nodes: map<ObjectId, EncodedNode>, ids: set<ObjectId>)
    requires forall id | id in order :: id in nodes
    ensures AllFieldViolations(k, d, order, nodes, ids) == [] <==>
            forall id | id in order && Checked(ids, id) :: FieldOk(d, nodes[id], nodes)
    decreases |order|
  {
    if order != [] {
      var last, front := order[|order| - 1], order[..|order| - 1];
      NoFieldViolations(k, d, front, nodes, ids);
      assert order == front + [last];
      OwnViolations(k, d, last, nodes, ids);
      assert forall id :: id in order <==> id in front || id == last;
    }
  }

  predicate Distinct(order: seq<ObjectId>) {
    forall i, j | 0 <= i < j < |order| :: order[i] != order[j]
  }

  /** While nothing is reported, every scanned value is claimed by a scanned node that holds it. */
  ghost predicate SeenRight(d: Definition, order: seq<ObjectId>, nodes: map<ObjectId, EncodedNode>,
                            seen: map<EncodedValue, ObjectId>) {
    && (forall v | v in seen :: Holds(d, order, nodes, seen[v], v))
    && (forall id, v | Holds(d, order, nodes, id, v) :: v in seen)
  }

  predicate Holds(d: Definition, order: seq<ObjectId>, nodes: map<ObjectId, EncodedNode>, id: ObjectId,
                  v: EncodedValue) {
    id in order && id in nodes && MatchesType(nodes[id], d) && !IsMissing(FieldOf(nodes[id], d)) &&
    FieldOf(nodes[id], d) == Some(v)
  }

  lemma HoldsNext(d: Definition, front: seq<ObjectId>, last: ObjectId, nodes: map<ObjectId, EncodedNode>, id: ObjectId,
                  v: EncodedValue)
    ensures Holds(d, front + [last], nodes, id, v) <==>
            Holds(d, front, nodes, id, v) || (id == last && Holds(d, [last], nodes, id, v))
  {
  }

  /**
   * A scan reports something exactly when two scanned nodes collide, provided any two that collide include a checked
   * one.
   */
  lemma {:induction false} ScanReports(k: nat, d: Definition, order: seq<ObjectId>, nodes: map<ObjectId, EncodedNode>,
                                       ids: set<ObjectId>)
    requires (forall id | id in order :: id in nodes) && Distinct(order)
    requires forall a, b | a in order && b in order && Collide(d, nodes, a, b) :: ids == {} || a in ids || b in ids
    ensures ScanAll(k, d, order, nodes, ids).violations == [] <==>
            forall a, b | a in order && b in order :: !Collide(d, nodes, a, b)
    ensures ScanAll(k, d, order, nodes, ids).violations == [] ==>
            SeenRight(d, order, nodes, ScanAll(k, d, order, nodes, ids).seen)
    decreases |order|
  {
    if order != [] {
      var last, front := order[|order| - 1], order[..|order| - 1];
      assert order == front + [last];
      ScanReports(k, d, front, nodes, ids);
      ScanStep(k, d, front, last, nodes, ids);
    }
  }

  /** One more node: it adds a report exactly when it collides with an earlier one. */
  lemma ScanStep(k: nat, d: Definition, front: seq<ObjectId>, last: ObjectId, nodes: map<ObjectId, EncodedNode>,
                 ids: set<ObjectId>)
    requires last in nodes && last !in front && forall id | id in front :: id in nodes
    requires forall a | a in front && Collide(d, nodes, a, last) :: ids == {} || a in ids || last in ids
    requires var before := ScanAll(k, d, front, nodes, ids);
             && (before.violations == [] ==> SeenRight(d, front, nodes, before.seen))
             && (before.violations == [] <==> forall a, b | a in front && b in front :: !Collide(d, nodes, a, b))
    ensures var all := ScanAll(k, d, front + [last], nodes, ids);
            && (all.violations == [] <==> forall a, b | a in front + [last] && b in front + [last] ::
                !Collide(d, nodes, a, b))
            && (all.violations == [] ==> SeenRight(d, front + [last], nodes, all.seen))
  {
    var before := ScanAll(k, d, front, nodes, ids);
    var order := front + [last];
    assert order[..|order| - 1] == front;
    var all := ScanNode(k, d, before, last, nodes[last], ids);
    assert ScanAll(k, d, order, nodes, ids) == all;
    if before.violations != [] {
      var a, b :| a in front && b in front && Collide(d, nodes, a, b);
      assert a in order && b in order;
    } else {
      LastCollides(d, front, last, nodes, before.seen);
      forall id, v ensures Holds(d, order, nodes, id, v) <==>
             Holds(d, front, nodes, id, v) || (id == last && Holds(d, [last], nodes, id, v)) {
        HoldsNext(d, front, last, nodes, id, v);
      }
    }
  }

  /** With the claimed values right, the last node collides exactly when its value is claimed. */
  lemma LastCollides(d: Definition, front: seq<ObjectId>, last: ObjectId, nodes: map<ObjectId, EncodedNode>,
                     seen: map<EncodedValue, ObjectId>)
    requires last in nodes && last !in front && SeenRight(d, front, nodes, seen)
    ensures MatchesType(nodes[last], d) && !IsMissing(FieldOf(nodes[last], d)) &&
            FieldOf(nodes[last], d).value in seen ==>
              Collide(d, nodes, seen[FieldOf(nodes[last], d).value], last) &&
              seen[FieldOf(nodes[last], d).value] in front
    ensures forall a | a in front && Collide(d, nodes, a, last) ::
              MatchesType(nodes[last], d) && !IsMissing(FieldOf(nodes[last], d)) &&
              FieldOf(nodes[last], d).value in seen
  {
    var v := FieldOf(nodes[last], d);
    if MatchesType(nodes[last], d) && !IsMissing(v) && v.value in seen {
      assert Holds(d, front, nodes, seen[v.value], v.value);
    }
    forall a | a in front && Collide(d, nodes, a, last) ensures v.Some? && v.value in seen {
      assert Holds(d, front, nodes, a, FieldOf(nodes[a], d).value);
    }
  }

  /** A graph satisfies the definitions. */
  ghost predicate Satisfied(ds: seq<Definition>, nodes: map<ObjectId, EncodedNode>) {
    forall d | d in ds ::
      && (forall id | id in nodes :: FieldOk(d, nodes[id], nodes))
      && (d.unique ==> forall a, b :: !Collide(d, nodes, a, b))
  }

  /** Checked nodes satisfy the definitions, and collisions, checked or not, do not exist. */
  ghost predicate SatisfiedAt(ds: seq<Definition>, nodes: map<ObjectId, EncodedNode>, ids: set<ObjectId>) {
    forall d | d in ds :: DefinitionOk(d, nodes, ids)
  }

  ghost predicate DefinitionOk(d: Definition, nodes: map<ObjectId, EncodedNode>, ids: set<ObjectId>) {
    && (forall id | id in nodes && Checked(ids, id) :: FieldOk(d, nodes[id], nodes))
    && (d.unique ==> forall a, b :: !Collide(d, nodes, a, b))
  }

  /** Every collision involves a checked node. */
  ghost predicate CollisionsChecked(ds: seq<Definition>, nodes: map<ObjectId, EncodedNode>, ids: set<ObjectId>) {
    forall d, a, b | d in ds && d.unique && Collide(d, nodes, a, b) :: ids == {} || a in ids || b in ids
  }

  lemma DefinitionDecides(k: nat, d: Definition, order: seq<ObjectId>, nodes: map<ObjectId, EncodedNode>,
                          ids: set<ObjectId>)
    requires (forall id :: id in order <==> id in nodes) && Distinct(order)
    requires d.unique ==> forall a, b | Collide(d, nodes, a, b) :: ids == {} || a in ids || b in ids
    ensures ReportedBy(k, d, order, nodes, ids) == [] <==> DefinitionOk(d, nodes, ids)
  {
    NoFieldViolations(k, d, order, nodes, ids);
    if d.unique {
      ScanReports(k, d, order, nodes, ids);
      assert (forall a, b | a in order && b in order :: !Collide(d, nodes, a, b)) <==>
             forall a, b :: !Collide(d, nodes, a, b);
    }
  }

  /** A check reports nothing exactly when the checked nodes satisfy the definitions. */
  lemma {:induction false} CheckDecides(ds: seq<Definition>, order: seq<ObjectId>, nodes: map<ObjectId, EncodedNode>,
                                        ids: set<ObjectId>)
    requires (forall id :: id in order <==> id in nodes) && Distinct(order) && CollisionsChecked(ds, nodes, ids)
    ensures Violations(ds, order, nodes, ids) == [] <==> SatisfiedAt(ds, nodes, ids)
    decreases |ds|
  {
    if ds != [] {
      var k := |ds| - 1;
      assert ds == ds[..k] + [ds[k]];
      CheckDecides(ds[..k], order, nodes, ids);
      DefinitionDecides(k, ds[k], order, nodes, ids);
    }
  }

  lemma SatisfiedEverywhere(ds: seq<Definition>, nodes: map<ObjectId, EncodedNode>)
    ensures SatisfiedAt(ds, nodes, {}) <==> Satisfied(ds, nodes)
  {
  }

  // What is reported.

  /** Every claimed value is held by the scanned node that claims it. */
  ghost predicate SeenHeld(d: Definition, order: seq<ObjectId>, nodes: map<ObjectId, EncodedNode>,
                           seen: map<EncodedValue, ObjectId>) {
    forall v | v in seen :: Holds(d, order, nodes, seen[v], v)
  }

  ghost predicate IsDuplicate(k: nat, d: Definition, order: seq<ObjectId>, nodes: map<ObjectId, EncodedNode>,
                              ids: set<ObjectId>, x: Violation) {
    && x.definition == k && x.kind == Duplicate && x.other.Some?
    && x.id in order && x.other.value in order && Collide(d, nodes, x.other.value, x.id)
    && (ids == {} || x.id in ids || x.other.value in ids)
  }

  lemma DuplicateNext(k: nat, d: Definition, front: seq<ObjectId>, last: ObjectId, nodes: map<ObjectId, EncodedNode>,
                      ids: set<ObjectId>, s: Scan)
    requires last in nodes && last !in front && SeenHeld(d, front, nodes, s.seen)
    requires forall x | x in s.violations :: IsDuplicate(k, d, front, nodes, ids, x)
    ensures var s' := ScanNode(k, d, s, last, nodes[last], ids);
            && SeenHeld(d, front + [last], nodes, s'.seen)
            && forall x | x in s'.violations :: IsDuplicate(k, d, front + [last], nodes, ids, x)
  {
    var v, s' := FieldOf(nodes[last], d), ScanNode(k, d, s, last, nodes[last], ids);
    forall w | w in s'.seen ensures Holds(d, front + [last], nodes, s'.seen[w], w) {
      HoldsNext(d, front, last, nodes, s'.seen[w], w);
    }
    if MatchesType(nodes[last], d) && !IsMissing(v) && v.value in s.seen {
      assert Holds(d, front, nodes, s.seen[v.value], v.value);
    }
  }

  /** A reported duplicate is a real collision of two scanned nodes, at least one of them checked. */
  lemma {:induction false} DuplicatesCollide(k: nat, d: Definition, order: seq<ObjectId>,
                                             nodes: map<ObjectId, EncodedNode>, ids: set<ObjectId>)
    requires (forall id | id in order :: id in nodes) && Distinct(order)
    ensures SeenHeld(d, order, nodes, ScanAll(k, d, order, nodes, ids).seen)
    ensures forall x | x in ScanAll(k, d, order, nodes, ids).violations :: IsDuplicate(k, d, order, nodes, ids, x)
    decreases |order|
  {
    if order != [] {
      var front, last := order[..|order| - 1], order[|order| - 1];
      DuplicatesCollide(k, d, front, nodes, ids);
      DuplicateNext(k, d, front, last, nodes, ids, ScanAll(k, d, front, nodes, ids));
      assert order == front + [last];
    }
  }

  /** A report of definition `k`: what a checked node of its type violates, or a collision. */
  ghost predicate IsReport(k: nat, d: Definition, order: seq<ObjectId>, nodes: map<ObjectId, EncodedNode>,
                           ids: set<ObjectId>, x: Violation)
    requires forall id | id in order :: id in nodes
  {
    && x == Violation(k, x.kind, x.id, None) && x.id in order && (ids == {} || x.id in ids)
    && (d.typeName.Some? ==> TypeOf(nodes[x.id]) == d.typeName) && Violates(d, x.kind, nodes[x.id], nodes)
  }

  /** One definition reports, besides duplicates, exactly what its checked nodes violate. */
  lemma DefinitionReports(k: nat, d: Definition, order: seq<ObjectId>, nodes: map<ObjectId, EncodedNode>,
                          ids: set<ObjectId>, x: Violation)
    requires (forall id | id in order :: id in nodes) && Distinct(order)
    ensures x in ReportedBy(k, d, order, nodes, ids) ==>
              IsReport(k, d, order, nodes, ids, x) || (d.unique && IsDuplicate(k, d, order, nodes, ids, x))
    ensures IsReport(k, d, order, nodes, ids, x) ==> x in ReportedBy(k, d, order, nodes, ids)
  {
    FieldsReport(k, d, order, nodes, ids, x);
    if d.unique {
      DuplicatesCollide(k, d, order, nodes, ids);
    }
  }

  ghost predicate Expected(ds: seq<Definition>, order: seq<ObjectId>, nodes: map<ObjectId, EncodedNode>,
                           ids: set<ObjectId>, x: Violation)
    requires forall id | id in order :: id in nodes
  {
    x.definition < |ds| && IsReport(x.definition, ds[x.definition], order, nodes, ids, x)
  }

  ghost predicate RealCollision(ds: seq<Definition>, order: seq<ObjectId>, nodes: map<ObjectId, EncodedNode>,
                                ids: set<ObjectId>, x: Violation) {
    && x.definition < |ds| && ds[x.definition].unique
    && IsDuplicate(x.definition, ds[x.definition], order, nodes, ids, x)
  }

  lemma ExpectedNext(ds: seq<Definition>, order: seq<ObjectId>, nodes: map<ObjectId, EncodedNode>, ids: set<ObjectId>,
                     x: Violation, k: nat)
    requires (forall id | id in order :: id in nodes) && k + 1 == |ds|
    ensures Expected(ds, order, nodes, ids, x) <==>
            Expected(ds[..k], order, nodes, ids, x) || (x.definition == k && IsReport(k, ds[k], order, nodes, ids, x))
    ensures RealCollision(ds, order, nodes, ids, x) <==>
            RealCollision(ds[..k], order, nodes, ids, x) ||
            (x.definition == k && ds[k].unique && IsDuplicate(k, ds[k], order, nodes, ids, x))
  {
    assert x.definition < k ==> ds[..k][x.definition] == ds[x.definition];
  }

  /**
   * The whole check reports exactly what the checked nodes violate of each definition, and besides only real collisions
   * that involve a checked node.
   */
  lemma {:induction false} CheckReports(ds: seq<Definition>, order: seq<ObjectId>, nodes: map<ObjectId, EncodedNode>,
                                        ids: set<ObjectId>, x: Violation)
    requires (forall id | id in order :: id in nodes) && Distinct(order)
    ensures x in Violations(ds, order, nodes, ids) ==>
              Expected(ds, order, nodes, ids, x) || RealCollision(ds, order, nodes, ids, x)
    ensures Expected(ds, order, nodes, ids, x) ==> x in Violations(ds, order, nodes, ids)
    decreases |ds|
  {
    if ds != [] {
      var k := |ds| - 1;
      CheckReports(ds[..k], order, nodes, ids, x);
      DefinitionReports(k, ds[k], order, nodes, ids, x);
      ExpectedNext(ds, order, nodes, ids, x, k);
    }
  }

  /** `at[i]` is the position of the node that report `i` is about; no report is about an earlier node than the last. */
  ghost predicate InNodeOrder(r: seq<Violation>, order: seq<ObjectId>, at: seq<nat>) {
    && |at| == |r|
    && (forall i | 0 <= i < |r| :: at[i] < |order| && order[at[i]] == r[i].id)
    && (forall i, j | 0 <= i < j < |at| :: at[i] <= at[j])
  }

  lemma OrderedNext(r: seq<Violation>, front: seq<ObjectId>, at: seq<nat>, more: seq<Violation>, last: ObjectId)
    requires InNodeOrder(r, front, at) && forall x | x in more :: x.id == last
    ensures InNodeOrder(r + more, front + [last], at + seq(|more|, _ => |front|))
  {
    var order, at' := front + [last], at + seq(|more|, _ => |front|);
    forall i | 0 <= i < |r + more| ensures at'[i] < |order| && order[at'[i]] == (r + more)[i].id {
      assert i >= |r| ==> (r + more)[i] in more;
    }
  }

  function NodeReports(k: nat, d: Definition, id: ObjectId, nodes: map<ObjectId, EncodedNode>,
                       ids: set<ObjectId>): (r: seq<Violation>)
    requires id in nodes
    ensures forall x | x in r :: x.id == id
  {
    if Checked(ids, id) && MatchesType(nodes[id], d) then FieldViolations(k, d, id, nodes[id], nodes) else []
  }

  lemma AllFieldsNext(k: nat, d: Definition, front: seq<ObjectId>, last: ObjectId, nodes: map<ObjectId, EncodedNode>,
                      ids: set<ObjectId>)
    requires last in nodes && forall id | id in front :: id in nodes
    ensures AllFieldViolations(k, d, front + [last], nodes, ids) ==
            AllFieldViolations(k, d, front, nodes, ids) + NodeReports(k, d, last, nodes, ids)
  {
    assert (front + [last])[..|front|] == front;
  }

  /** Fields are reported node by node, in the order of the nodes. */
  lemma {:induction false} FieldsInOrder(k: nat, d: Definition, order: seq<ObjectId>,
                                         nodes: map<ObjectId, EncodedNode>, ids: set<ObjectId>) returns (at: seq<nat>)
    requires forall id | id in order :: id in nodes
    ensures InNodeOrder(AllFieldViolations(k, d, order, nodes, ids), order, at)
    decreases |order|
  {
    if order == [] {
      at := [];
    } else {
      var front, last := order[..|order| - 1], order[|order| - 1];
      assert front + [last] == order;
      at := FieldsInOrder(k, d, front, nodes, ids);
      OrderedNext(AllFieldViolations(k, d, front, nodes, ids), front, at, NodeReports(k, d, last, nodes, ids), last);
      AllFieldsNext(k, d, front, last, nodes, ids);
      at := at + seq(|NodeReports(k, d, last, nodes, ids)|, _ => |front|);
    }
  }

  lemma OfDefinition(k: nat, d: Definition, order: seq<ObjectId>, nodes: map<ObjectId, EncodedNode>, ids: set<ObjectId>)
    requires (forall id | id in order :: id in nodes) && Distinct(order)
    ensures forall x | x in ReportedBy(k, d, order, nodes, ids) :: x.definition == k
  {
    forall x | x in ReportedBy(k, d, order, nodes, ids) ensures x.definition == k {
      DefinitionReports(k, d, order, nodes, ids, x);
    }
  }

  ghost predicate InDefinitionOrder(r: seq<Violation>, n: nat) {
    && (forall x | x in r :: x.definition < n)
    && forall i, j | 0 <= i < j < |r| :: r[i].definition <= r[j].definition
  }

  lemma DefinitionNext(r: seq<Violation>, more: seq<Violation>, n: nat)
    requires InDefinitionOrder(r, n) && forall x | x in more :: x.definition == n
    ensures InDefinitionOrder(r + more, n + 1)
  {
    var all := r + more;
    forall i, j | 0 <= i < j < |all| ensures all[i].definition <= all[j].definition {
      assert i < |r| ==> all[i] in r;
      assert i >= |r| ==> all[i] in more;
      assert j >= |r| ==> all[j] in more;
    }
  }

  /** Definitions are reported one after the other. */
  lemma {:induction false} DefinitionsInOrder(ds: seq<Definition>, order: seq<ObjectId>,
                                              nodes: map<ObjectId, EncodedNode>, ids: set<ObjectId>)
    requires (forall id | id in order :: id in nodes) && Distinct(order)
    ensures InDefinitionOrder(Violations(ds, order, nodes, ids), |ds|)
    decreases |ds|
  {
    if ds != [] {
      var k := |ds| - 1;
      DefinitionsInOrder(ds[..k], order, nodes, ids);
      OfDefinition(k, ds[k], order, nodes, ids);
      DefinitionNext(Violations(ds[..k], order, nodes, ids), ReportedBy(k, ds[k], order, nodes, ids), k);
    }
  }

  // Checking only what was touched.

  /** Outside the touched ids the graph is the base graph, and surviving nodes keep their kind. */
  ghost predicate TouchedOnly(base: map<ObjectId, EncodedNode>, nodes: map<ObjectId, EncodedNode>,
                              touched: set<ObjectId>) {
    && (forall id | id in nodes && id !in touched :: id in base && nodes[id] == base[id])
    && (forall id | id in nodes && id in base :: KindOf(nodes[id]) == KindOf(base[id]))
  }

  /** An untouched node that was right stays right: what it refers to is still there and of the same kind. */
  lemma UntouchedStaysOk(d: Definition, base: map<ObjectId, EncodedNode>, nodes: map<ObjectId, EncodedNode>,
                         touched: set<ObjectId>, id: ObjectId)
    requires TouchedOnly(base, nodes, touched) && ClosedNodes(nodes) && id in nodes && id !in touched
    requires FieldOk(d, base[id], base)
    ensures FieldOk(d, nodes[id], nodes)
  {
    var v := FieldOf(nodes[id], d);
    if MatchesType(nodes[id], d) && !IsMissing(v) && v.value.Ref? {
      NoReportIffOk(0, d, 0, base[id], base);
      NoReportIffOk(0, d, 0, nodes[id], nodes);
      var to := v.value.id;
      FoundProperty(nodes[id].props, d.path);
      PropertySlotsMember(nodes[id].props, Ref(to));
      assert RefersTo(nodes[id], to);
      var before := FieldViolations(0, d, 0, base[id], base);
      assert before == [];
      assert !WrongTypeAt(d, v.value, base) && !DanglingAt(d, v.value, base) by {
        NothingReported(d, base[id], base);
      }
      SameValueType(base, nodes, to);
      NothingElseReported(d, base[id], base, nodes);
    }
  }

  lemma NothingReported(d: Definition, node: EncodedNode, nodes: map<ObjectId, EncodedNode>)
    requires FieldViolations(0, d, 0, node, nodes) == [] && !IsMissing(FieldOf(node, d))
    ensures !WrongTypeAt(d, FieldOf(node, d).value, nodes) && !DanglingAt(d, FieldOf(node, d).value, nodes)
  {
    var v := FieldOf(node, d).value;
    var a := Report(WrongTypeAt(d, v, nodes), 0, WrongType, 0);
    var e := Report(DanglingAt(d, v, nodes), 0, Dangling, 0);
    assert |FieldViolations(0, d, 0, node, nodes)| >= |a| + |e|;
  }

  /** Only the type and existence checks look at other nodes. */
  lemma NothingElseReported(d: Definition, node: EncodedNode, base: map<ObjectId, EncodedNode>,
                            nodes: map<ObjectId, EncodedNode>)
    requires FieldViolations(0, d, 0, node, base) == [] && !IsMissing(FieldOf(node, d))
    requires !WrongTypeAt(d, FieldOf(node, d).value, nodes) && !DanglingAt(d, FieldOf(node, d).value, nodes)
    ensures FieldViolations(0, d, 0, node, nodes) == []
  {
    NothingReported(d, node, base);
  }

  lemma SameValueType(base: map<ObjectId, EncodedNode>, nodes: map<ObjectId, EncodedNode>, to: ObjectId)
    requires to in nodes && (to in base ==> KindOf(nodes[to]) == KindOf(base[to]))
    ensures to in base ==> ValueType(Ref(to), nodes) == ValueType(Ref(to), base)
  {
    if to in base {
      KindTells(nodes[to]);
      KindTells(base[to]);
    }
  }

  lemma KindTells(node: EncodedNode)
    ensures node.LazyNode? <==> KindOf(node) == "lazy"
    ensures node.ArrayNode? <==> KindOf(node) == "array"
  {
    match node
    case LazyNode(_) => assert |KindOf(node)| == 4;
    case ArrayNode(_) => assert |KindOf(node)| == 5;
    case ObjectNode(_, _) => assert |KindOf(node)| == 6;
    case _ => assert |KindOf(node)| == 3;
  }

  lemma UntouchedCollide(d: Definition, base: map<ObjectId, EncodedNode>, nodes: map<ObjectId, EncodedNode>,
                         touched: set<ObjectId>,
                         a: ObjectId, b: ObjectId)
    requires TouchedOnly(base, nodes, touched) && Collide(d, nodes, a, b) && a !in touched && b !in touched
    ensures Collide(d, base, a, b)
  {
  }

  /**
   * If the base graph satisfied every constraint and only the touched nodes changed, then checking just the touched
   * nodes reports a violation exactly when checking the whole graph does.
   */
  lemma IncrementalIffFull(ds: seq<Definition>, base: map<ObjectId, EncodedNode>, nodes: map<ObjectId, EncodedNode>,
                           touched: set<ObjectId>,
                           order: seq<ObjectId>)
    requires (forall id :: id in order <==> id in nodes) && Distinct(order)
    requires Satisfied(ds, base) && TouchedOnly(base, nodes, touched) && ClosedNodes(nodes)
    ensures Violations(ds, order, nodes, touched) == [] <==> Violations(ds, order, nodes, {}) == []
    ensures Violations(ds, order, nodes, {}) == [] <==> Satisfied(ds, nodes)
  {
    forall d, a, b | d in ds && d.unique && Collide(d, nodes, a, b)
      ensures touched == {} || a in touched || b in touched {
      if a !in touched && b !in touched {
        UntouchedCollide(d, base, nodes, touched, a, b);
      }
    }
    CheckDecides(ds, order, nodes, touched);
    CheckDecides(ds, order, nodes, {});
    SatisfiedEverywhere(ds, nodes);
    forall d, id | d in ds && id in nodes && id !in touched ensures FieldOk(d, nodes[id], nodes) {
      UntouchedStaysOk(d, base, nodes, touched, id);
    }
  }
}
