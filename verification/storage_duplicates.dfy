/** Which duplicates a scan reports, and against which node. */
module StorageDuplicates {
  import opened EncodedGraph
  import opened StorageConstraints

  ghost predicate Reported(r: seq<Violation>, id: ObjectId) {
    exists x | x in r :: x.id == id
  }

  ghost predicate HoldsAt(d: Definition, order: seq<ObjectId>, nodes: map<ObjectId, EncodedNode>, i: nat,
                          v: EncodedValue) {
    i < |order| && order[i] in nodes && MatchesType(nodes[order[i]], d) &&
    !IsMissing(FieldOf(nodes[order[i]], d)) && FieldOf(nodes[order[i]], d) == Some(v)
  }

  /** The last node before position `n` that holds the value and was not itself reported. */
  ghost predicate LastFree(d: Definition, order: seq<ObjectId>, nodes: map<ObjectId, EncodedNode>, r: seq<Violation>,
                           n: nat, v: EncodedValue, j: nat) {
    && j < n && HoldsAt(d, order, nodes, j, v) && !Reported(r, order[j])
    && forall l: nat | j < l < n && HoldsAt(d, order, nodes, l, v) :: Reported(r, order[l])
  }

  ghost predicate NoneHolds(d: Definition, order: seq<ObjectId>, nodes: map<ObjectId, EncodedNode>, n: nat,
                            v: EncodedValue) {
    forall l: nat | l < n :: !HoldsAt(d, order, nodes, l, v)
  }

  /** The node at `i` is reported when it or the last free holder of its value is checked, and against that holder. */
  ghost predicate RightAgainst(k: nat, ids: set<ObjectId>, r: seq<Violation>, id: ObjectId, holder: ObjectId) {
    && (Reported(r, id) <==> Involves(ids, id, holder))
    && forall x | x in r && x.id == id :: x == Violation(k, Duplicate, id, Some(holder))
  }

  ghost predicate RightAt(k: nat, d: Definition, order: seq<ObjectId>, nodes: map<ObjectId, EncodedNode>,
                          ids: set<ObjectId>, r: seq<Violation>, i: nat, v: EncodedValue)
    requires i < |order|
  {
    || (NoneHolds(d, order, nodes, i, v) && !Reported(r, order[i]))
    || exists j: nat | j < i && LastFree(d, order, nodes, r, i, v, j) :: RightAgainst(k, ids, r, order[i], order[j])
  }

  ghost predicate SeenIs(d: Definition, order: seq<ObjectId>, nodes: map<ObjectId, EncodedNode>, r: seq<Violation>,
                         n: nat, seen: map<EncodedValue, ObjectId>, v: EncodedValue)
    requires n <= |order|
  {
    if v in seen then exists j: nat | j < n && LastFree(d, order, nodes, r, n, v, j) :: seen[v] == order[j]
    else NoneHolds(d, order, nodes, n, v)
  }

  predicate Involves(ids: set<ObjectId>, a: ObjectId, b: ObjectId) {
    ids == {} || a in ids || b in ids
  }

  /** Reports of the last node do not change what is free among the earlier ones. */
  lemma Framed(d: Definition, front: seq<ObjectId>, last: ObjectId, nodes: map<ObjectId, EncodedNode>,
               r: seq<Violation>, r': seq<Violation>, n: nat, v: EncodedValue)
    requires n <= |front| && forall id | id in front :: Reported(r, id) <==> Reported(r', id)
    ensures forall j: nat :: LastFree(d, front + [last], nodes, r', n, v, j) <==> LastFree(d, front, nodes, r, n, v, j)
    ensures NoneHolds(d, front + [last], nodes, n, v) <==> NoneHolds(d, front, nodes, n, v)
  {
    var order := front + [last];
    assert forall l: nat | l < n :: order[l] == front[l] && front[l] in front;
    assert forall l: nat | l < n :: HoldsAt(d, order, nodes, l, v) <==> HoldsAt(d, front, nodes, l, v);
  }

  /** The last node takes a value over exactly when it holds it and is not reported. */
  lemma TakesOver(d: Definition, order: seq<ObjectId>, nodes: map<ObjectId, EncodedNode>, r: seq<Violation>, n: nat,
                  v: EncodedValue)
    requires n + 1 == |order|
    ensures HoldsAt(d, order, nodes, n, v) && !Reported(r, order[n]) ==> LastFree(d, order, nodes, r, n + 1, v, n)
    ensures !HoldsAt(d, order, nodes, n, v) || Reported(r, order[n]) ==>
              forall j: nat :: LastFree(d, order, nodes, r, n, v, j) ==> LastFree(d, order, nodes, r, n + 1, v, j)
    ensures !HoldsAt(d, order, nodes, n, v) && NoneHolds(d, order, nodes, n, v) ==>
              NoneHolds(d, order, nodes, n + 1, v)
  {
  }

  ghost predicate ScanRight(k: nat, d: Definition, order: seq<ObjectId>, nodes: map<ObjectId, EncodedNode>,
                            ids: set<ObjectId>, s: Scan) {
    && (forall x | x in s.violations :: x.id in order)
    && (forall v :: SeenIs(d, order, nodes, s.violations, |order|, s.seen, v))
    && (forall i: nat, v | i < |order| && HoldsAt(d, order, nodes, i, v) ::
         RightAt(k, d, order, nodes, ids, s.violations, i, v))
  }

  lemma SameReports(k: nat, front: seq<ObjectId>, last: ObjectId, r: seq<Violation>, r': seq<Violation>)
    requires last !in front && (r' == r || exists x: Violation :: x.id == last && r' == r + [x])
    ensures forall id | id in front :: Reported(r, id) <==> Reported(r', id)
    ensures forall id, ids, holder | id in front && RightAgainst(k, ids, r, id, holder) ::
              RightAgainst(k, ids, r', id, holder)
  {
    if r' != r {
      var x: Violation :| x.id == last && r' == r + [x];
      assert forall y :: y in r' <==> y in r || y == x;
    }
  }

  /** Earlier nodes stay rightly reported. */
  lemma EarlierRight(k: nat, d: Definition, front: seq<ObjectId>, last: ObjectId, nodes: map<ObjectId, EncodedNode>,
                     ids: set<ObjectId>, r: seq<Violation>, r': seq<Violation>, i: nat, v: EncodedValue)
    requires i < |front| && last !in front && (r' == r || exists x: Violation :: x.id == last && r' == r + [x])
    requires RightAt(k, d, front, nodes, ids, r, i, v)
    ensures RightAt(k, d, front + [last], nodes, ids, r', i, v)
  {
    SameReports(k, front, last, r, r');
    Framed(d, front, last, nodes, r, r', i, v);
    assert front[i] in front;
    if !NoneHolds(d, front, nodes, i, v) {
      var j: nat :| j < i && LastFree(d, front, nodes, r, i, v, j) && RightAgainst(k, ids, r, front[i], front[j]);
      assert LastFree(d, front + [last], nodes, r', i, v, j);
      assert (front + [last])[j] == front[j] && (front + [last])[i] == front[i];
      assert RightAgainst(k, ids, r', front[i], front[j]);
    }
  }

  /** The last node is rightly reported. */
  lemma LastRight(k: nat, d: Definition, front: seq<ObjectId>, last: ObjectId, nodes: map<ObjectId, EncodedNode>,
                  ids: set<ObjectId>, s: Scan, v: EncodedValue)
    requires last in nodes && last !in front && ScanRight(k, d, front, nodes, ids, s)
    requires HoldsAt(d, front + [last], nodes, |front|, v)
    ensures RightAt(k, d, front + [last], nodes, ids, ScanNode(k, d, s, last, nodes[last], ids).violations, |front|, v)
  {
    var s' := ScanNode(k, d, s, last, nodes[last], ids);
    var order := front + [last];
    SameReports(k, front, last, s.violations, s'.violations);
    Framed(d, front, last, nodes, s.violations, s'.violations, |front|, v);
    assert SeenIs(d, front, nodes, s.violations, |front|, s.seen, v);
    assert !Reported(s.violations, last);
    if v in s.seen {
      var j: nat :| j < |front| && LastFree(d, front, nodes, s.violations, |front|, v, j) && s.seen[v] == front[j];
      assert LastFree(d, order, nodes, s'.violations, |front|, v, j) && order[j] == front[j];
      var x := Violation(k, Duplicate, last, Some(front[j]));
      if Involves(ids, last, front[j]) {
        assert s'.violations == s.violations + [x] && x in s'.violations;
      }
      assert RightAgainst(k, ids, s'.violations, last, front[j]);
    }
  }

  lemma SeenNext(k: nat, d: Definition, front: seq<ObjectId>, last: ObjectId, nodes: map<ObjectId, EncodedNode>,
                 ids: set<ObjectId>, s: Scan, v: EncodedValue)
    requires last in nodes && last !in front && ScanRight(k, d, front, nodes, ids, s)
    ensures var s' := ScanNode(k, d, s, last, nodes[last], ids);
            SeenIs(d, front + [last], nodes, s'.violations, |front| + 1, s'.seen, v)
  {
    var s' := ScanNode(k, d, s, last, nodes[last], ids);
    var order, n := front + [last], |front|;
    SameReports(k, front, last, s.violations, s'.violations);
    Framed(d, front, last, nodes, s.violations, s'.violations, n, v);
    TakesOver(d, order, nodes, s'.violations, n, v);
    assert SeenIs(d, front, nodes, s.violations, n, s.seen, v);
    assert !Reported(s.violations, last);
    if v in s.seen {
      var j: nat :| j < n && LastFree(d, front, nodes, s.violations, n, v, j) && s.seen[v] == front[j];
      assert LastFree(d, order, nodes, s'.violations, n, v, j) && order[j] == front[j];
      if HoldsAt(d, order, nodes, n, v) && Involves(ids, last, front[j]) {
        var x := Violation(k, Duplicate, last, Some(front[j]));
        assert s'.violations == s.violations + [x] && x in s'.violations;
        assert Reported(s'.violations, order[n]);
      }
    }
  }

  lemma StepRight(k: nat, d: Definition, front: seq<ObjectId>, last: ObjectId, nodes: map<ObjectId, EncodedNode>,
                  ids: set<ObjectId>, s: Scan, i: nat, v: EncodedValue)
    requires last in nodes && last !in front && ScanRight(k, d, front, nodes, ids, s)
    requires HoldsAt(d, front + [last], nodes, i, v)
    ensures RightAt(k, d, front + [last], nodes, ids, ScanNode(k, d, s, last, nodes[last], ids).violations, i, v)
  {
    if i < |front| {
      assert HoldsAt(d, front, nodes, i, v);
      EarlierRight(k, d, front, last, nodes, ids, s.violations,
                   ScanNode(k, d, s, last, nodes[last], ids).violations, i, v);
    } else {
      LastRight(k, d, front, last, nodes, ids, s, v);
    }
  }

  lemma ScanStaysRight(k: nat, d: Definition, front: seq<ObjectId>, last: ObjectId, nodes: map<ObjectId, EncodedNode>,
                       ids: set<ObjectId>, s: Scan)
    requires last in nodes && last !in front && ScanRight(k, d, front, nodes, ids, s)
    ensures ScanRight(k, d, front + [last], nodes, ids, ScanNode(k, d, s, last, nodes[last], ids))
  {
    var s', order := ScanNode(k, d, s, last, nodes[last], ids), front + [last];
    forall v ensures SeenIs(d, order, nodes, s'.violations, |order|, s'.seen, v) {
      SeenNext(k, d, front, last, nodes, ids, s, v);
    }
    forall i: nat, v | i < |order| && HoldsAt(d, order, nodes, i, v)
      ensures RightAt(k, d, order, nodes, ids, s'.violations, i, v)
    {
      StepRight(k, d, front, last, nodes, ids, s, i, v);
    }
  }

  /**
   * The scan, exactly: a node is reported if and only if an earlier one holds its value and it or the last such node
   * not itself reported is among the checked ones; the report names that node.
   */
  lemma {:induction false} DuplicatesExact(k: nat, d: Definition, order: seq<ObjectId>,
                                           nodes: map<ObjectId, EncodedNode>, ids: set<ObjectId>)
    requires (forall id | id in order :: id in nodes) && Distinct(order)
    ensures ScanRight(k, d, order, nodes, ids, ScanAll(k, d, order, nodes, ids))
    decreases |order|
  {
    if order != [] {
      var front, last := order[..|order| - 1], order[|order| - 1];
      assert order == front + [last];
      DuplicatesExact(k, d, front, nodes, ids);
      ScanStaysRight(k, d, front, last, nodes, ids, ScanAll(k, d, front, nodes, ids));
    }
  }
}
