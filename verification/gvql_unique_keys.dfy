/** When two tuples share a key, and when a unique index refuses them. */
module GvqlUniqueKeys {
  import opened EncodedGraph
  import opened GvqlValues
  import opened GvqlExpressions
  import opened GvqlIndexKeys
  import opened GvqlAdvancedIndex

  /** No part's key contains the character that separates the parts. */
  ghost predicate Separable(rt: Runtime, vs: seq<JsValue>) {
    forall i | 0 <= i < |vs| :: TUPLE_SEPARATOR[0] !in StableKey(rt, vs[i])
  }

  predicate FirstAt(s: string, c: char, n: nat) {
    n < |s| && s[n] == c && forall i | 0 <= i < n :: s[i] != c
  }

  lemma FirstParts(a: string, b: string, x: string, y: string, separator: char)
    requires separator !in a && separator !in b && a + [separator] + x == b + [separator] + y
    ensures a == b && x == y
  {
    var s, t := a + [separator] + x, b + [separator] + y;
    assert forall i | 0 <= i < |a| :: s[i] == a[i];
    assert forall i | 0 <= i < |b| :: t[i] == b[i];
    assert FirstAt(s, separator, |a|) && FirstAt(t, separator, |b|);
    assert |a| == |b|;
    assert a == s[..|a|] && b == t[..|b|];
    assert x == s[|a| + 1..] && y == t[|b| + 1..];
  }

  /** Tuples of one length share their key if and only if their parts do, one by one. */
  lemma {:induction false} TuplesShareKeyIff(rt: Runtime, a: seq<JsValue>, b: seq<JsValue>)
    requires |a| == |b| && Separable(rt, a) && Separable(rt, b)
    ensures TupleKey(rt, a) == TupleKey(rt, b) <==>
            forall i | 0 <= i < |a| :: StableKey(rt, a[i]) == StableKey(rt, b[i])
    decreases |a|
  {
    if |a| > 1 {
      TuplesShareKeyIff(rt, a[1..], b[1..]);
      if TupleKey(rt, a) == TupleKey(rt, b) {
        FirstParts(StableKey(rt, a[0]), StableKey(rt, b[0]), TupleKey(rt, a[1..]), TupleKey(rt, b[1..]),
                   TUPLE_SEPARATOR[0]);
        assert forall i | 1 <= i < |a| :: a[i] == a[1..][i - 1] && b[i] == b[1..][i - 1];
      } else {
        assert forall i | 0 <= i < |a| - 1 :: a[1..][i] == a[i + 1] && b[1..][i] == b[i + 1];
      }
    }
  }

  const FIRST := [JsString("x\U{1}string:y"), JsString("z")]
  const SECOND := [JsString("x"), JsString("y\U{1}string:z")]

  lemma PairKey(rt: Runtime, v: string, w: string)
    requires HostLanguage(rt)
    ensures TupleKey(rt, [JsString(v), JsString(w)]) == "string:" + v + "\U{1}" + ("string:" + w)
  {
    var pair := [JsString(v), JsString(w)];
    assert pair[1..] == [JsString(w)];
  }

  /** With the separator inside a text, two pairs that differ in both parts share their key. */
  lemma SeparatorCollides(rt: Runtime)
    requires HostLanguage(rt)
    ensures TupleKey(rt, FIRST) == TupleKey(rt, SECOND)
    ensures !StrictEquals(FIRST[0], SECOND[0]) && !StrictEquals(FIRST[1], SECOND[1])
  {
    PairKey(rt, "x\U{1}string:y", "z");
    PairKey(rt, "x", "y\U{1}string:z");
    assert FIRST[0].text[1] == '\U{1}' && |SECOND[0].text| == 1;
    assert |FIRST[1].text| == 1 && |SECOND[1].text| > 1;
  }

  /** The definition keeps each key for one node. */
  predicate IsUnique(d: Definition) {
    d.kind == UniqueKey || (d.kind == Composite && d.unique)
  }

  ghost predicate Collide(rt: Runtime, nodes: map<ObjectId, EncodedNode>, x: ObjectId, y: ObjectId, d: Definition,
                          d': Definition) {
    && x != y && x in nodes && y in nodes && d.name == d'.name && IsUnique(d) && IsUnique(d')
    && Lists(rt, d, nodes[x]) && Lists(rt, d', nodes[y])
    && TupleKey(rt, DefinedValues(rt, nodes[x], d)) == TupleKey(rt, DefinedValues(rt, nodes[y], d'))
  }

  lemma ConflictCollides(rt: Runtime, nodes: map<ObjectId, EncodedNode>, done: set<(ObjectId, Definition)>)
    returns (x: ObjectId, y: ObjectId, d: Definition, d': Definition)
    requires Conflict(rt, nodes, done)
    ensures Collide(rt, nodes, x, y, d, d') && (x, d) in done && (y, d') in done
  {
    var at;
    at, x, y :| x != y && ClaimedBy(rt, nodes, done, at, x) && ClaimedBy(rt, nodes, done, at, y);
    d :| (x, d) in done && at.name == d.name && ClaimsKey(rt, d, nodes[x], at.key);
    d' :| (y, d') in done && at.name == d'.name && ClaimsKey(rt, d', nodes[y], at.key);
  }

  lemma CollisionConflicts(rt: Runtime, nodes: map<ObjectId, EncodedNode>, done: set<(ObjectId, Definition)>,
                           x: ObjectId, y: ObjectId, d: Definition, d': Definition)
    requires Collide(rt, nodes, x, y, d, d') && (x, d) in done && (y, d') in done
    ensures Conflict(rt, nodes, done)
  {
    var at := Slot(UniqueKey, d.name, TupleKey(rt, DefinedValues(rt, nodes[x], d)));
    assert ClaimedBy(rt, nodes, done, at, x) && ClaimedBy(rt, nodes, done, at, y);
  }

  /** The index is refused exactly when unique definitions of one name list two nodes under one key. */
  lemma ConflictMeans(rt: Runtime, nodes: map<ObjectId, EncodedNode>, order: seq<ObjectId>, ds: seq<Definition>)
    requires forall id :: id in order <==> id in nodes
    ensures Conflict(rt, nodes, Pairs(order, ds)) <==>
            exists x: ObjectId, y: ObjectId, d, d' | d in ds && d' in ds :: Collide(rt, nodes, x, y, d, d')
  {
    if Conflict(rt, nodes, Pairs(order, ds)) {
      var x, y, d, d' := ConflictCollides(rt, nodes, Pairs(order, ds));
      assert d in ds && d' in ds;
    }
    if x: ObjectId, y: ObjectId, d, d' :| d in ds && d' in ds && Collide(rt, nodes, x, y, d, d') {
      CollisionConflicts(rt, nodes, Pairs(order, ds), x, y, d, d');
    }
  }

  /** Two listed nodes whose values are equal to each other are refused. */
  lemma EqualTuplesConflict(rt: Runtime, nodes: map<ObjectId, EncodedNode>, order: seq<ObjectId>, ds: seq<Definition>,
                            d: Definition, x: ObjectId, y: ObjectId)
    requires HostLanguage(rt) && (forall id :: id in order <==> id in nodes) && d in ds && IsUnique(d)
    requires x != y && x in nodes && y in nodes && Lists(rt, d, nodes[x]) && Lists(rt, d, nodes[y])
    requires var a, b := DefinedValues(rt, nodes[x], d), DefinedValues(rt, nodes[y], d);
             |a| == |b| && forall i | 0 <= i < |a| :: SameValueZero(a[i], b[i])
    ensures Conflict(rt, nodes, Pairs(order, ds))
  {
    EqualTuplesShareKey(rt, DefinedValues(rt, nodes[x], d), DefinedValues(rt, nodes[y], d));
    ConflictMeans(rt, nodes, order, ds);
    assert Collide(rt, nodes, x, y, d, d);
  }
}
