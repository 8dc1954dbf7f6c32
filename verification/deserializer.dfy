/** `GraphSerializer.deserialize`: shells first, filled as the graph is walked, cycles and all. */
module Deserializer {
  import opened EncodedGraph
  import opened Folding
  import opened LiveGraph
  import opened Serializer

  /** The nodes of `r` exist and are of known types: nothing in it makes `deserialize` throw. */
  predicate Loadable(nodes: map<ObjectId, EncodedNode>, types: set<string>, id: ObjectId) {
    id in nodes && KnownType(nodes[id], types)
  }

  /** A missing node, or one of a class nobody registered. */
  ghost predicate Refused(nodes: map<ObjectId, EncodedNode>, types: set<string>, id: ObjectId) {
    id in nodes ==> exists t: string, props :: t !in types && nodes[id] == ObjectNode(Some(t), props)
  }

  lemma RefusedIff(nodes: map<ObjectId, EncodedNode>, types: set<string>, id: ObjectId)
    ensures Refused(nodes, types, id) <==> !Loadable(nodes, types, id)
  {
    if id in nodes && !KnownType(nodes[id], types) {
      assert nodes[id] == ObjectNode(Some(nodes[id].typeName.value), nodes[id].props);
    }
  }

  /** `r` contains every id its existing nodes refer to. */
  ghost predicate ClosedIds(nodes: map<ObjectId, EncodedNode>, r: set<ObjectId>) {
    forall from, to | from in r && from in nodes && RefersTo(nodes[from], to) :: to in r
  }

  /** Every id the graph mentions. */
  ghost function MentionedIds(e: Envelope): set<ObjectId> {
    e.nodes.Keys +
    (set from, i | from in e.nodes && 0 <= i < |Slots(e.nodes[from])| && Slots(e.nodes[from])[i].Ref? ::
     Slots(e.nodes[from])[i].id) +
    (if e.root.Ref? then {e.root.id} else {})
  }

  /** The ids every closed set containing the root contains, whether or not they have a node. */
  ghost function ReachableIds(e: Envelope): set<ObjectId> {
    set id | id in MentionedIds(e) && forall s: set<ObjectId> | ClosedIds(e.nodes, s) &&
    (e.root.Ref? ==> e.root.id in s) :: id in s
  }

  lemma Mentioned(e: Envelope, from: ObjectId, to: ObjectId)
    requires from in e.nodes && RefersTo(e.nodes[from], to)
    ensures to in MentionedIds(e)
  {
    var i :| 0 <= i < |Slots(e.nodes[from])| && Slots(e.nodes[from])[i] == Ref(to);
  }

  lemma ReachableIdsClosed(e: Envelope)
    ensures ClosedIds(e.nodes, ReachableIds(e)) && (e.root.Ref? ==> e.root.id in ReachableIds(e))
  {
    forall from, to | from in ReachableIds(e) && from in e.nodes && RefersTo(e.nodes[from], to)
      ensures to in ReachableIds(e)
    {
      Mentioned(e, from, to);
    }
  }

  lemma ReachableIdsLeast(e: Envelope, s: set<ObjectId>)
    requires ClosedIds(e.nodes, s) && (e.root.Ref? ==> e.root.id in s)
    ensures ReachableIds(e) <= s
  {
  }

  /** `heap` is the graph of `e` laid out at `places`: one object per id, each the decoding of its node. */
  ghost predicate IsDecoding(e: Envelope, places: Places, heap: Heap, v: Value) {
    && Injective(places) && heap.Keys == places.Values && places.Keys <= e.nodes.Keys
    && v == DecodeValue(e.root, places) && (e.root.Ref? ==> e.root.id in places)
    && forall id | id in places :: heap[places[id]] == DecodeNode(e.nodes[id], places)
  }

  /** A hydrated object is the decoding of its node, and everything the node refers to has a place. */
  ghost predicate Hydrated(nodes: map<ObjectId, EncodedNode>, places: Places, heap: Heap, id: ObjectId) {
    && id in nodes && id in places && places[id] in heap
    && heap[places[id]] == DecodeNode(nodes[id], places)
    && forall to | RefersTo(nodes[id], to) :: to in places
  }

  /** What the walk maintains: distinct places below `next`, a live object at each, decoded unless in progress. */
  ghost predicate DecodingParts(nodes: map<ObjectId, EncodedNode>, types: set<string>, places: Places, heap: Heap,
                                next: Address,
                                done: set<ObjectId>, busy: set<ObjectId>, r: set<ObjectId>) {
    && places.Keys == done + busy && done !! busy && places.Keys <= r
    && Injective(places)
    && (forall id | id in places :: places[id] in heap && places[id] < next && Loadable(nodes, types, id))
    && (forall a | a in heap :: exists id | id in places :: places[id] == a)
    && (forall id | id in done :: Hydrated(nodes, places, heap, id))
  }

  ghost predicate DecodingSound(nodes: map<ObjectId, EncodedNode>, types: set<string>, places: Places, heap: Heap,
                                next: Address,
                                done: set<ObjectId>, busy: set<ObjectId>, r: set<ObjectId>) {
    forall u {:trigger Unfold(u)} | Unfold(u) :: DecodingParts(nodes, types, places, heap, next, done, busy, r)
  }

  lemma DecodingUnfolded(nodes: map<ObjectId, EncodedNode>, types: set<string>, places: Places, heap: Heap,
                         next: Address,
                 done: set<ObjectId>, busy: set<ObjectId>, r: set<ObjectId>)
    requires DecodingSound(nodes, types, places, heap, next, done, busy, r)
    ensures DecodingParts(nodes, types, places, heap, next, done, busy, r)
  {
    assert Unfold(true);
  }

  lemma ShellSound(nodes: map<ObjectId, EncodedNode>, types: set<string>, places: Places, heap: Heap, next: Address,
                   done: set<ObjectId>, busy: set<ObjectId>, r: set<ObjectId>, id: ObjectId)
    requires DecodingSound(nodes, types, places, heap, next, done, busy, r)
    requires id in r && id !in places && Loadable(nodes, types, id)
    ensures DecodingSound(nodes, types, places[id := next], heap[next := Shell(nodes[id])], next + 1, done, busy + {id},
                          r)
  {
    DecodingUnfolded(nodes, types, places, heap, next, done, busy, r);
    var places', heap' := places[id := next], heap[next := Shell(nodes[id])];
    assert next !in heap;
    forall k | k in done ensures Hydrated(nodes, places', heap', k) {
      assert Hydrated(nodes, places, heap, k);
      DecodeFrame(Slots(nodes[k]), places, places');
    }
    forall a | a in heap' ensures exists k | k in places' :: places'[k] == a {
      if a == next {
        assert places'[id] == a;
      } else {
        var k :| k in places && places[k] == a;
        assert places'[k] == a;
      }
    }
  }

  lemma FillSound(nodes: map<ObjectId, EncodedNode>, types: set<string>, places: Places, heap: Heap, next: Address,
                  done: set<ObjectId>, busy: set<ObjectId>, r: set<ObjectId>, id: ObjectId)
    requires DecodingSound(nodes, types, places, heap, next, done, busy, r)
    requires id in busy && id in nodes && id in places && forall to | RefersTo(nodes[id], to) :: to in places
    ensures DecodingSound(nodes, types, places, heap[places[id] := DecodeNode(nodes[id], places)], next, done + {id},
                          busy - {id}, r)
  {
    DecodingUnfolded(nodes, types, places, heap, next, done, busy, r);
    var heap' := heap[places[id] := DecodeNode(nodes[id], places)];
    forall k | k in done + {id} ensures Hydrated(nodes, places, heap', k) {
      assert k != id ==> Hydrated(nodes, places, heap, k) && places[k] != places[id];
    }
  }

  lemma DecodeNext(es: seq<EncodedValue>, i: nat, places: Places, places': Places)
    requires i < |es| && Extends(places, places') && forall id | Ref(id) in es[..i] :: id in places
    ensures DecodeValues(es[..i + 1], places') == DecodeValues(es[..i], places) + [DecodeValue(es[i], places')]
    ensures (es[i].Ref? ==> es[i].id in places') ==> forall id | Ref(id) in es[..i + 1] :: id in places'
  {
    DecodeFrame(es[..i], places, places');
    assert es[..i + 1] == es[..i] + [es[i]];
  }

  /** One call of `deserialize`; `heap` holds the objects it creates, at addresses no registered object has. */
  class Decoding {
    const nodes: map<ObjectId, EncodedNode>
    const types: set<string>
    const registry: ObjectIdRegistry
    var places: Places
    var hydrated: set<ObjectId>
    var hydrating: set<ObjectId>
    var heap: Heap
    var next: Address

    constructor (nodes: map<ObjectId, EncodedNode>, types: set<string>, registry: ObjectIdRegistry, firstFree: Address)
      ensures this.nodes == nodes && this.types == types && this.registry == registry
      ensures places == map[] && hydrated == {} && hydrating == {} && heap == map[] && next == firstFree
    {
      this.nodes, this.types, this.registry := nodes, types, registry;
      places, hydrated, hydrating, heap, next := map[], {}, {}, map[], firstFree;
    }

    ghost predicate Valid(r: set<ObjectId>)
      reads this, registry
    {
      && registry.Valid()
      && DecodingSound(nodes, types, places, heap, next, hydrated, hydrating, r)
      && (forall a | a in registry.ids :: a < next)
      && (forall id | id in places :: places[id] in registry.ids && registry.ids[places[id]] == id)
    }

    twostate predicate Progress(r: set<ObjectId>)
      reads this, registry
    {
      && Valid(r)
      && Extends(old(places), places) && old(hydrated) <= hydrated && hydrating == old(hydrating)
      && Extends(old(registry.ids), registry.ids)
    }

    /** A new shell under the id it is registered with again; `None` when the node is missing or its type unknown. */
    method CreateShell(id: ObjectId, ghost r: set<ObjectId>) returns (place: Option<Address>)
      requires Valid(r) && id in r && id !in places
      modifies this, registry
      ensures place.None? ==> !Loadable(nodes, types, id)
      ensures place.Some? ==>
                && Loadable(nodes, types, id) && place.value == old(next)
                && places == old(places)[id := place.value] && hydrated == old(hydrated) &&
                   hydrating == old(hydrating) + {id}
                && Valid(r) && Extends(old(registry.ids), registry.ids)
    {
      if id !in nodes || !KnownType(nodes[id], types) {
        return None;
      }
      DecodingUnfolded(nodes, types, places, heap, next, hydrated, hydrating, r);
      ShellSound(nodes, types, places, heap, next, hydrated, hydrating, r, id);
      var a := next;
      heap := heap[a := Shell(nodes[id])];
      next := next + 1;
      places := places[id := a];
      hydrating := hydrating + {id};
      registry.Remember(id, a);
      place := Some(a);
    }

    /** Decodes one value. `ok` is false when a node on the way cannot be loaded. */
    method Decode(e: EncodedValue, ghost r: set<ObjectId>) returns (ok: bool, v: Value)
      requires Valid(r) && ClosedIds(nodes, r) && (e.Ref? ==> e.id in r)
      modifies this, registry
      ensures ok ==> Progress(r) && v == DecodeValue(e, places) && (e.Ref? ==> e.id in places)
      ensures !ok ==> exists id :: id in r && !Loadable(nodes, types, id)
      decreases r - places.Keys, 1
    {
      ok, v := true, Primitive(JsNull);
      if !e.Ref? {
        return true, Primitive(DecodeScalar(e));
      }
      if e.id !in places {
        ok := Hydrate(e.id, r);
        if !ok { return; }
      }
      v := Pointer(places[e.id]);
    }

    /** Fills the shell of a node with its decoded slots. */
    method FillShell(id: ObjectId, vs: seq<Value>, ghost r: set<ObjectId>)
      requires Valid(r) && id in hydrating && id in nodes && id in places
      requires vs == DecodeValues(Slots(nodes[id]), places)
      requires forall to | RefersTo(nodes[id], to) :: to in places
      modifies this
      ensures Valid(r) && places == old(places)
      ensures hydrated == old(hydrated) + {id} && hydrating == old(hydrating) - {id}
    {
      FillSound(nodes, types, places, heap, next, hydrated, hydrating, r, id);
      heap := heap[places[id] := Fill(nodes[id], vs)];
      hydrating := hydrating - {id};
      hydrated := hydrated + {id};
    }

    /** Creates the shell of a node and fills it with the decoded slots. */
    method Hydrate(id: ObjectId, ghost r: set<ObjectId>) returns (ok: bool)
      requires Valid(r) && ClosedIds(nodes, r) && id in r && id !in places
      modifies this, registry
      ensures ok ==> Progress(r) && id in places
      ensures !ok ==> exists id :: id in r && !Loadable(nodes, types, id)
      decreases r - places.Keys, 0
    {
      var place := CreateShell(id, r);
      if place.None? {
        return false;
      }
      assert id in r - old(places.Keys) && id !in r - places.Keys;
      label Created:
      var vs;
      ok, vs := DecodeAll(Slots(nodes[id]), r);
      if !ok { return; }
      assert id !in old(hydrating) by {
        DecodingUnfolded(nodes, types, old(places), old(heap), old(next), old(hydrated), old(hydrating), r);
      }
      assert hydrating == old@Created(hydrating);
      FillShell(id, vs, r);
      assert hydrating == old(hydrating);
    }

    method DecodeAll(es: seq<EncodedValue>, ghost r: set<ObjectId>) returns (ok: bool, vs: seq<Value>)
      requires Valid(r) && ClosedIds(nodes, r) && forall id | Ref(id) in es :: id in r
      modifies this, registry
      ensures ok ==> Progress(r) && vs == DecodeValues(es, places) && forall id | Ref(id) in es :: id in places
      ensures !ok ==> exists id :: id in r && !Loadable(nodes, types, id)
      decreases r - places.Keys, 2
    {
      ok, vs := true, [];
      for i := 0 to |es|
        invariant ok && Progress(r)
        invariant vs == DecodeValues(es[..i], places)
        invariant forall id | Ref(id) in es[..i] :: id in places
      {
        ghost var places0 := places;
        assert r - places.Keys <= old(r - places.Keys);
        var v;
        ok, v := Decode(es[i], r);
        if !ok { return; }
        DecodeNext(es, i, places0, places);
        vs := vs + [v];
      }
      assert es[..|es|] == es;
    }
  
    /** `deserialize`: succeeds exactly when every reachable node can be loaded, and then rebuilds those. */
    method Deserialize(e: Envelope) returns (ok: bool, v: Value)
      requires e.nodes == nodes && registry.Valid() && forall a | a in registry.ids :: a < next
      requires places == map[] && hydrated == {} && hydrating == {} && heap == map[]
      modifies this, registry
      ensures ok <==> forall id | id in ReachableIds(e) :: Loadable(nodes, types, id)
      ensures !ok <==> exists id :: id in ReachableIds(e) && Refused(nodes, types, id)
      ensures ok ==>
                && places.Keys == ReachableIds(e) && IsDecoding(e, places, heap, v)
                && registry.Valid() && Extends(old(registry.ids), registry.ids)
                && forall id | id in places :: places[id] in registry.ids && registry.ids[places[id]] == id
    {
      ghost var r := ReachableIds(e);
      ReachableIdsClosed(e);
      forall id ensures Refused(nodes, types, id) <==> !Loadable(nodes, types, id) {
        RefusedIff(nodes, types, id);
      }
      ok, v := Decode(e.root, r);
      if ok {
        DecodingUnfolded(nodes, types, places, heap, next, hydrated, hydrating, r);
        assert ClosedIds(nodes, places.Keys) by {
          assert forall id | id in hydrated :: Hydrated(nodes, places, heap, id);
        }
        ReachableIdsLeast(e, places.Keys);
      }
    }
  }
}
