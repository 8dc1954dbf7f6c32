/** In which order, and how often, references are listed. */
module StorageSubtreeOrder {
  import opened EncodedGraph
  import opened GvqlIndex
  import opened StorageSubtree
  import opened Enumerations

  ghost function HoldsReference(): Visit -> bool {
    (v: Visit) => v.value.Ref?
  }

  ghost function AsReference(from: ObjectId, depth: nat): Visit -> Reference {
    (v: Visit) => if v.value.Ref? then Reference(from, v.value.id, v.path, depth) else Reference(from, from, "", depth)
  }

  /** Each position that holds a reference is listed once, in the order of the positions. */
  lemma {:induction false} ReferencesOnce(visits: seq<Visit>, from: ObjectId, depth: nat)
    ensures Selects(visits, HoldsReference(), AsReference(from, depth), ReferencesIn(visits, from, depth))
    decreases |visits|
  {
    if visits == [] {
      SelectsNone(HoldsReference(), AsReference(from, depth));
    } else {
      var front, last := visits[..|visits| - 1], visits[|visits| - 1];
      ReferencesOnce(front, from, depth);
      SelectsNext(front, HoldsReference(), AsReference(from, depth), ReferencesIn(front, from, depth), last);
      assert front + [last] == visits;
    }
  }

  ghost function LeadsOut(included: set<ObjectId>): Reference -> bool {
    (r: Reference) => r.to !in included
  }

  /** The truncated references are those that leave what was loaded, each as often as it was listed, in that order. */
  lemma {:induction false} LeavingOnce(rs: seq<Reference>, included: set<ObjectId>)
    ensures Selects(rs, LeadsOut(included), Itself(), StorageSubtree.Leaving(rs, included))
    decreases |rs|
  {
    if rs == [] {
      SelectsNone(LeadsOut(included), Itself<Reference>());
    } else {
      var front, last := rs[..|rs| - 1], rs[|rs| - 1];
      LeavingOnce(front, included);
      SelectsNext(front, LeadsOut(included), Itself(), StorageSubtree.Leaving(front, included), last);
      assert front + [last] == rs;
    }
  }

  /** They are listed node by node, in the order of the queue. */
  lemma {:induction false} GatheredInTurn(q: seq<Queued>, f: Queued -> seq<Reference>)
    ensures Gather(q, f) == Flat(q, f)
    decreases |q|
  {
    if q != [] {
      GatheredInTurn(q[..|q| - 1], f);
    }
  }
}
