/** Committing only what an update reports. */
module GvqlUpdateCommit {
  // Committing an update: the reported changes are all a commit has to write.

  import opened EncodedGraph
  import opened StorageDisk
  import opened CommitPlan
  import opened CrashInvariant
  import opened RecoverySafety
  import opened CommitExactness
  import GvqlExpressions
  import GvqlMutations
  import GvqlMutationSafety

  /** The commit `gvql()` asks for: the reported ids, or every id when nothing was reported. */
  ghost predicate RequestOf(req: CommitRequest, root: EncodedValue, st: GvqlMutations.Edit) {
    && req.envelope == Envelope(root, st.nodes)
    && req.objectIds == if st.changes == [] then st.nodes.Keys else GvqlMutations.ChangedIds(st.changes)
  }

  /** Every node of the base that has a stored version is the stored node: the base may have left orphans out. */
  ghost predicate FromStore(base: Envelope, s: Session, h: History) {
    forall id | id in base.nodes && id in s.objectVersions ::
      id in LastEnvelope(h).nodes && LastEnvelope(h).nodes[id] == base.nodes[id]
  }

  lemma ReportedSuffices(base: Envelope, h: History, s: Session, req: CommitRequest, f: GvqlMutations.Frame,
                         bindings: seq<GvqlExpressions.Binding>, u: GvqlMutations.Update)
    requires FromStore(base, s, h) && Closed(base) && f.root == base.root
    requires GvqlMutationSafety.IncomingCovers(f.incoming, base.nodes)
    requires GvqlMutations.UpdateAll(f, GvqlMutations.Edit(base.nodes, bindings, []), u).Some?
    requires RequestOf(req, base.root,
                       GvqlMutations.UpdateAll(f, GvqlMutations.Edit(base.nodes, bindings, []), u).value)
    ensures Closed(req.envelope) && KeepsUnwritten(LastEnvelope(h), s.objectVersions, req)
  {
    var st := GvqlMutations.UpdateAll(f, GvqlMutations.Edit(base.nodes, bindings, []), u).value;
    GvqlMutationSafety.UpdateIsGood(f, base.nodes, bindings, u);
    forall id | id in req.envelope.nodes && id in s.objectVersions && id !in req.objectIds
      ensures id in LastEnvelope(h).nodes && LastEnvelope(h).nodes[id] == req.envelope.nodes[id]
    {
      assert id in st.nodes && id !in GvqlMutations.ChangedIds(st.changes);
      assert id in base.nodes && base.nodes[id] == st.nodes[id];
    }
  }

  /**
   * An update of the graph as it was read from the store, or of the part of it still reachable after earlier updates,
   * committed with only its reported ids, reads back through the manifest as exactly the updated graph, and that graph
   * is closed.
   */
  lemma UpdateReadsBack(d: Disk, h: History, o: WriteOptions, s: Session, req: CommitRequest, order: WorkerOrder,
                        base: Envelope, f: GvqlMutations.Frame, bindings: seq<GvqlExpressions.Binding>,
                        u: GvqlMutations.Update)
    requires Inv(d, h, o) && InStep(d, h, s) && Interleaves(order)
    requires FromStore(base, s, h) && Closed(base) && f.root == base.root
    requires GvqlMutationSafety.IncomingCovers(f.incoming, base.nodes)
    requires GvqlMutations.UpdateAll(f, GvqlMutations.Edit(base.nodes, bindings, []), u).Some?
    requires RequestOf(req, base.root,
                       GvqlMutations.UpdateAll(f, GvqlMutations.Edit(base.nodes, bindings, []), u).value)
    ensures Closed(req.envelope)
    ensures KeepsUnwritten(LastEnvelope(h), s.objectVersions, req)
    ensures var d' := ApplyAll(d, CommitWrites(d, o, s, req, order));
            d'.manifest.Some? && EnvelopeFromManifest(d'.records, d'.manifest.value) == Some(req.envelope)
  {
    ReportedSuffices(base, h, s, req, f, bindings, u);
    CommitReadsBackIff(d, h, o, s, req, order);
  }
}
