/** Properties that hold between any two writes of a plan, and what writes leave in any order. */
module WriteTraces {
  import opened EncodedGraph
  import opened StorageDisk
  import opened CommitPlan
  import opened CrashInvariant

  /** `p` holds before the first write of `ws`, between any two, and after the last. */
  ghost predicate Throughout(d: Disk, ws: seq<Write>, p: Disk -> bool)
    decreases |ws|
  {
    p(d) && (ws != [] ==> Throughout(Apply(d, ws[0]), ws[1..], p))
  }

  lemma {:induction false} ThroughoutConcat(d: Disk, a: seq<Write>, b: seq<Write>, p: Disk -> bool)
    requires Throughout(d, a, p) && Throughout(ApplyAll(d, a), b, p)
    ensures Throughout(d, a + b, p)
    decreases |a|
  {
    if a == [] {
      assert a + b == b;
    } else {
      assert (a + b)[1..] == a[1..] + b;
      ThroughoutConcat(Apply(d, a[0]), a[1..], b, p);
    }
  }

  lemma {:induction false} ThroughoutPrefix(d: Disk, ws: seq<Write>, p: Disk -> bool, k: nat)
    requires Throughout(d, ws, p) && k <= |ws|
    ensures p(ApplyAll(d, ws[..k]))
    decreases k
  {
    if k > 0 {
      assert ws[..k][1..] == ws[1..][..k - 1];
      ThroughoutPrefix(Apply(d, ws[0]), ws[1..], p, k - 1);
    }
  }

  lemma ThroughoutOne(d: Disk, w: Write, p: Disk -> bool)
    requires p(d) && p(Apply(d, w))
    ensures Throughout(d, [w], p) && ApplyAll(d, [w]) == Apply(d, w)
  {
    assert Throughout(Apply(d, w), [w][1..], p);
  }

  lemma {:induction false} ThroughoutAll(d: Disk, ws: seq<Write>, p: Disk -> bool, harmless: Write -> bool)
    requires p(d)
    requires forall d1, w | p(d1) && harmless(w) :: p(Apply(d1, w))
    requires forall i | 0 <= i < |ws| :: harmless(ws[i])
    ensures Throughout(d, ws, p)
    decreases |ws|
  {
    if ws != [] {
      ThroughoutAll(Apply(d, ws[0]), ws[1..], p, harmless);
    }
  }

  /** Everything but the record files is untouched by record writes, and so are other transactions' records. */
  ghost predicate OnlyRecordsOf(d: Disk, d': Disk, n: nat) {
    && d' == d.(records := d'.records)
    && forall id: ObjectId, v: nat | v != n :: ReadObject(d'.records, id, v) == ReadObject(d.records, id, v)
  }

  lemma {:induction false} RecordWritesOnly(d: Disk, ws: seq<Write>, n: nat)
    requires forall w | w in ws :: IsObjectWrite(w, n)
    ensures OnlyRecordsOf(d, ApplyAll(d, ws), n)
    decreases |ws|
  {
    if ws != [] {
      assert IsObjectWrite(ws[0], n);
      RecordWritesOnly(Apply(d, ws[0]), ws[1..], n);
    }
  }

  ghost function Invariant(h: History, o: WriteOptions): Disk -> bool {
    d => Inv(d, h, o)
  }

  ghost function Unpublished(h: History, o: WriteOptions, n: nat): Disk -> bool {
    d => Inv(d, h, o) && n > PublishedId(d.manifest)
  }

  lemma {:induction false} ThroughoutWeaken(d: Disk, ws: seq<Write>, p: Disk -> bool, q: Disk -> bool)
    requires Throughout(d, ws, p) && forall d1 | p(d1) :: q(d1)
    ensures Throughout(d, ws, q)
    decreases |ws|
  {
    if ws != [] {
      ThroughoutWeaken(Apply(d, ws[0]), ws[1..], p, q);
    }
  }

  lemma RecordWritesThroughout(d: Disk, ws: seq<Write>, h: History, o: WriteOptions, n: nat)
    requires Inv(d, h, o) && n > PublishedId(d.manifest)
    requires forall w | w in ws :: IsObjectWrite(w, n) && AllowedBy(w, o)
    ensures Throughout(d, ws, Invariant(h, o))
  {
    var p := Unpublished(h, o, n);
    var harmless := w => IsObjectWrite(w, n) && AllowedBy(w, o);
    forall d1, w | p(d1) && harmless(w) ensures p(Apply(d1, w)) {
      StepObject(d1, h, o, w, n);
    }
    ThroughoutAll(d, ws, p, harmless);
    ThroughoutWeaken(d, ws, p, Invariant(h, o));
  }

  /** Every write of `ws` to this key carries the same record. */
  ghost predicate Agrees(ws: seq<Write>, r: ObjectRecord) {
    forall w | w in ws && (w.PutBinary? || w.PutJson?) && KeyOf(w.record) == KeyOf(r) :: w.record == r
  }

  ghost predicate HeldIn(files: map<RecordKey, ObjectRecord>, r: ObjectRecord) {
    KeyOf(r) in files && files[KeyOf(r)] == r
  }

  ghost predicate SameAt(files: map<RecordKey, ObjectRecord>, files': map<RecordKey, ObjectRecord>, key: RecordKey) {
    (key in files' <==> key in files) && (key in files ==> files'[key] == files[key])
  }

  /** One write. */
  lemma RecordByOne(d: Disk, w: Write, r: ObjectRecord)
    requires (w.PutBinary? || w.PutJson?) && KeyOf(w.record) == KeyOf(r) ==> w.record == r
    ensures var rs, rs' := d.records, Apply(d, w).records;
            && (w == PutBinary(r) || HeldIn(rs.binary, r) ==> HeldIn(rs'.binary, r))
            && (w == PutJson(r) || HeldIn(rs.json, r) ==> HeldIn(rs'.json, r))
            && (w != PutBinary(r) ==> SameAt(rs.binary, rs'.binary, KeyOf(r)))
  {
    if w.PutBinary? {
      assert KeyOf(w.record) == KeyOf(r) ==> w == PutBinary(r);
    } else if w.PutJson? {
      assert KeyOf(w.record) == KeyOf(r) ==> w == PutJson(r);
    }
  }

  /** Whether a record file ends up holding `r`: it did before or was written, and was not overwritten by another. */
  lemma {:induction false} RecordWritten(d: Disk, ws: seq<Write>, r: ObjectRecord)
    requires Agrees(ws, r)
    ensures var rs, rs' := d.records, ApplyAll(d, ws).records;
            && (PutBinary(r) in ws || HeldIn(rs.binary, r) ==> HeldIn(rs'.binary, r))
            && (PutJson(r) in ws || HeldIn(rs.json, r) ==> HeldIn(rs'.json, r))
            && (PutBinary(r) !in ws ==> SameAt(rs.binary, rs'.binary, KeyOf(r)))
    decreases |ws|
  {
    if ws != [] {
      assert ws[0] in ws && forall w :: w in ws <==> w == ws[0] || w in ws[1..];
      RecordByOne(d, ws[0], r);
      RecordWritten(Apply(d, ws[0]), ws[1..], r);
    }
  }

  /**
   * Whatever the workers' order, the written ids are readable at the new version, unless a stale binary file shadows
   * them.
   */
  lemma RecordsReadable(d: Disk, e: Envelope, n: nat, ids: set<ObjectId>, format: RecordFormat, order: WorkerOrder,
                        id: ObjectId)
    requires Interleaves(order) && id in ids && id in e.nodes
    requires format.JsonOnly? ==> RecordKey(id, n) !in d.records.binary
    ensures ReadObject(ApplyAll(d, order(ObjectWrites(e, n, ids, format))).records, id, n) == Some(RecordOf(e, n, id))
  {
    var writes := ObjectWrites(e, n, ids, format);
    var r := RecordOf(e, n, id);
    assert format.JsonOnly? ==> PutJson(r) in writes && PutBinary(r) !in writes;
    assert !format.JsonOnly? ==> PutBinary(r) in writes;
    RecordWritten(d, order(writes), r);
  }
}
