/** Edits inside one encoded node. */
module GvqlNodeEdits {
  import opened EncodedGraph
  import opened GvqlValues

  function SetProperty(props: seq<Property>, name: string, v: EncodedValue): seq<Property> {
    if props == [] then [Property(name, v)]
    else if props[0].name == name then [Property(name, v)] + props[1..]
    else [props[0]] + SetProperty(props[1..], name, v)
  }

  function RemoveProperty(props: seq<Property>, name: string): seq<Property> {
    if props == [] then []
    else (if props[0].name == name then [] else [props[0]]) + RemoveProperty(props[1..], name)
  }

  /** Assigning past the end leaves holes, which read as undefined. */
  function SetItem(items: seq<EncodedValue>, i: nat, v: EncodedValue): seq<EncodedValue> {
    if i < |items| then items[i := v] else items + seq(i - |items|, _ => Undefined) + [v]
  }

  /** `setNodePath`; `None` is the error for a path the node does not support. */
  function SetNodePath(node: EncodedNode, path: Path, v: EncodedValue): Option<EncodedNode> {
    match node
    case ObjectNode(t, props) => Some(ObjectNode(t, SetProperty(props, path.text, v)))
    case ArrayNode(items) => if path.shape.Item? then Some(ArrayNode(SetItem(items, path.shape.index, v))) else None
    case SetNode(items) => if path.shape.Item? then Some(SetNode(SetItem(items, path.shape.index, v))) else None
    case MapNode(entries) =>
      (match path.shape
       case EntryKey(i) => if i < |entries| then Some(MapNode(entries[i := entries[i].(key := v)])) else None
       case EntryValue(i) => if i < |entries| then Some(MapNode(entries[i := entries[i].(value := v)])) else None
       case _ => None)
    case LazyNode(_) => None
  }

  /** The two paths denote different positions the node already has. */
  predicate Separate(node: EncodedNode, path: Path, q: Path) {
    match node
    case ObjectNode(_, _) => q.text != path.text
    case ArrayNode(items) => q.shape != path.shape && (q.shape.Item? ==> q.shape.index < |items|)
    case SetNode(items) => q.shape != path.shape && (q.shape.Item? ==> q.shape.index < |items|)
    case _ => q.shape != path.shape
  }

  lemma {:induction false} SetPropertyReads(props: seq<Property>, name: string, v: EncodedValue, q: string)
    ensures FindProperty(SetProperty(props, name, v), q) == if q == name then Some(v) else FindProperty(props, q)
    decreases |props|
  {
    if props != [] {
      var rest := SetProperty(props[1..], name, v);
      SetPropertyReads(props[1..], name, v, q);
      assert ([props[0]] + rest)[1..] == rest;
      assert ([Property(name, v)] + props[1..])[1..] == props[1..];
    }
  }

  /**
   * A value written at a path is read back there, and every other position keeps its value and the node its kind and
   * type.
   */
  lemma SetThenRead(node: EncodedNode, path: Path, v: EncodedValue, q: Path)
    requires SetNodePath(node, path, v).Some?
    ensures var node' := SetNodePath(node, path, v).value;
            && GetNodePath(node', path) == Some(v)
            && (Separate(node, path, q) ==> GetNodePath(node', q) == GetNodePath(node, q))
            && KindOf(node') == KindOf(node) && TypeOf(node') == TypeOf(node)
  {
    if node.ObjectNode? {
      SetPropertyReads(node.props, path.text, v, path.text);
      SetPropertyReads(node.props, path.text, v, q.text);
    }
  }

  lemma {:induction false} SetPropertySlots(props: seq<Property>, name: string, v: EncodedValue, x: EncodedValue)
    requires x in PropertySlots(SetProperty(props, name, v)) && x != v
    ensures x in PropertySlots(props)
    decreases |props|
  {
    if props != [] {
      var rest := SetProperty(props[1..], name, v);
      if props[0].name == name {
        assert ([Property(name, v)] + props[1..])[1..] == props[1..];
      } else {
        assert ([props[0]] + rest)[1..] == rest;
        if x in PropertySlots(rest) {
          SetPropertySlots(props[1..], name, v, x);
        }
      }
    }
  }

  /** Writing a value that is not a reference adds no reference. */
  lemma SetAddsNoReference(node: EncodedNode, path: Path, v: EncodedValue, id: ObjectId)
    requires SetNodePath(node, path, v).Some? && !v.Ref? && RefersTo(SetNodePath(node, path, v).value, id)
    ensures RefersTo(node, id)
  {
    match node
    case ObjectNode(_, props) => SetPropertySlots(props, path.text, v, Ref(id));
    case MapNode(entries) => SetEntryAddsNoReference(entries, SetNodePath(node, path, v).value.entries, v, id);
    case ArrayNode(items) => SetItemSlots(items, path.shape.index, v, Ref(id));
    case SetNode(items) => SetItemSlots(items, path.shape.index, v, Ref(id));
  }

  lemma SetItemSlots(items: seq<EncodedValue>, i: nat, v: EncodedValue, x: EncodedValue)
    requires x in SetItem(items, i, v) && x != v && x != Undefined
    ensures x in items
  {
    var k :| 0 <= k < |SetItem(items, i, v)| && SetItem(items, i, v)[k] == x;
    assert k < |items| && items[k] == x;
  }

  lemma SetEntryAddsNoReference(entries: seq<Entry>, entries': seq<Entry>, v: EncodedValue, id: ObjectId)
    requires |entries'| == |entries| && !v.Ref? && Ref(id) in EntrySlots(entries')
    requires forall i | 0 <= i < |entries| ::
               (entries'[i].key == entries[i].key || entries'[i].key == v) &&
               (entries'[i].value == entries[i].value || entries'[i].value == v)
    ensures Ref(id) in EntrySlots(entries)
  {
    EntrySlotsMember(entries, Ref(id));
    EntrySlotsMember(entries', Ref(id));
  }

  lemma {:induction false} RemovePropertyReads(props: seq<Property>, name: string, q: string)
    ensures FindProperty(RemoveProperty(props, name), q) == if q == name then None else FindProperty(props, q)
    decreases |props|
  {
    if props != [] {
      var rest := RemoveProperty(props[1..], name);
      RemovePropertyReads(props[1..], name, q);
      assert [] + rest == rest && ([props[0]] + rest)[1..] == rest;
    }
  }

  lemma {:induction false} RemovePropertySlots(props: seq<Property>, name: string, x: EncodedValue)
    requires x in PropertySlots(RemoveProperty(props, name))
    ensures x in PropertySlots(props)
    decreases |props|
  {
    if props != [] {
      var rest := RemoveProperty(props[1..], name);
      assert [] + rest == rest && ([props[0]] + rest)[1..] == rest;
      if x in PropertySlots(rest) {
        RemovePropertySlots(props[1..], name, x);
      }
    }
  }

  // Detaching.

  predicate IsReferenceTo(v: EncodedValue, targets: set<ObjectId>) {
    v.Ref? && v.id in targets
  }

  function KeepItems(items: seq<EncodedValue>, targets: set<ObjectId>): seq<EncodedValue> {
    if items == [] then []
    else (if IsReferenceTo(items[0], targets) then [] else [items[0]]) + KeepItems(items[1..], targets)
  }

  function KeepEntries(entries: seq<Entry>, targets: set<ObjectId>): seq<Entry> {
    if entries == [] then []
    else
      (if IsReferenceTo(entries[0].key, targets) || IsReferenceTo(entries[0].value, targets) then []
       else [entries[0]]) +
      KeepEntries(entries[1..], targets)
  }

  function KeepProperties(props: seq<Property>, targets: set<ObjectId>): seq<Property> {
    if props == [] then []
    else (if IsReferenceTo(props[0].value, targets) then [] else [props[0]]) + KeepProperties(props[1..], targets)
  }

  /** `detachReferencesTo`. */
  function Detach(node: EncodedNode, targets: set<ObjectId>): EncodedNode {
    match node
    case ArrayNode(items) => ArrayNode(KeepItems(items, targets))
    case SetNode(items) => SetNode(KeepItems(items, targets))
    case MapNode(entries) => MapNode(KeepEntries(entries, targets))
    case ObjectNode(t, props) => ObjectNode(t, KeepProperties(props, targets))
    case LazyNode(_) => node
  }

  lemma {:induction false} KeptItem(items: seq<EncodedValue>, targets: set<ObjectId>, x: EncodedValue)
    ensures x in KeepItems(items, targets) <==> x in items && !IsReferenceTo(x, targets)
    decreases |items|
  {
    if items != [] {
      KeptItem(items[1..], targets, x);
      assert items == [items[0]] + items[1..];
    }
  }

  lemma {:induction false} KeptProperty(props: seq<Property>, targets: set<ObjectId>, x: EncodedValue)
    ensures x in PropertySlots(KeepProperties(props, targets)) <==>
            x in PropertySlots(props) && !IsReferenceTo(x, targets)
    decreases |props|
  {
    if props != [] {
      var rest := KeepProperties(props[1..], targets);
      KeptProperty(props[1..], targets, x);
      assert [] + rest == rest && ([props[0]] + rest)[1..] == rest;
    }
  }

  /** A kept slot belongs to an entry neither side of which is a target. */
  lemma {:induction false} KeptEntry(entries: seq<Entry>, targets: set<ObjectId>, x: EncodedValue)
    ensures x in EntrySlots(KeepEntries(entries, targets)) <==>
            exists e | e in entries ::
              (x == e.key || x == e.value) && !IsReferenceTo(e.key, targets) && !IsReferenceTo(e.value, targets)
    decreases |entries|
  {
    if entries != [] {
      var rest := KeepEntries(entries[1..], targets);
      KeptEntry(entries[1..], targets, x);
      assert [] + rest == rest && ([entries[0]] + rest)[1..] == rest;
      assert entries == [entries[0]] + entries[1..];
    }
  }

  /** Detached: no reference to a target is left; outside maps, every other reference is. */
  lemma DetachExact(node: EncodedNode, targets: set<ObjectId>, id: ObjectId)
    ensures RefersTo(Detach(node, targets), id) ==> RefersTo(node, id) && id !in targets
    ensures !node.MapNode? && RefersTo(node, id) && id !in targets ==> RefersTo(Detach(node, targets), id)
  {
    match node
    case ArrayNode(items) => KeptItem(items, targets, Ref(id));
    case SetNode(items) => KeptItem(items, targets, Ref(id));
    case MapNode(entries) =>
      KeptEntry(entries, targets, Ref(id));
      EntrySlotsMember(entries, Ref(id));
    case ObjectNode(_, props) => KeptProperty(props, targets, Ref(id));
    case LazyNode(_) =>
  }

  // Appending.

  /** `appendToCollection`. */
  function AppendReference(node: EncodedNode, id: ObjectId): Option<EncodedNode> {
    match node
    case ArrayNode(items) => Some(ArrayNode(items + [Ref(id)]))
    case SetNode(items) => Some(SetNode(items + [Ref(id)]))
    case _ => None
  }

  lemma AppendAddsOne(node: EncodedNode, id: ObjectId, x: ObjectId)
    requires AppendReference(node, id).Some?
    ensures RefersTo(AppendReference(node, id).value, x) <==> RefersTo(node, x) || x == id
  {
  }
}
