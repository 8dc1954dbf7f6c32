/** What deserializing makes of any node. */
module DeserializedObjects {
  // Decoding any node, also one no serializer wrote: what repeated keys, names and members come to.

  import opened EncodedGraph
  import opened LiveGraph

  ghost predicate Distinct<T>(vs: seq<T>) {
    forall i, j | 0 <= i < j < |vs| :: vs[i] != vs[j]
  }

  lemma {:induction false} AddedOnce(acc: seq<Value>, vs: seq<Value>)
    requires Distinct(acc)
    ensures Distinct(FillSet(acc, vs))
    ensures forall v :: v in FillSet(acc, vs) <==> v in acc || v in vs
    decreases |vs|
  {
    if vs != [] {
      AddedOnce(SetAdd(acc, vs[0]), vs[1..]);
      assert vs == [vs[0]] + vs[1..];
    }
  }

  // Maps.

  function KeysOf(es: seq<Pair>): seq<Value> {
    seq(|es|, i requires 0 <= i < |es| => es[i].key)
  }

  lemma KeysOfTail(es: seq<Pair>)
    requires es != []
    ensures KeysOf(es) == [es[0].key] + KeysOf(es[1..])
  {
  }

  lemma KeyMember(es: seq<Pair>, k: Value)
    ensures k in KeysOf(es) <==> exists i :: 0 <= i < |es| && es[i].key == k
  {
    if i :| 0 <= i < |es| && es[i].key == k {
      assert KeysOf(es)[i] == k;
    }
  }

  lemma {:induction false} SetKeys(es: seq<Pair>, k: Value, v: Value)
    ensures KeysOf(MapSet(es, k, v)) == SetAdd(KeysOf(es), k)
    decreases |es|
  {
    if es != [] {
      KeysOfTail(es);
      var rest := MapSet(es[1..], k, v);
      if es[0].key == k {
        KeysOfTail([Pair(k, v)] + es[1..]);
      } else {
        SetKeys(es[1..], k, v);
        KeysOfTail([es[0]] + rest);
        assert ([es[0]] + rest)[1..] == rest;
        assert k in KeysOf(es) <==> k in KeysOf(es[1..]);
      }
    }
  }

  lemma {:induction false} SetMember(es: seq<Pair>, k: Value, v: Value, p: Pair)
    requires Distinct(KeysOf(es))
    ensures p in MapSet(es, k, v) <==> p == Pair(k, v) || (p in es && p.key != k)
    decreases |es|
  {
    if es != [] {
      KeysOfTail(es);
      assert es == [es[0]] + es[1..];
      if es[0].key == k {
        assert forall i | 0 <= i < |es[1..]| :: KeysOf(es)[i + 1] == es[1..][i].key != KeysOf(es)[0];
        assert p in es[1..] ==> exists i :: 0 <= i < |es[1..]| && es[1..][i].key == p.key;
      } else {
        assert forall i | 0 <= i < |es[1..]| :: KeysOf(es[1..])[i] == KeysOf(es)[i + 1];
        SetMember(es[1..], k, v, p);
      }
    }
  }

  /** The value last given with the key, if any. */
  function LastGiven(vs: seq<Value>, k: Value): Option<Value> {
    if |vs| < 2 then None
    else
      var later := LastGiven(vs[2..], k);
      if later.None? && vs[0] == k then Some(vs[1]) else later
  }

  lemma {:induction false} FilledMap(acc: seq<Pair>, vs: seq<Value>, p: Pair)
    requires Distinct(KeysOf(acc))
    ensures Distinct(KeysOf(FillMap(acc, vs)))
    ensures p in FillMap(acc, vs) <==>
            if LastGiven(vs, p.key).Some? then p.value == LastGiven(vs, p.key).value else p in acc
    decreases |vs|
  {
    if |vs| >= 2 {
      SetKeys(acc, vs[0], vs[1]);
      SetMember(acc, vs[0], vs[1], p);
      FilledMap(MapSet(acc, vs[0], vs[1]), vs[2..], p);
    }
  }

  lemma {:induction false} FilledKeys(acc: seq<Pair>, vs: seq<Value>)
    ensures KeysOf(FillMap(acc, vs)) == FillSet(KeysOf(acc), Evens(vs))
    decreases |vs|
  {
    if |vs| >= 2 {
      SetKeys(acc, vs[0], vs[1]);
      FilledKeys(MapSet(acc, vs[0], vs[1]), vs[2..]);
    }
  }

  function Evens(vs: seq<Value>): seq<Value> {
    if |vs| < 2 then [] else [vs[0]] + Evens(vs[2..])
  }

  lemma {:induction false} GivenLast(entries: seq<Entry>, places: Places, k: Value)
    ensures var vs := DecodeValues(EntrySlots(entries), places);
            && |vs| == 2 * |entries|
            && (LastGiven(vs, k).None? <==> forall i | 0 <= i < |entries| :: DecodeValue(entries[i].key, places) != k)
            && forall i | LastEntry(entries, places, k, i) ::
                 LastGiven(vs, k) == Some(DecodeValue(entries[i].value, places))
    decreases |entries|
  {
    if entries != [] {
      GivenLast(entries[1..], places, k);
      var vs, rest := DecodeValues(EntrySlots(entries), places), DecodeValues(EntrySlots(entries[1..]), places);
      assert vs[2..] == rest;
      assert forall i | 0 < i < |entries| :: entries[i] == entries[1..][i - 1];
      forall i | LastEntry(entries, places, k, i)
        ensures LastGiven(vs, k) == Some(DecodeValue(entries[i].value, places))
      {
        if i > 0 {
          assert LastEntry(entries[1..], places, k, i - 1);
        }
      }
      assert LastGiven(rest, k).None? <==>
             forall i | 1 <= i < |entries| :: DecodeValue(entries[i].key, places) != k;
    }
  }

  ghost predicate LastEntry(entries: seq<Entry>, places: Places, k: Value, i: int) {
    && 0 <= i < |entries| && DecodeValue(entries[i].key, places) == k
    && forall j | i < j < |entries| :: DecodeValue(entries[j].key, places) != k
  }

  /** A map node becomes a map with each key once, holding the value its last entry gives it. */
  lemma DecodedMap(entries: seq<Entry>, places: Places, p: Pair)
    ensures DecodeNode(MapNode(entries), places).LiveMap?
    ensures Distinct(KeysOf(DecodeNode(MapNode(entries), places).entries))
    ensures p in DecodeNode(MapNode(entries), places).entries <==>
            exists i :: LastEntry(entries, places, p.key, i) && p.value == DecodeValue(entries[i].value, places)
  {
    var vs := DecodeValues(EntrySlots(entries), places);
    FilledMap([], vs, p);
    GivenLast(entries, places, p.key);
    if LastGiven(vs, p.key).Some? {
      var i := LastIndex(entries, places, p.key);
    }
  }

  lemma {:induction false} LastIndex(entries: seq<Entry>, places: Places, k: Value) returns (i: nat)
    requires exists j | 0 <= j < |entries| :: DecodeValue(entries[j].key, places) == k
    ensures LastEntry(entries, places, k, i)
    decreases |entries|
  {
    i := |entries| - 1;
    if DecodeValue(entries[i].key, places) != k {
      i := LastIndex(entries[..i], places, k);
    }
  }

  /** Its keys stand as the members of a set filled with the keys of the entries do. */
  lemma DecodedKeys(entries: seq<Entry>, places: Places)
    ensures var keys := seq(|entries|, i requires 0 <= i < |entries| => DecodeValue(entries[i].key, places));
            KeysOf(DecodeNode(MapNode(entries), places).entries) == FillSet([], keys)
  {
    FilledKeys([], DecodeValues(EntrySlots(entries), places));
    EvensAreKeys(entries, places);
  }

  lemma {:induction false} EvensAreKeys(entries: seq<Entry>, places: Places)
    ensures Evens(DecodeValues(EntrySlots(entries), places)) ==
            seq(|entries|, i requires 0 <= i < |entries| => DecodeValue(entries[i].key, places))
    decreases |entries|
  {
    if entries != [] {
      EvensAreKeys(entries[1..], places);
      assert DecodeValues(EntrySlots(entries), places)[2..] == DecodeValues(EntrySlots(entries[1..]), places);
    }
  }

  // Objects.

  function NamesOf(fs: seq<Field>): seq<string> {
    seq(|fs|, i requires 0 <= i < |fs| => fs[i].name)
  }

  lemma NamesOfTail(fs: seq<Field>)
    requires fs != []
    ensures NamesOf(fs) == [fs[0].name] + NamesOf(fs[1..])
  {
  }

  lemma {:induction false} AssignedNames(fs: seq<Field>, name: string, v: Value)
    ensures NamesOf(AssignField(fs, name, v)) == NamesOf(fs) + if name in NamesOf(fs) then [] else [name]
    decreases |fs|
  {
    if fs != [] {
      NamesOfTail(fs);
      var rest := AssignField(fs[1..], name, v);
      if fs[0].name == name {
        NamesOfTail([Field(name, v)] + fs[1..]);
      } else {
        AssignedNames(fs[1..], name, v);
        NamesOfTail([fs[0]] + rest);
        assert ([fs[0]] + rest)[1..] == rest;
        assert name in NamesOf(fs) <==> name in NamesOf(fs[1..]);
      }
    }
  }

  lemma {:induction false} AssignedMember(fs: seq<Field>, name: string, v: Value, x: Field)
    requires Distinct(NamesOf(fs))
    ensures x in AssignField(fs, name, v) <==> x == Field(name, v) || (x in fs && x.name != name)
    decreases |fs|
  {
    if fs != [] {
      NamesOfTail(fs);
      assert fs == [fs[0]] + fs[1..];
      if fs[0].name == name {
        assert forall i | 0 <= i < |fs[1..]| :: NamesOf(fs)[i + 1] == fs[1..][i].name != NamesOf(fs)[0];
      } else {
        assert forall i | 0 <= i < |fs[1..]| :: NamesOf(fs[1..])[i] == NamesOf(fs)[i + 1];
        AssignedMember(fs[1..], name, v, x);
      }
    }
  }

  ghost predicate LastProperty(props: seq<Property>, name: string, i: int) {
    0 <= i < |props| && props[i].name == name && forall j | i < j < |props| :: props[j].name != name
  }

  lemma {:induction false} FilledFields(acc: seq<Field>, props: seq<Property>, vs: seq<Value>, x: Field)
    requires Distinct(NamesOf(acc)) && |vs| == |props|
    ensures Distinct(NamesOf(FillFields(acc, props, vs)))
    ensures x in FillFields(acc, props, vs) <==>
            (exists i :: LastProperty(props, x.name, i) && vs[i] == x.value) ||
            (x in acc && forall i | 0 <= i < |props| :: props[i].name != x.name)
    decreases |vs|
  {
    if vs != [] {
      var acc' := AssignField(acc, props[0].name, vs[0]);
      AssignedNames(acc, props[0].name, vs[0]);
      AssignedMember(acc, props[0].name, vs[0], x);
      FilledFields(acc', props[1..], vs[1..], x);
      LaterProperty(props, x.name);
      assert forall i | 0 < i < |props| :: props[i] == props[1..][i - 1] && vs[i] == vs[1..][i - 1];
    }
  }

  lemma LaterProperty(props: seq<Property>, name: string)
    requires props != []
    ensures forall i | 0 < i < |props| :: LastProperty(props, name, i) <==> LastProperty(props[1..], name, i - 1)
    ensures LastProperty(props, name, 0) <==>
            props[0].name == name && forall i | 0 <= i < |props[1..]| :: props[1..][i].name != name
  {
    var later := props[1..];
    assert forall j | 0 <= j < |later| :: later[j] == props[j + 1];
    forall i | 0 < i < |props| ensures LastProperty(props, name, i) <==> LastProperty(later, name, i - 1) {
      assert forall j | i < j < |props| :: props[j] == later[j - 1];
    }
  }

  /** An object node becomes an object of its class with each property once, holding the last value given for it. */
  lemma DecodedRecord(typeName: Option<string>, props: seq<Property>, places: Places, x: Field)
    ensures DecodeNode(ObjectNode(typeName, props), places).LiveRecord?
    ensures DecodeNode(ObjectNode(typeName, props), places).ctor == typeName
    ensures Distinct(NamesOf(DecodeNode(ObjectNode(typeName, props), places).fields))
    ensures x in DecodeNode(ObjectNode(typeName, props), places).fields <==>
            exists i :: LastProperty(props, x.name, i) && x.value == DecodeValue(props[i].value, places)
  {
    var vs := DecodeValues(PropertySlots(props), places);
    SlotsAt(props);
    FilledFields([], props, vs, x);
    assert forall i | 0 <= i < |props| :: vs[i] == DecodeValue(props[i].value, places);
  }

  lemma {:induction false} SlotsAt(props: seq<Property>)
    ensures |PropertySlots(props)| == |props| && forall i | 0 <= i < |props| ::
            PropertySlots(props)[i] == props[i].value
    decreases |props|
  {
    if props != [] {
      SlotsAt(props[1..]);
    }
  }

  /** A set node becomes a set with each member once. */
  lemma DecodedSet(items: seq<EncodedValue>, places: Places)
    ensures var o := DecodeNode(SetNode(items), places);
            && o.LiveSet? && Distinct(o.items)
            && forall v :: v in o.items <==> exists i :: 0 <= i < |items| && v == DecodeValue(items[i], places)
  {
    var vs := DecodeValues(items, places);
    AddedOnce([], vs);
    assert forall v :: v in vs <==> exists i :: 0 <= i < |items| && v == DecodeValue(items[i], places) by {
      forall i | 0 <= i < |items| ensures DecodeValue(items[i], places) in vs {
        assert vs[i] == DecodeValue(items[i], places);
      }
    }
  }
}
