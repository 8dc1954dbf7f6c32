/** Path texts: what the index writes, path reading finds again. */
module GvqlPathTexts {
  import opened EncodedGraph
  import opened GvqlValues
  import opened GvqlIndex
  import opened GvqlMatchCounts

  // Numerals.

  predicate AllDigits(s: string) {
    s != "" && forall c | c in s :: '0' <= c <= '9'
  }

  /** The number a numeral stands for, from left to right. */
  function Numeral(s: string): int {
    if s == "" then 0 else 10 * Numeral(s[..|s| - 1]) + (s[|s| - 1] as int - '0' as int)
  }

  /** A number's text is its numeral, without leading zeros. */
  lemma {:induction false} DecimalReads(n: nat)
    ensures AllDigits(Decimal(n)) && Numeral(Decimal(n)) == n && (n > 0 ==> Decimal(n)[0] != '0')
    decreases n
  {
    var last := [Digit(n % 10)];
    DigitReads(n % 10);
    if n < 10 {
      assert last[..0] == "";
    } else {
      DecimalReads(n / 10);
      assert (Decimal(n / 10) + last)[..|Decimal(n / 10)|] == Decimal(n / 10);
    }
  }

  lemma DigitReads(n: nat)
    requires n < 10
    ensures '0' <= Digit(n) <= '9' && Digit(n) as int - '0' as int == n
  {
  }

  /** So ids have different texts, and `$id` tells nodes apart. */
  lemma DecimalsDiffer(m: nat, n: nat)
    ensures Decimal(m) == Decimal(n) <==> m == n
  {
    DecimalReads(m);
    DecimalReads(n);
  }

  // Paths.

  ghost predicate Around(text: string, before: string, after: string, i: nat) {
    exists digits | AllDigits(digits) :: text == before + digits + after && Numeral(digits) == i
  }

  /** What the two path patterns make of a text: `[i]`, `entries[i].key`, `entries[i].value`, or a name. */
  ghost predicate Recognises(text: string, shape: PathShape) {
    match shape
    case Item(i) => Around(text, "[", "]", i)
    case EntryKey(i) => Around(text, "entries[", "].key", i)
    case EntryValue(i) => Around(text, "entries[", "].value", i)
    case Name => forall i: nat ::
      !Around(text, "[", "]", i) && !Around(text, "entries[", "].key", i) && !Around(text, "entries[", "].value", i)
  }

  lemma AroundDecimal(before: string, after: string, n: nat, i: nat)
    ensures Around(before + Decimal(n) + after, before, after, i) <==> i == n
  {
    DecimalReads(n);
    var text := before + Decimal(n) + after;
    if digits :| AllDigits(digits) && text == before + digits + after && Numeral(digits) == i {
      assert digits == text[|before|..|text| - |after|] == Decimal(n);
    }
  }

  lemma ItemRecognised(n: nat, shape: PathShape)
    requires Recognises("[" + Decimal(n) + "]", shape)
    ensures shape == Item(n)
  {
    var text := "[" + Decimal(n) + "]";
    AroundDecimal("[", "]", n, n);
    assert text[0] == '[';
    if shape.Item? {
      AroundDecimal("[", "]", n, shape.index);
    }
  }

  lemma KeyRecognised(n: nat, shape: PathShape)
    requires Recognises("entries[" + Decimal(n) + "].key", shape)
    ensures shape == EntryKey(n)
  {
    var text := "entries[" + Decimal(n) + "].key";
    AroundDecimal("entries[", "].key", n, n);
    assert text[0] == 'e' && text[|text| - 1] == 'y';
    if shape.EntryKey? {
      AroundDecimal("entries[", "].key", n, shape.index);
    }
  }

  lemma ValueRecognised(n: nat, shape: PathShape)
    requires Recognises("entries[" + Decimal(n) + "].value", shape)
    ensures shape == EntryValue(n)
  {
    var text := "entries[" + Decimal(n) + "].value";
    AroundDecimal("entries[", "].value", n, n);
    assert text[0] == 'e' && text[|text| - 1] == 'e';
    if shape.EntryValue? {
      AroundDecimal("entries[", "].value", n, shape.index);
    }
  }

  lemma {:induction false} NamedOnce(props: seq<Property>, i: nat)
    requires i < |props| && forall j, k | 0 <= j < k < |props| :: props[j].name != props[k].name
    ensures FindProperty(props, props[i].name) == Some(props[i].value)
    decreases i
  {
    if i > 0 {
      NamedOnce(props[1..], i - 1);
    }
  }

  lemma ItemVisitReads(items: seq<EncodedValue>, v: Visit, shape: PathShape)
    requires v in ItemVisits(items) && Recognises(v.path, shape)
    ensures shape.Item? && shape.index < |items| && items[shape.index] == v.value
  {
    var at :| 0 <= at < |items| && ItemVisits(items)[at] == v;
    ItemRecognised(at, shape);
  }

  /** A visit of a key, or of a value, at the place its path names. */
  predicate IsVisitOf(entries: seq<Entry>, i: nat, v: Visit, ofKey: bool) {
    i < |entries| && v == if ofKey then Visit("entries[" + Decimal(i) + "].key", entries[i].key)
                          else Visit("entries[" + Decimal(i) + "].value", entries[i].value)
  }

  lemma EntryVisitIs(entries: seq<Entry>, v: Visit) returns (i: nat, ofKey: bool)
    requires v in EntryVisits(entries)
    ensures IsVisitOf(entries, i, v, ofKey)
  {
    EntryVisitsAt(entries);
    var at :| 0 <= at < |EntryVisits(entries)| && EntryVisits(entries)[at] == v;
    i, ofKey := at / 2, at % 2 == 0;
    assert v == EntryVisits(entries)[if ofKey then 2 * i else 2 * i + 1];
  }

  lemma EntryVisitReads(entries: seq<Entry>, v: Visit, shape: PathShape)
    requires v in EntryVisits(entries) && Recognises(v.path, shape)
    ensures (shape.EntryKey? || shape.EntryValue?) && shape.index < |entries|
    ensures v.value == if shape.EntryKey? then entries[shape.index].key else entries[shape.index].value
  {
    var i, ofKey := EntryVisitIs(entries, v);
    if ofKey {
      KeyRecognised(i, shape);
    } else {
      ValueRecognised(i, shape);
    }
  }

  lemma {:induction false} PropertyVisitReads(props: seq<Property>, v: Visit)
    requires v in PropertyVisits(props) && forall j, k | 0 <= j < k < |props| :: props[j].name != props[k].name
    ensures FindProperty(props, v.path) == Some(v.value)
  {
    var at :| 0 <= at < |props| && PropertyVisits(props)[at] == v;
    NamedOnce(props, at);
  }

  /** Every value the index visits is read under the path it is visited at. */
  lemma VisitReads(node: EncodedNode, v: Visit, shape: PathShape)
    requires v in Visits(node) && Recognises(v.path, shape)
    requires node.ObjectNode? ==> forall j, k | 0 <= j < k < |node.props| :: node.props[j].name != node.props[k].name
    ensures GetNodePath(node, Path(v.path, shape)) == Some(v.value)
  {
    match node
    case ArrayNode(items) => ItemVisitReads(items, v, shape);
    case SetNode(items) => ItemVisitReads(items, v, shape);
    case MapNode(entries) => EntryVisitReads(entries, v, shape);
    case ObjectNode(_, props) => PropertyVisitReads(props, v);
  }
}
