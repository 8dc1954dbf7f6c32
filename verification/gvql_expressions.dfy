/** Evaluating expressions on one row. */
module GvqlExpressions {
  import opened EncodedGraph
  import opened GvqlValues

  type Binding = map<string, ObjectId>

  datatype Arithmetic = Plus | Minus | Times | Divide

  datatype ScalarFunction = Lower | Upper | Trim | Length | Coalesce

  datatype Operator =
    | Equal | NotEqual | Greater | GreaterEqual | Less | LessEqual
    | Contains | StartsWith | EndsWith | In | IsNull | IsNotNull

  datatype Literal = Value(value: JsValue) | Parameter(name: string) | ListOf(elements: seq<Literal>)

  datatype Expression =
    | Constant(literal: Literal)
    | PathOf(alias: string, path: Option<Path>)
    | Binary(arithmetic: Arithmetic, left: Expression, right: Expression)
    | Call(fn: ScalarFunction, args: seq<Expression>)
    | Case(branches: seq<Branch>, otherwise: Option<Expression>)

  datatype Branch = Branch(when: Condition, thenValue: Expression)

  datatype Predicate = Predicate(left: Expression, operator: Operator, right: Expression)

  datatype Condition =
    | Test(leaf: Predicate)
    | Not(negated: Condition)
    | And(first: Condition, second: Condition)
    | Or(first: Condition, second: Condition)

  /**
   * The parts of the host language that stay abstract: `String(v)` and JSON text, locale order and case, normal forms
   * of texts (compatibility composition, then lower case unless case matters), full-text tokens, floating point.
   */
  datatype Runtime = Runtime(
    text: JsValue -> string,
    json: JsValue -> string,
    compareText: (string, string) -> int,
    lower: string -> string,
    upper: string -> string,
    localeLower: string -> string,
    localeUpper: string -> string,
    trim: string -> string,
    normalize: (string, bool) -> string,
    tokens: string -> set<string>,
    arithmetic: (Arithmetic, JsValue, JsValue) -> JsValue,
    compareNumbers: (JsValue, JsValue) -> Option<int>)

  /**
   * The statement's surroundings: the nodes as they are now, the nodes as the index was built from them (kinds and
   * types are read there), parameters and host language.
   */
  datatype Context = Context(
    nodes: map<ObjectId, EncodedNode>, indexed: map<ObjectId, EncodedNode>, parameters: map<string, JsValue>,
        runtime: Runtime)

  predicate IsNumber(v: JsValue) {
    v.JsNumber? || v.JsSpecial?
  }

  function TextOf(rt: Runtime, v: JsValue): string {
    if IsNullish(v) then "" else rt.text(v)
  }

  /** The number whose sign decides `<` and `>`; `None` is `NaN`, which is on neither side. */
  function Compare(cx: Context, a: JsValue, b: JsValue): Option<int> {
    if IsNumber(a) && IsNumber(b) then cx.runtime.compareNumbers(a, b)
    else Some(cx.runtime.compareText(TextOf(cx.runtime, a), TextOf(cx.runtime, b)))
  }

  const ID_PATH := "$id"
  const KIND_PATH := "$kind"
  const TYPE_PATH := "$type"

  /** `readPath`: virtual paths first, then the node's own path; an unbound alias reads as undefined. */
  function ReadPath(cx: Context, b: Binding, alias: string, path: Option<Path>): JsValue {
    if alias !in b || b[alias] !in cx.nodes then JsUndefined
    else
      var id := b[alias];
      var node := cx.nodes[id];
      if path.None? then JsSummary(id)
      else if path.value.text == ID_PATH then JsString(Decimal(id))
      else if path.value.text == KIND_PATH then (if id in cx.indexed then JsString(KindOf(cx.indexed[id]))
                                                 else JsUndefined)
      else if path.value.text == TYPE_PATH then
        (if id in cx.indexed && TypeOf(cx.indexed[id]).Some? then JsString(TypeOf(cx.indexed[id]).value)
         else JsUndefined)
      else PathToJs(GetNodePath(node, path.value))
  }

  predicate HasPrefix(s: string, p: string) {
    |p| <= |s| && s[..|p|] == p
  }

  predicate HasSuffix(s: string, p: string) {
    |p| <= |s| && s[|s| - |p|..] == p
  }

  predicate OccursAt(s: string, p: string, i: nat) {
    i + |p| <= |s| && s[i..i + |p|] == p
  }

  predicate Includes(s: string, p: string) {
    exists i | 0 <= i <= |s| :: OccursAt(s, p, i)
  }

  predicate Holds(cx: Context, a: JsValue, operator: Operator, b: JsValue) {
    match operator
    case Equal => StrictEquals(a, b)
    case NotEqual => !StrictEquals(a, b)
    case Greater => Compare(cx, a, b).Some? && Compare(cx, a, b).value > 0
    case GreaterEqual => Compare(cx, a, b).Some? && Compare(cx, a, b).value >= 0
    case Less => Compare(cx, a, b).Some? && Compare(cx, a, b).value < 0
    case LessEqual => Compare(cx, a, b).Some? && Compare(cx, a, b).value <= 0
    case Contains => Includes(TextOf(cx.runtime, a), TextOf(cx.runtime, b))
    case StartsWith => HasPrefix(TextOf(cx.runtime, a), TextOf(cx.runtime, b))
    case EndsWith => HasSuffix(TextOf(cx.runtime, a), TextOf(cx.runtime, b))
    case In => b.JsArray? && exists i | 0 <= i < |b.items| :: SameValueZero(b.items[i], a)
    case IsNull => IsNullish(a)
    case IsNotNull => !IsNullish(a)
  }

  /** One-argument scalar functions; a missing argument value gives null. */
  function Scalar(cx: Context, fn: ScalarFunction, v: JsValue): JsValue {
    if IsNullish(v) then JsNull
    else match fn
      case Length => if v.JsArray? then JsNumber(|v.items| as real) else JsNumber(|cx.runtime.text(v)| as real)
      case Lower => JsString(cx.runtime.lower(cx.runtime.text(v)))
      case Upper => JsString(cx.runtime.upper(cx.runtime.text(v)))
      case _ => JsString(cx.runtime.trim(cx.runtime.text(v)))
  }

  function FirstPresent(vs: seq<JsValue>): JsValue {
    if vs == [] then JsUndefined else if IsNullish(vs[0]) then FirstPresent(vs[1..]) else vs[0]
  }

  function LiteralToJs(parameters: map<string, JsValue>, l: Literal): JsValue {
    match l
    case Value(v) => v
    case Parameter(name) => if name in parameters then parameters[name] else JsUndefined
    case ListOf(ls) => JsArray(seq(|ls|, i requires 0 <= i < |ls| => LiteralToJs(parameters, ls[i])))
  }

  /** `None` is a thrown error: non-numeric arithmetic or a wrong number of arguments. */
  function Evaluate(cx: Context, b: Binding, e: Expression): Option<JsValue>
    decreases e, 1
  {
    match e
    case Constant(l) => Some(LiteralToJs(cx.parameters, l))
    case PathOf(alias, path) => Some(ReadPath(cx, b, alias, path))
    case Binary(op, l, r) =>
      var left, right := Evaluate(cx, b, l), Evaluate(cx, b, r);
      if left.None? || right.None? || !IsNumber(left.value) || !IsNumber(right.value) then None
      else Some(cx.runtime.arithmetic(op, left.value, right.value))
    case Call(fn, args) =>
      var vs := EvaluateAll(cx, b, args, e);
      if vs.None? then None
      else if fn.Coalesce? then (if args == [] then None else Some(FirstPresent(vs.value)))
      else if |vs.value| != 1 then None
      else Some(Scalar(cx, fn, vs.value[0]))
    case Case(branches, otherwise) => EvaluateBranches(cx, b, branches, otherwise, e)
  }

  function EvaluateAll(cx: Context, b: Binding, es: seq<Expression>,
                       ghost owner: Expression): (vs: Option<seq<JsValue>>)
    requires forall e | e in es :: e < owner
    ensures vs.Some? ==> |vs.value| == |es|
    decreases owner, 0, |es|
  {
    if es == [] then Some([])
    else
      assert es[0] in es && forall e | e in es[1..] :: e in es;
      var v, rest := Evaluate(cx, b, es[0]), EvaluateAll(cx, b, es[1..], owner);
      if v.None? || rest.None? then None else Some([v.value] + rest.value)
  }

  function EvaluateBranches(cx: Context, b: Binding, branches: seq<Branch>, otherwise: Option<Expression>,
                            ghost owner: Expression)
    : Option<JsValue>
    requires forall x | x in branches :: x < owner
    requires otherwise.Some? ==> otherwise.value < owner
    decreases owner, 0, |branches|
  {
    if branches == [] then (if otherwise.Some? then Evaluate(cx, b, otherwise.value) else Some(JsNull))
    else
      var x := branches[0];
      assert x in branches && forall y | y in branches[1..] :: y in branches;
      var chosen := Decide(cx, b, x.when);
      if chosen.None? then None
      else if chosen.value then Evaluate(cx, b, x.thenValue)
      else EvaluateBranches(cx, b, branches[1..], otherwise, owner)
  }

  function DecidePredicate(cx: Context, b: Binding, p: Predicate): Option<bool>
    decreases p
  {
    var left, right := Evaluate(cx, b, p.left), Evaluate(cx, b, p.right);
    if left.None? || right.None? then None else Some(Holds(cx, left.value, p.operator, right.value))
  }

  /** Short-circuiting, as in the source. */
  function Decide(cx: Context, b: Binding, c: Condition): Option<bool>
    decreases c
  {
    match c
    case Test(p) => DecidePredicate(cx, b, p)
    case Not(n) =>
      var r := Decide(cx, b, n);
      if r.None? then None else Some(!r.value)
    case And(l, r) =>
      var first := Decide(cx, b, l);
      if first.None? || !first.value then first else Decide(cx, b, r)
    case Or(l, r) =>
      var first := Decide(cx, b, l);
      if first.None? || first.value then first else Decide(cx, b, r)
  }
}
