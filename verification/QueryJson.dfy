/** Query trees as JSON (src.old/query.hpp, the `traits` of cppcms::json). */
module QueryJson {
  import opened JsonValues
  import opened Query

  /** A conversion that may throw bad_value_cast. */
  datatype Result<T> = BadValueCast | Ok(value: T)

  /** The member `key` of an object; anything else has none. */
  function Get(v: Json, key: string): (r: Result<Json>)
    ensures r.Ok? ==> r.value < v
  {
    if v.Object? then Find(v, key, 0) else BadValueCast
  }

  function Find(v: Json, key: string, i: nat): (r: Result<Json>)
    requires v.Object? && i <= |v.members|
    ensures r.Ok? ==> r.value < v
    decreases |v.members| - i
  {
    if i == |v.members| then BadValueCast
    else if v.members[i].key == key then Ok(v.members[i].value)
    else Find(v, key, i + 1)
  }

  lemma {:induction false} FindAt(v: Json, key: string, from: nat, i: nat)
    requires v.Object? && from <= i < |v.members| && v.members[i].key == key
    requires forall j :: from <= j < i ==> v.members[j].key != key
    ensures Find(v, key, from) == Ok(v.members[i].value)
    decreases |v.members| - from
  {
    if from < i { FindAt(v, key, from + 1, i); }
  }

  lemma {:induction false} FindNone(v: Json, key: string, from: nat)
    requires v.Object? && from <= |v.members|
    requires forall j :: from <= j < |v.members| ==> v.members[j].key != key
    ensures Find(v, key, from) == BadValueCast
    decreases |v.members| - from
  {
    if from < |v.members| { FindNone(v, key, from + 1); }
  }

  function GetString(v: Json, key: string): Result<string> {
    match Get(v, key)
    case Ok(String(s)) => Ok(s)
    case _ => BadValueCast
  }

  function GetNumber(v: Json, key: string): Result<real> {
    match Get(v, key)
    case Ok(Number(r)) => Ok(r)
    case _ => BadValueCast
  }

  /** A number that is no integer, or none of the C++ type, is refused. */
  function GetInt(v: Json, key: string): Result<Int32> {
    match Get(v, key)
    case Ok(Number(r)) =>
      if r.Floor as real == r && -0x8000_0000 <= r.Floor < 0x8000_0000 then Ok(r.Floor) else BadValueCast
    case _ => BadValueCast
  }

  // ------------------------------------------------------------------
  // Nodes
  // ------------------------------------------------------------------

  predicate IsEmpty(n: Node) {
    match n
    case Term(ty, value) => ty == "" && value == ""
    case Expression(operator, range, cardinality, terms) =>
      operator == "" && range == 0 && cardinality == 0 && |terms| == 0
  }

  const EMPTY_TERM: Node := Term("", "")
  const EMPTY_EXPRESSION: Node := Expression("", 0, 0, [])

  /** traits<Term>::set and traits<Expression>::set. */
  function PrintBare(n: Node): Json
    decreases n, 0
  {
    match n
    case Term(ty, value) => Object([Member("type", String(ty)), Member("value", String(value))])
    case Expression(operator, range, cardinality, terms) =>
      Object([Member("operator", String(operator)), Member("range", Number(range as real)),
               Member("cardinality", Number(cardinality as real)), Member("terms", Array(PrintAll(terms)))])
  }

  /** traits<shared_ptr<Node>>::set. */
  function Print(n: Node): Json
    decreases n, 1
  {
    Object([Member(if n.Term? then "term" else "expression", PrintBare(n))])
  }

  function PrintAll(ns: seq<Node>): seq<Json>
    decreases ns
  {
    if ns == [] then [] else [Print(ns[0])] + PrintAll(ns[1..])
  }

  /** traits<Term>::get. */
  function ReadTerm(v: Json): (r: Result<Node>)
    ensures r.Ok? ==> r.value.Term?
  {
    match (GetString(v, "type"), GetString(v, "value"))
    case (Ok(ty), Ok(value)) => Ok(Term(ty, value))
    case _ => BadValueCast
  }

  /** traits<Expression>::get. */
  function ReadExpression(v: Json): (r: Result<Node>)
    ensures r.Ok? ==> r.value.Expression?
    decreases v, 1
  {
    match (GetString(v, "operator"), GetInt(v, "range"), GetInt(v, "cardinality"), Get(v, "terms"))
    case (Ok(operator), Ok(range), Ok(cardinality), Ok(Array(items))) =>
      assert Get(v, "terms").value < v;
      (match ReadAll(items)
       case Ok(terms) => Ok(Expression(operator, range, cardinality, terms))
       case BadValueCast => BadValueCast)
    case _ => BadValueCast
  }

  /** value.get(key, Term()): the default stands in for a missing value and for
      one that cannot be converted. */
  function TermOr(v: Json, key: string): (n: Node)
    ensures n.Term?
  {
    match Get(v, key)
    case Ok(w) => (match ReadTerm(w) case Ok(t) => t case BadValueCast => EMPTY_TERM)
    case BadValueCast => EMPTY_TERM
  }

  function ExpressionOr(v: Json, key: string): (n: Node)
    ensures n.Expression?
    decreases v, 2
  {
    match Get(v, key)
    case Ok(w) => (match ReadExpression(w) case Ok(e) => e case BadValueCast => EMPTY_EXPRESSION)
    case BadValueCast => EMPTY_EXPRESSION
  }

  /** The choice between a term and an expression: exactly one must not be empty. */
  function Choose(term: Node, expr: Node): Result<Node> {
    if !IsEmpty(term) && IsEmpty(expr) then Ok(term)
    else if !IsEmpty(expr) && IsEmpty(term) then Ok(expr)
    else BadValueCast
  }

  /** traits<shared_ptr<Node>>::get. */
  function Read(v: Json): Result<Node>
    decreases v, 3
  {
    if !v.Object? then BadValueCast
    else Choose(TermOr(v, "term"), ExpressionOr(v, "expression"))
  }

  function ReadAll(items: seq<Json>): Result<seq<Node>>
    decreases items
  {
    if items == [] then Ok([])
    else
      match (Read(items[0]), ReadAll(items[1..]))
      case (Ok(n), Ok(ns)) => Ok([n] + ns)
      case _ => BadValueCast
  }

  /** No node of the tree is empty: a term has a type or a value, an expression an
      operator, a range, a cardinality or terms. */
  predicate NoneEmpty(n: Node)
    decreases n, 1
  {
    match n
    case Term(ty, value) => ty != "" || value != ""
    case Expression(operator, range, cardinality, terms) =>
      (operator != "" || range != 0 || cardinality != 0 || terms != []) && AllNoneEmpty(terms)
  }

  predicate AllNoneEmpty(ns: seq<Node>)
    decreases ns, 0
  {
    ns == [] || (NoneEmpty(ns[0]) && AllNoneEmpty(ns[1..]))
  }

  /** Reading back a printed node yields the same tree exactly when no node
      anywhere in it is empty; otherwise it is refused. */
  lemma {:induction false} NodeRoundTrip(n: Node)
    ensures Read(Print(n)) == if NoneEmpty(n) then Ok(n) else BadValueCast
    decreases n, 1
  {
    var v, w := Print(n), PrintBare(n);
    match n
    case Term(ty, value) =>
      FindAt(v, "term", 0, 0);
      FindNone(v, "expression", 0);
      FindAt(w, "type", 0, 0);
      FindAt(w, "value", 0, 1);
    case Expression(operator, range, cardinality, terms) =>
      FindNone(v, "term", 0);
      FindAt(v, "expression", 0, 0);
      ExpressionRoundTrip(n);
  }

  lemma {:induction false} ExpressionRoundTrip(n: Node)
    requires n.Expression?
    ensures ReadExpression(PrintBare(n)) == if AllNoneEmpty(n.terms) then Ok(n) else BadValueCast
    decreases n, 0
  {
    NodesRoundTrip(n.terms);
    BareMembers(n);
  }

  lemma BareMembers(n: Node)
    requires n.Expression?
    ensures var w := PrintBare(n);
            && GetString(w, "operator") == Ok(n.operator) && GetInt(w, "range") == Ok(n.range)
            && GetInt(w, "cardinality") == Ok(n.cardinality) && Get(w, "terms") == Ok(Array(PrintAll(n.terms)))
  {
    var w := PrintBare(n);
    assert "range"[0] != "terms"[0];
    FindAt(w, "operator", 0, 0);
    FindAt(w, "range", 0, 1);
    FindAt(w, "cardinality", 0, 2);
    FindAt(w, "terms", 0, 3);
  }

  lemma {:induction false} NodesRoundTrip(ns: seq<Node>)
    ensures ReadAll(PrintAll(ns)) == if AllNoneEmpty(ns) then Ok(ns) else BadValueCast
    decreases ns, 0
  {
    if ns != [] {
      NodeRoundTrip(ns[0]);
      NodesRoundTrip(ns[1..]);
      var p := PrintAll(ns);
      assert p[0] == Print(ns[0]) && p[1..] == PrintAll(ns[1..]);
      assert ns == [ns[0]] + ns[1..];
    }
  }

  // ------------------------------------------------------------------
  // The format
  // ------------------------------------------------------------------

  /** The first member of that name has that value. */
  ghost predicate HasMember(v: Json, key: string, w: Json) {
    v.Object? && exists i: nat :: i < |v.members| && v.members[i] == Member(key, w)
                                  && forall j :: 0 <= j < i ==> v.members[j].key != key
  }

  lemma {:induction false} FoundAt(v: Json, key: string, from: nat) returns (i: nat)
    requires v.Object? && from <= |v.members| && Find(v, key, from).Ok?
    requires forall j :: 0 <= j < from ==> v.members[j].key != key
    ensures i < |v.members| && v.members[i] == Member(key, Find(v, key, from).value)
    ensures forall j :: 0 <= j < i ==> v.members[j].key != key
    decreases |v.members| - from
  {
    if v.members[from].key == key { i := from; } else { i := FoundAt(v, key, from + 1); }
  }

  lemma GetExactly(v: Json, key: string, w: Json)
    ensures Get(v, key) == Ok(w) <==> HasMember(v, key, w)
  {
    if Get(v, key) == Ok(w) {
      var i := FoundAt(v, key, 0);
    }
    if HasMember(v, key, w) {
      var i: nat :| i < |v.members| && v.members[i] == Member(key, w)
                    && forall j :: 0 <= j < i ==> v.members[j].key != key;
      FindAt(v, key, 0, i);
    }
  }

  /** A term is any object with strings `type` and `value`, whatever else is in it and in
      any order. */
  lemma ReadTermExactly(v: Json, ty: string, value: string)
    ensures ReadTerm(v) == Ok(Term(ty, value)) <==>
            HasMember(v, "type", String(ty)) && HasMember(v, "value", String(value))
  {
    GetExactly(v, "type", String(ty));
    GetExactly(v, "value", String(value));
  }

  /** An expression is any object with a string `operator`, integers `range` and
      `cardinality`, and an array `terms` of nodes. */
  lemma ReadExpressionExactly(v: Json, operator: string, range: Int32, cardinality: Int32,
                              items: seq<Json>, terms: seq<Node>)
    requires HasMember(v, "terms", Array(items)) && ReadAll(items) == Ok(terms)
    ensures ReadExpression(v) == Ok(Expression(operator, range, cardinality, terms)) <==>
            && HasMember(v, "operator", String(operator))
            && HasMember(v, "range", Number(range as real)) && HasMember(v, "cardinality", Number(cardinality as real))
  {
    GetExactly(v, "terms", Array(items));
    GetExactly(v, "operator", String(operator));
    GetExactly(v, "range", Number(range as real));
    GetExactly(v, "cardinality", Number(cardinality as real));
    IntegerNumber(v, "range", range);
    IntegerNumber(v, "cardinality", cardinality);
  }

  lemma IntegerNumber(v: Json, key: string, i: Int32)
    ensures GetInt(v, key) == Ok(i) <==> Get(v, key) == Ok(Number(i as real))
  {}

  /** A node is an object with a `term` and no `expression`, or the other way round; a
      list of nodes is read node by node. */
  lemma ReadNode(v: Json, w: Json, n: Node)
    requires v.Object? && !IsEmpty(n)
    ensures HasMember(v, "term", w) && ReadTerm(w) == Ok(n) && !Has(v, "expression") ==> Read(v) == Ok(n)
    ensures HasMember(v, "expression", w) && ReadExpression(w) == Ok(n) && !Has(v, "term") ==> Read(v) == Ok(n)
  {
    GetExactly(v, "term", w);
    GetExactly(v, "expression", w);
    if !Has(v, "expression") { FindNone(v, "expression", 0); }
    if !Has(v, "term") { FindNone(v, "term", 0); }
  }

  predicate Has(v: Json, key: string)
    requires v.Object?
  {
    exists i :: 0 <= i < |v.members| && v.members[i].key == key
  }

  lemma {:induction false} ReadEach(items: seq<Json>, ns: seq<Node>)
    ensures ReadAll(items) == Ok(ns) <==> |items| == |ns| && forall i :: 0 <= i < |ns| ==> Read(items[i]) == Ok(ns[i])
  {
    if items != [] && ns != [] {
      ReadEach(items[1..], ns[1..]);
      assert [ns[0]] + ns[1..] == ns;
      if |items| == |ns| { EachTail(items, ns); }
    }
  }

  lemma EachTail(items: seq<Json>, ns: seq<Node>)
    requires |items| == |ns| > 0
    ensures (forall i :: 0 <= i < |ns| ==> Read(items[i]) == Ok(ns[i])) <==>
            Read(items[0]) == Ok(ns[0]) && forall i :: 0 <= i < |ns[1..]| ==> Read(items[1..][i]) == Ok(ns[1..][i])
  {
    if forall i :: 0 <= i < |ns| ==> Read(items[i]) == Ok(ns[i]) {
      forall i | 0 <= i < |ns[1..]| ensures Read(items[1..][i]) == Ok(ns[1..][i]) {
        assert items[1..][i] == items[i + 1] && ns[1..][i] == ns[i + 1];
      }
    }
    if Read(items[0]) == Ok(ns[0]) && forall i :: 0 <= i < |ns[1..]| ==> Read(items[1..][i]) == Ok(ns[1..][i]) {
      forall i | 0 <= i < |ns| ensures Read(items[i]) == Ok(ns[i]) {
        if i > 0 { assert items[1..][i - 1] == items[i] && ns[1..][i - 1] == ns[i]; }
      }
    }
  }

  // ------------------------------------------------------------------
  // Features
  // ------------------------------------------------------------------

  /** traits<Feature*>::set; a path with a dot sets a member of a nested object. */
  function PrintFeature(f: Feature): Json {
    Object([Member("name", String(f.name)), Member("weight", Number(f.weight)),
             Member("value", Object([Member(if f.node.Term? then "term" else "expression", PrintBare(f.node))]))])
  }

  /** traits<Feature*>::get. */
  function ReadFeature(v: Json): Result<Feature> {
    if !v.Object? then BadValueCast
    else
      var inner := match Get(v, "value") case Ok(w) => w case BadValueCast => Object([]);
      match Choose(TermOr(inner, "term"), ExpressionOr(inner, "expression"))
      case BadValueCast => BadValueCast
      case Ok(n) =>
        match (GetString(v, "name"), GetNumber(v, "weight"))
        case (Ok(name), Ok(weight)) => Ok(Feature(name, weight, n))
        case _ => BadValueCast
  }

  /** The same for features: the name and the weight come back whatever they
      are, the tree exactly when none of its nodes is empty. */
  lemma FeatureRoundTrip(f: Feature)
    ensures ReadFeature(PrintFeature(f)) == if NoneEmpty(f.node) then Ok(f) else BadValueCast
  {
    var v := PrintFeature(f);
    NodeRoundTrip(f.node);
    FindAt(v, "name", 0, 0);
    FindAt(v, "weight", 0, 1);
    FindAt(v, "value", 0, 2);
  }

  /** A feature is any object with a string `name`, a number `weight` and a node `value`. */
  lemma ReadFeatureNode(v: Json, inner: Json, f: Feature)
    requires HasMember(v, "name", String(f.name)) && HasMember(v, "weight", Number(f.weight))
    requires HasMember(v, "value", inner) && Read(inner) == Ok(f.node)
    ensures ReadFeature(v) == Ok(f)
  {
    GetExactly(v, "name", String(f.name));
    GetExactly(v, "weight", Number(f.weight));
    GetExactly(v, "value", inner);
  }
}
