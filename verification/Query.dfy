/** Query trees and the code they are emitted as (src.old/query.hpp). */
module Query {
  import opened Sequences

  /** C++ `int`. */
  type Int32 = i: int | -0x8000_0000 <= i < 0x8000_0000

  datatype Node =
    | Term(ty: string, value: string)
    | Expression(operator: string, range: Int32, cardinality: Int32, terms: seq<Node>)

  /** A TermFeature or an ExpressionFeature, depending on its node. */
  datatype Feature = Feature(name: string, weight: real, node: Node)

  /** Handle of a join operator, as the query processor finds it by name; `None`
      is the null pointer of an unknown name. */
  datatype Op = None | Some(handle: nat)

  datatype Instr =
    | PushTerm(ty: string, value: string, length: nat)
    | PushExpression(op: Op, argc: nat, range: Int32, cardinality: Int32)
    | DefineFeature(name: string, weight: real)

  // ------------------------------------------------------------------
  // Compilation
  // ------------------------------------------------------------------

  function Compile(n: Node, ops: string -> Op): seq<Instr> {
    match n
    case Term(ty, value) => [PushTerm(ty, value, 1)]
    case Expression(operator, range, cardinality, terms) =>
      CompileNodes(terms, ops) + [PushExpression(ops(operator), |terms|, range, cardinality)]
  }

  function CompileNodes(ns: seq<Node>, ops: string -> Op): seq<Instr> {
    if ns == [] then [] else Compile(ns[0], ops) + CompileNodes(ns[1..], ops)
  }

  function CompileFeature(f: Feature, ops: string -> Op): seq<Instr> {
    Compile(f.node, ops) + [DefineFeature(f.name, f.weight)]
  }

  function CompileFeatures(fs: seq<Feature>, ops: string -> Op): seq<Instr> {
    if fs == [] then [] else CompileFeature(fs[0], ops) + CompileFeatures(fs[1..], ops)
  }

  lemma {:induction false} CompileNodesAdd(ns: seq<Node>, n: Node, ops: string -> Op)
    ensures CompileNodes(ns + [n], ops) == CompileNodes(ns, ops) + Compile(n, ops)
  {
    if ns == [] {
      assert [] + [n] == [n];
      assert CompileNodes([n], ops) == Compile(n, ops) + CompileNodes([], ops);
    } else {
      assert (ns + [n])[1..] == ns[1..] + [n];
      CompileNodesAdd(ns[1..], n, ops);
    }
  }

  /** The query object the program pushes onto. */
  class QueryBuilder {
    var code: seq<Instr>
    const ops: string -> Op

    constructor (ops: string -> Op)
      ensures code == [] && this.ops == ops
    {
      this.code, this.ops := [], ops;
    }

    method Push(i: Instr)
      modifies this
      ensures code == old(code) + [i]
    {
      code := code + [i];
    }

    /** produceQuery of a term or of an expression: the terms of an expression
        in order, then the operator. */
    method ProduceNode(n: Node)
      modifies this
      ensures code == old(code) + Compile(n, ops)
      decreases n
    {
      match n {
        case Term(ty, value) => Push(PushTerm(ty, value, 1));
        case Expression(operator, range, cardinality, terms) =>
          var it := 0;
          while it < |terms|
            invariant 0 <= it <= |terms|
            invariant code == old(code) + CompileNodes(terms[..it], ops)
          {
            ProduceNode(terms[it]);
            CompileNodesAdd(terms[..it], terms[it], ops);
            assert terms[..it] + [terms[it]] == terms[..it + 1];
            it := it + 1;
          }
          assert terms[..it] == terms;
          Push(PushExpression(ops(operator), |terms|, range, cardinality));
      }
    }

    /** produceQuery of a feature. */
    method ProduceFeature(f: Feature)
      modifies this
      ensures code == old(code) + CompileFeature(f, ops)
    {
      ProduceNode(f.node);
      Push(DefineFeature(f.name, f.weight));
    }
  }

  // ------------------------------------------------------------------
  // The stack machine
  // ------------------------------------------------------------------

  /** What terms and operators mean. */
  datatype Algebra<!V> = Algebra(term: (string, string, nat) -> V, join: (Op, seq<V>, Int32, Int32) -> V)

  datatype Machine<V> = Underflow | Machine(stack: seq<V>, features: seq<(string, real, V)>)

  function Execute<V>(i: Instr, m: Machine<V>, a: Algebra<V>): Machine<V> {
    if m.Underflow? then m else
    match i
    case PushTerm(ty, value, length) => m.(stack := m.stack + [a.term(ty, value, length)])
    case PushExpression(op, argc, range, cardinality) =>
      if |m.stack| < argc then Underflow
      else
        var k := |m.stack| - argc;
        m.(stack := m.stack[..k] + [a.join(op, m.stack[k..], range, cardinality)])
    case DefineFeature(name, weight) =>
      if m.stack == [] then Underflow
      else
        var k := |m.stack| - 1;
        Machine(m.stack[..k], m.features + [(name, weight, m.stack[k])])
  }

  function Run<V>(code: seq<Instr>, m: Machine<V>, a: Algebra<V>): Machine<V> {
    if code == [] then m else Run(code[1..], Execute(code[0], m, a), a)
  }

  // ------------------------------------------------------------------
  // Meaning
  // ------------------------------------------------------------------

  function Meaning<V>(n: Node, ops: string -> Op, a: Algebra<V>): V {
    match n
    case Term(ty, value) => a.term(ty, value, 1)
    case Expression(operator, range, cardinality, terms) =>
      a.join(ops(operator), Meanings(terms, ops, a), range, cardinality)
  }

  function Meanings<V>(ns: seq<Node>, ops: string -> Op, a: Algebra<V>): (vs: seq<V>)
    ensures |vs| == |ns|
  {
    if ns == [] then [] else [Meaning(ns[0], ops, a)] + Meanings(ns[1..], ops, a)
  }

  function Definitions<V>(fs: seq<Feature>, ops: string -> Op, a: Algebra<V>): seq<(string, real, V)> {
    seq(|fs|, i requires 0 <= i < |fs| => (fs[i].name, fs[i].weight, Meaning(fs[i].node, ops, a)))
  }

  lemma {:induction false} RunAppend<V>(c: seq<Instr>, d: seq<Instr>, m: Machine<V>, a: Algebra<V>)
    ensures Run(c + d, m, a) == Run(d, Run(c, m, a), a)
  {
    if c == [] {
      assert c + d == d;
    } else {
      assert (c + d)[1..] == c[1..] + d;
      RunAppend(c[1..], d, Execute(c[0], m, a), a);
    }
  }

  lemma RunOne<V>(i: Instr, m: Machine<V>, a: Algebra<V>)
    ensures Run([i], m, a) == Execute(i, m, a)
  {
    assert [i][1..] == [];
  }

  /** The code of a node pushes the node's meaning and touches nothing else. */
  lemma {:induction false} NodeCorrect<V>(n: Node, ops: string -> Op, m: Machine<V>, a: Algebra<V>)
    requires m.Machine?
    ensures Run(Compile(n, ops), m, a) == m.(stack := m.stack + [Meaning(n, ops, a)])
    decreases n, 1
  {
    match n
    case Term(ty, value) => RunOne(PushTerm(ty, value, 1), m, a);
    case Expression(operator, range, cardinality, terms) =>
      var i := PushExpression(ops(operator), |terms|, range, cardinality);
      NodesCorrect(terms, ops, m, a);
      RunAppend(CompileNodes(terms, ops), [i], m, a);
      var args := Meanings(terms, ops, a);
      var m' := m.(stack := m.stack + args);
      RunOne(i, m', a);
      assert m'.stack[..|m.stack|] == m.stack && m'.stack[|m.stack|..] == args;
  }

  lemma {:induction false} NodesCorrect<V>(ns: seq<Node>, ops: string -> Op, m: Machine<V>, a: Algebra<V>)
    requires m.Machine?
    ensures Run(CompileNodes(ns, ops), m, a) == m.(stack := m.stack + Meanings(ns, ops, a))
    decreases ns, 0
  {
    if ns == [] {
      assert m.stack + [] == m.stack;
    } else {
      var m' := m.(stack := m.stack + [Meaning(ns[0], ops, a)]);
      NodeCorrect(ns[0], ops, m, a);
      RunAppend(Compile(ns[0], ops), CompileNodes(ns[1..], ops), m, a);
      NodesCorrect(ns[1..], ops, m', a);
      assert m'.stack + Meanings(ns[1..], ops, a) == m.stack + Meanings(ns, ops, a);
    }
  }

  lemma FeatureCorrect<V>(f: Feature, ops: string -> Op, m: Machine<V>, a: Algebra<V>)
    requires m.Machine?
    ensures Run(CompileFeature(f, ops), m, a)
         == m.(features := m.features + [(f.name, f.weight, Meaning(f.node, ops, a))])
  {
    var d := DefineFeature(f.name, f.weight);
    NodeCorrect(f.node, ops, m, a);
    RunAppend(Compile(f.node, ops), [d], m, a);
    var m' := m.(stack := m.stack + [Meaning(f.node, ops, a)]);
    RunOne(d, m', a);
    assert m'.stack[..|m.stack|] == m.stack;
  }

  lemma DefinitionsCons<V>(fs: seq<Feature>, ops: string -> Op, a: Algebra<V>)
    requires fs != []
    ensures Definitions(fs, ops, a) ==
            [(fs[0].name, fs[0].weight, Meaning(fs[0].node, ops, a))] + Definitions(fs[1..], ops, a)
  {}

  lemma {:induction false} FeaturesCorrect<V>(fs: seq<Feature>, ops: string -> Op, m: Machine<V>, a: Algebra<V>)
    requires m.Machine?
    ensures Run(CompileFeatures(fs, ops), m, a) == m.(features := m.features + Definitions(fs, ops, a))
  {
    if fs == [] {
      assert m.features + Definitions(fs, ops, a) == m.features;
    } else {
      FeatureCorrect(fs[0], ops, m, a);
      RunAppend(CompileFeature(fs[0], ops), CompileFeatures(fs[1..], ops), m, a);
      var d := (fs[0].name, fs[0].weight, Meaning(fs[0].node, ops, a));
      FeaturesCorrect(fs[1..], ops, m.(features := m.features + [d]), a);
      DefinitionsCons(fs, ops, a);
      Assoc(m.features, [d], Definitions(fs[1..], ops, a));
    }
  }

  /** Compiler correctness: for every list of features and in every algebra, the
      emitted code run from the empty stack does not underflow, ends with an
      empty stack, and defines exactly these features in order, each bound to
      the meaning of its tree. */
  lemma CompilerCorrect<V>(fs: seq<Feature>, ops: string -> Op, a: Algebra<V>)
    ensures Run(CompileFeatures(fs, ops), Machine([], []), a) == Machine([], Definitions(fs, ops, a))
  {
    FeaturesCorrect(fs, ops, Machine([], []), a);
    assert [] + Definitions(fs, ops, a) == Definitions(fs, ops, a);
  }

  // ------------------------------------------------------------------
  // The code, part by part
  // ------------------------------------------------------------------

  /** The code of a term. */
  lemma TermCode<V>(ty: string, value: string, ops: string -> Op, m: Machine<V>, a: Algebra<V>)
    requires m.Machine?
    ensures Compile(Term(ty, value), ops) == [PushTerm(ty, value, 1)]
    ensures Run(Compile(Term(ty, value), ops), m, a) == m.(stack := m.stack + [a.term(ty, value, 1)])
  {
    NodeCorrect(Term(ty, value), ops, m, a);
  }

  /** Alone, the code of a node leaves `v` on the stack. */
  ghost predicate Pushes<V>(n: Node, ops: string -> Op, a: Algebra<V>, v: V) {
    Run(Compile(n, ops), Machine([], []), a) == Machine([v], [])
  }

  lemma PushesMeaning<V>(n: Node, ops: string -> Op, a: Algebra<V>, v: V)
    requires Pushes(n, ops, a, v)
    ensures Meaning(n, ops, a) == v
  {
    var m: Machine<V> := Machine([], []);
    NodeCorrect(n, ops, m, a);
    var w := Meaning(n, ops, a);
    assert m.stack + [w] == [w];
    assert Machine([w], []) == Machine([v], []);
    assert [w][0] == [v][0];
  }

  lemma {:induction false} MeaningsAre<V>(ns: seq<Node>, ops: string -> Op, a: Algebra<V>, vs: seq<V>)
    requires |vs| == |ns| && forall i :: 0 <= i < |ns| ==> Pushes(ns[i], ops, a, vs[i])
    ensures Meanings(ns, ops, a) == vs
  {
    if ns != [] {
      PushesMeaning(ns[0], ops, a, vs[0]);
      assert forall i :: 0 <= i < |ns| - 1 ==> ns[1..][i] == ns[i + 1] && vs[1..][i] == vs[i + 1];
      MeaningsAre(ns[1..], ops, a, vs[1..]);
      assert vs == [vs[0]] + vs[1..];
    }
  }

  /** The code of an expression joins what the code of its terms leaves, in their order,
      with its operator, its range and its cardinality. */
  lemma ExpressionCode<V>(n: Node, ops: string -> Op, m: Machine<V>, a: Algebra<V>, vs: seq<V>)
    requires n.Expression? && m.Machine? && |vs| == |n.terms|
    requires forall i :: 0 <= i < |vs| ==> Pushes(n.terms[i], ops, a, vs[i])
    ensures var code := Compile(n, ops);
            && code != [] && code[|code| - 1] == PushExpression(ops(n.operator), |n.terms|, n.range, n.cardinality)
            && Run(code, m, a) == m.(stack := m.stack + [a.join(ops(n.operator), vs, n.range, n.cardinality)])
  {
    MeaningsAre(n.terms, ops, a, vs);
    NodeCorrect(n, ops, m, a);
  }

  /** The code of a feature binds its name and weight to what the code of its node leaves. */
  lemma FeatureCode<V>(f: Feature, ops: string -> Op, m: Machine<V>, a: Algebra<V>, v: V)
    requires m.Machine? && Pushes(f.node, ops, a, v)
    ensures var code := CompileFeature(f, ops);
            && code != [] && code[|code| - 1] == DefineFeature(f.name, f.weight)
            && Run(code, m, a) == m.(features := m.features + [(f.name, f.weight, v)])
  {
    PushesMeaning(f.node, ops, a, v);
    FeatureCorrect(f, ops, m, a);
  }

  // ------------------------------------------------------------------
  // The code determines the tree
  // ------------------------------------------------------------------

  /** A tree whose operator names are replaced by what the query processor finds. */
  datatype Resolved =
    | RTerm(ty: string, value: string, length: nat)
    | RExpression(op: Op, args: seq<Resolved>, range: Int32, cardinality: Int32)

  function Free(): Algebra<Resolved> {
    Algebra((ty, value, length) => RTerm(ty, value, length),
            (op, args, range, cardinality) => RExpression(op, args, range, cardinality))
  }

  function Resolve(n: Node, ops: string -> Op): Resolved {
    match n
    case Term(ty, value) => RTerm(ty, value, 1)
    case Expression(operator, range, cardinality, terms) =>
      RExpression(ops(operator), ResolveAll(terms, ops), range, cardinality)
  }

  function ResolveAll(ns: seq<Node>, ops: string -> Op): (rs: seq<Resolved>)
    ensures |rs| == |ns|
  {
    if ns == [] then [] else [Resolve(ns[0], ops)] + ResolveAll(ns[1..], ops)
  }

  lemma {:induction false} FreeMeaning(n: Node, ops: string -> Op)
    ensures Meaning(n, ops, Free()) == Resolve(n, ops)
    decreases n, 1
  {
    if n.Expression? { FreeMeanings(n.terms, ops); }
  }

  lemma {:induction false} FreeMeanings(ns: seq<Node>, ops: string -> Op)
    ensures Meanings(ns, ops, Free()) == ResolveAll(ns, ops)
    decreases ns, 0
  {
    if ns != [] {
      FreeMeaning(ns[0], ops);
      FreeMeanings(ns[1..], ops);
    }
  }

  lemma {:induction false} ResolvedCode(n: Node, n': Node, ops: string -> Op)
    requires Resolve(n, ops) == Resolve(n', ops)
    ensures Compile(n, ops) == Compile(n', ops)
    decreases n, 1
  {
    if n.Expression? { ResolvedCodes(n.terms, n'.terms, ops); }
  }

  lemma {:induction false} ResolvedCodes(ns: seq<Node>, ns': seq<Node>, ops: string -> Op)
    requires ResolveAll(ns, ops) == ResolveAll(ns', ops)
    ensures |ns| == |ns'| && CompileNodes(ns, ops) == CompileNodes(ns', ops)
    decreases ns, 0
  {
    assert |ns| == |ResolveAll(ns, ops)| == |ns'|;
    if ns != [] {
      var r, r' := ResolveAll(ns, ops), ResolveAll(ns', ops);
      assert r[0] == Resolve(ns[0], ops) && r'[0] == Resolve(ns'[0], ops);
      assert r[1..] == ResolveAll(ns[1..], ops) && r'[1..] == ResolveAll(ns'[1..], ops);
      ResolvedCode(ns[0], ns'[0], ops);
      ResolvedCodes(ns[1..], ns'[1..], ops);
    }
  }

  /** Two lists of features are emitted as the same code exactly when they have
      the same names, weights and trees, up to operator names the query
      processor does not tell apart. */
  lemma CodeDeterminesFeatures(fs: seq<Feature>, gs: seq<Feature>, ops: string -> Op)
    ensures CompileFeatures(fs, ops) == CompileFeatures(gs, ops) <==>
            |fs| == |gs| && forall i :: 0 <= i < |fs| ==>
              fs[i].name == gs[i].name && fs[i].weight == gs[i].weight
              && Resolve(fs[i].node, ops) == Resolve(gs[i].node, ops)
  {
    if CompileFeatures(fs, ops) == CompileFeatures(gs, ops) {
      CompilerCorrect(fs, ops, Free());
      CompilerCorrect(gs, ops, Free());
      var d, e := Definitions(fs, ops, Free()), Definitions(gs, ops, Free());
      assert d == e;
      forall i | 0 <= i < |fs|
        ensures fs[i].name == gs[i].name && fs[i].weight == gs[i].weight
        ensures Resolve(fs[i].node, ops) == Resolve(gs[i].node, ops)
      {
        assert d[i] == e[i];
        FreeMeaning(fs[i].node, ops);
        FreeMeaning(gs[i].node, ops);
      }
    }
    if |fs| == |gs| && forall i :: 0 <= i < |fs| ==>
      fs[i].name == gs[i].name && fs[i].weight == gs[i].weight && Resolve(fs[i].node, ops) == Resolve(gs[i].node, ops) {
      SameCode(fs, gs, ops);
    }
  }

  lemma {:induction false} SameCode(fs: seq<Feature>, gs: seq<Feature>, ops: string -> Op)
    requires |fs| == |gs| && forall i :: 0 <= i < |fs| ==>
               fs[i].name == gs[i].name && fs[i].weight == gs[i].weight
               && Resolve(fs[i].node, ops) == Resolve(gs[i].node, ops)
    ensures CompileFeatures(fs, ops) == CompileFeatures(gs, ops)
  {
    if fs != [] {
      ResolvedCode(fs[0].node, gs[0].node, ops);
      SameCode(fs[1..], gs[1..], ops);
    }
  }

  function Operators(n: Node): set<string> {
    match n
    case Term(_, _) => {}
    case Expression(operator, _, _, terms) => {operator} + AllOperators(terms)
  }

  function AllOperators(ns: seq<Node>): set<string> {
    if ns == [] then {} else Operators(ns[0]) + AllOperators(ns[1..])
  }

  ghost predicate TellsApart(ops: string -> Op, names: set<string>) {
    forall o, p :: o in names && p in names && ops(o) == ops(p) ==> o == p
  }

  /** If the query processor tells the operators in use apart, the code
      determines the trees themselves. */
  lemma {:induction false} ResolveInjective(n: Node, n': Node, ops: string -> Op)
    requires TellsApart(ops, Operators(n) + Operators(n'))
    requires Resolve(n, ops) == Resolve(n', ops)
    ensures n == n'
    decreases n, 1
  {
    if n.Expression? { ResolveAllInjective(n.terms, n'.terms, ops); }
  }

  lemma {:induction false} ResolveAllInjective(ns: seq<Node>, ns': seq<Node>, ops: string -> Op)
    requires TellsApart(ops, AllOperators(ns) + AllOperators(ns'))
    requires ResolveAll(ns, ops) == ResolveAll(ns', ops)
    ensures ns == ns'
    decreases ns, 0
  {
    assert |ns| == |ResolveAll(ns, ops)| == |ns'|;
    if ns != [] {
      var r, r' := ResolveAll(ns, ops), ResolveAll(ns', ops);
      assert r[0] == Resolve(ns[0], ops) && r'[0] == Resolve(ns'[0], ops);
      assert r[1..] == ResolveAll(ns[1..], ops) && r'[1..] == ResolveAll(ns'[1..], ops);
      ResolveInjective(ns[0], ns'[0], ops);
      ResolveAllInjective(ns[1..], ns'[1..], ops);
      assert ns == [ns[0]] + ns[1..] && ns' == [ns'[0]] + ns'[1..];
    }
  }
}
