/** When substitution in place, over a tree that is also looked up in, equals
    substitution of all leaves at once (src/configUtils.cpp). */
module ConfigOrder {
  import ConfigPaths
  import opened ConfigScanner
  import opened ConfigTree
  import opened JsonValues
  import opened CStrings
  import opened Options

  // ------------------------------------------------------------------
  // Trees, their shape and their leaves
  // ------------------------------------------------------------------

  /** A string leaf. */
  predicate IsLeaf(v: Json, p: Path) { Has(v, p) && Get(v, p).String? }

  lemma ShapeOf(v: Json, k: Json)
    requires k == Skeleton(v)
    ensures (v.String? <==> k.String?) && (v.Object? <==> k.Object?) && Width(v) == Width(k)
    ensures v.Object? ==> forall i :: 0 <= i < |v.members| ==> v.members[i].key == k.members[i].key
  {
  }

  lemma SkeletonString(v: Json, v': Json)
    requires Skeleton(v) == Skeleton(v')
    ensures (v.String? <==> v'.String?) && (v.Object? <==> v'.Object?) && Width(v) == Width(v')
    ensures v.Object? ==> forall i :: 0 <= i < |v.members| ==> v.members[i].key == v'.members[i].key
  {
    ShapeOf(v, Skeleton(v));
    ShapeOf(v', Skeleton(v));
  }

  /** Trees of one shape have the same positions and leaves. */
  lemma {:induction false} SkeletonGet(v: Json, v': Json, p: Path)
    requires Skeleton(v) == Skeleton(v') && Has(v, p)
    ensures Has(v', p) && Skeleton(Get(v, p)) == Skeleton(Get(v', p)) && (Get(v, p).String? <==> Get(v', p).String?)
    decreases p
  {
    SkeletonString(v, v');
    if p != [] {
      SkeletonKid(v, p[0]);
      SkeletonKid(v', p[0]);
      SkeletonGet(Kid(v, p[0]), Kid(v', p[0]), p[1..]);
    }
  }

  /** A tree is its shape and its leaves. */
  lemma {:induction false} SameTree(a: Json, b: Json)
    requires Skeleton(a) == Skeleton(b)
    requires forall q :: IsLeaf(a, q) ==> IsLeaf(b, q) && Get(b, q) == Get(a, q)
    ensures a == b
    decreases a
  {
    SkeletonString(a, b);
    if a.String? {
      assert IsLeaf(a, []);
    } else {
      forall i | 0 <= i < Width(a) ensures Kid(a, i) == Kid(b, i) { SameKid(a, b, i); }
      SameKids(a, b);
    }
  }

  lemma {:induction false} SameKid(a: Json, b: Json, i: nat)
    requires Skeleton(a) == Skeleton(b) && i < Width(a)
    requires forall q :: IsLeaf(a, q) ==> IsLeaf(b, q) && Get(b, q) == Get(a, q)
    ensures i < Width(b) && Kid(a, i) == Kid(b, i)
    decreases a, 0
  {
    SkeletonString(a, b);
    SkeletonKid(a, i);
    SkeletonKid(b, i);
    forall q | IsLeaf(Kid(a, i), q) ensures IsLeaf(Kid(b, i), q) && Get(Kid(b, i), q) == Get(Kid(a, i), q) {
      var p := [i] + q;
      assert p[0] == i && p[1..] == q;
      assert IsLeaf(a, p);
    }
    SameTree(Kid(a, i), Kid(b, i));
  }

  lemma SameKids(a: Json, b: Json)
    requires Skeleton(a) == Skeleton(b) && !a.String? && Width(a) == Width(b)
    requires forall i :: 0 <= i < Width(a) ==> Kid(a, i) == Kid(b, i)
    ensures a == b
  {
    SkeletonString(a, b);
    if a.Array? {
      assert forall i :: 0 <= i < |a.items| ==> a.items[i] == Kid(a, i) == b.items[i];
      assert a.items == b.items;
    } else if a.Object? {
      assert forall i :: 0 <= i < |a.members| ==> a.members[i].value == Kid(a, i) == b.members[i].value;
      assert forall i :: 0 <= i < |a.members| ==> a.members[i] == b.members[i];
      assert a.members == b.members;
    }
  }

  /** Overwriting one leaf leaves the others. */
  lemma {:induction false} OtherLeaf(v: Json, p: Path, q: Path, s: string)
    requires IsLeaf(v, p) && IsLeaf(v, q) && p != q
    ensures IsLeaf(Set(v, p, String(s)), q) && Get(Set(v, p, String(s)), q) == Get(v, q)
    decreases p
  {
    if p != [] && q != [] && p[0] == q[0] {
      assert p == [p[0]] + p[1..] && q == [q[0]] + q[1..];
      OtherLeaf(Kid(v, p[0]), p[1..], q[1..], s);
    }
  }

  lemma {:induction false} BelowIn(i: nat, ps: seq<Path>, p: Path)
    ensures p in Below([i], ps) <==> p != [] && p[0] == i && p[1..] in ps
  {
    if ps != [] {
      BelowIn(i, ps[1..], p);
      var q := [i] + ps[0];
      assert q[0] == i && q[1..] == ps[0];
      assert p != [] && p[0] == i && p[1..] == ps[0] ==> p == q;
    }
  }

  lemma {:induction false} LeafOfKids(v: Json, n: nat, p: Path)
    requires n <= Width(v)
    ensures p in LeavesOfKids(v, n) <==> p != [] && p[0] < n && p[1..] in Leaves(Kid(v, p[0]))
  {
    if n > 0 {
      LeafOfKids(v, n - 1, p);
      BelowIn(n - 1, Leaves(Kid(v, n - 1)), p);
    }
  }

  /** The program visits exactly the string leaves. */
  lemma {:induction false} LeavesAreLeaves(v: Json, p: Path)
    ensures p in Leaves(v) <==> IsLeaf(v, p)
    decreases p
  {
    if !v.String? {
      LeafOfKids(v, Width(v), p);
      if p != [] && p[0] < Width(v) { LeavesAreLeaves(Kid(v, p[0]), p[1..]); }
    }
  }

  ghost predicate Distinct(ps: seq<Path>) { forall i, j :: 0 <= i < j < |ps| ==> ps[i] != ps[j] }

  lemma {:induction false} BelowDistinct(i: nat, ps: seq<Path>)
    requires Distinct(ps)
    ensures Distinct(Below([i], ps))
  {
    if ps != [] {
      var rest := Below([i], ps[1..]);
      BelowDistinct(i, ps[1..]);
      var q := [i] + ps[0];
      assert q[0] == i && q[1..] == ps[0];
      BelowIn(i, ps[1..], q);
      assert ps[0] !in ps[1..];
      assert forall j :: 0 <= j < |rest| ==> rest[j] in rest;
    }
  }

  lemma DistinctAppend(ps: seq<Path>, qs: seq<Path>)
    requires Distinct(ps) && Distinct(qs) && forall p :: p in ps ==> p !in qs
    ensures Distinct(ps + qs)
  {
    forall i, j | 0 <= i < j < |ps + qs| ensures (ps + qs)[i] != (ps + qs)[j] {
      if i < |ps| <= j { assert ps[i] in ps && qs[j - |ps|] in qs; }
    }
  }

  /** Each of them once. */
  lemma {:induction false} LeavesDistinct(v: Json)
    ensures Distinct(Leaves(v))
    decreases v, 1, 0
  {
    if !v.String? { LeavesOfKidsDistinct(v, Width(v)); }
  }

  lemma {:induction false} LeavesOfKidsDistinct(v: Json, n: nat)
    requires n <= Width(v)
    ensures Distinct(LeavesOfKids(v, n))
    decreases v, 0, n
  {
    if n > 0 {
      var before, ps := LeavesOfKids(v, n - 1), Leaves(Kid(v, n - 1));
      LeavesOfKidsDistinct(v, n - 1);
      LeavesDistinct(Kid(v, n - 1));
      BelowDistinct(n - 1, ps);
      forall p | p in before ensures p !in Below([n - 1], ps) {
        LeafOfKids(v, n - 1, p);
        BelowIn(n - 1, ps, p);
      }
      DistinctAppend(before, Below([n - 1], ps));
    }
  }

  lemma {:induction false} MapShape(v: Json, root: Json)
    ensures Skeleton(Map(v, root)) == Skeleton(v)
    decreases v
  {
    var m := Map(v, root);
    if v.Array? {
      forall i | 0 <= i < |v.items| ensures Skeleton(m.items[i]) == Skeleton(v.items[i]) { MapShape(v.items[i], root); }
      assert Skeleton(m).items == Skeleton(v).items;
    } else if v.Object? {
      forall i | 0 <= i < |v.members| ensures Skeleton(m.members[i].value) == Skeleton(v.members[i].value) {
        MapShape(v.members[i].value, root);
      }
      assert Skeleton(m).members == Skeleton(v).members;
    }
  }

  lemma {:induction false} MapLeaf(v: Json, root: Json, q: Path)
    requires IsLeaf(v, q)
    ensures IsLeaf(Map(v, root), q) && Get(Map(v, root), q) == String(Subst(Get(v, q).s, root))
    decreases q
  {
    if q != [] {
      MapLeaf(Kid(v, q[0]), root, q[1..]);
      assert Kid(Map(v, root), q[0]) == Map(Kid(v, q[0]), root);
    }
  }

  // ------------------------------------------------------------------
  // What a name resolves to
  // ------------------------------------------------------------------

  /** The string leaf a name with these components stands for. */
  function Place(v: Json, parts: seq<string>): Option<Path>
    decreases |parts|
  {
    if parts == [] then if v.String? then Some([]) else None
    else if !v.Object? then None
    else
      var j := FindMember(v.members, parts[0], 0);
      if j == |v.members| then None
      else
        match Place(v.members[j].value, parts[1..])
        case Some(p) => Some([j] + p)
        case None => None
  }

  lemma {:induction false} PlaceIsFind(v: Json, parts: seq<string>)
    ensures match Place(v, parts)
            case Some(p) => IsLeaf(v, p) && Find(v, parts) == Get(v, p)
            case None => !Find(v, parts).String?
    decreases |parts|
  {
    if parts != [] && v.Object? {
      var j := FindMember(v.members, parts[0], 0);
      if j < |v.members| {
        PlaceIsFind(v.members[j].value, parts[1..]);
        var inner := Place(v.members[j].value, parts[1..]);
        if inner.Some? {
          var p := [j] + inner.value;
          assert p[0] == j && p[1..] == inner.value;
        }
      }
    }
  }

  /** Names resolve by the shape alone. */
  lemma {:induction false} PlaceByShape(v: Json, v': Json, parts: seq<string>)
    requires Skeleton(v) == Skeleton(v')
    ensures Place(v, parts) == Place(v', parts)
    decreases |parts|
  {
    SkeletonString(v, v');
    if parts != [] && v.Object? {
      SameKeys(v.members, v'.members, parts[0], 0);
      var j := FindMember(v.members, parts[0], 0);
      if j < |v.members| {
        SkeletonKid(v, j);
        SkeletonKid(v', j);
        PlaceByShape(v.members[j].value, v'.members[j].value, parts[1..]);
      }
    }
  }

  /** What a lookup of `name` in the tree being changed yields once the leaves `done`
      have been replaced by their images, in terms of the original tree. */
  function Seen(root: Json, done: seq<Path>, name: string): string {
    PlaceIsFind(root, Split(name));
    match Place(root, Split(name))
    case Some(q) => if q in done then Subst(Get(root, q).s, root) else Get(root, q).s
    case None => ""
  }

  lemma {:induction false} EvalSame(ts: seq<Token>, f: string -> string, g: string -> string)
    requires forall n :: n in RefNames(ts) ==> f(n) == g(n)
    ensures Eval(ts, f) == Eval(ts, g)
  {
    if ts != [] { EvalSame(ts[1..], f, g); }
  }

  function TokensOf(s: string): seq<Token> { Tokenize(CString(s), 0) }

  // ------------------------------------------------------------------
  // Leaf after leaf
  // ------------------------------------------------------------------

  /** `r` is `root` with the leaves `done` replaced by their images against `root`. */
  ghost predicate Stage(root: Json, r: Json, done: seq<Path>) {
    && Skeleton(r) == Skeleton(root)
    && (forall q :: IsLeaf(root, q) ==> IsLeaf(r, q))
    && (forall q :: IsLeaf(root, q) ==>
          Get(r, q) == if q in done then String(Subst(Get(root, q).s, root)) else Get(root, q))
  }

  /** The leaf `p`, visited after `done`, becomes its image against the original. */
  predicate Undisturbed(root: Json, done: seq<Path>, p: Path)
    requires IsLeaf(root, p)
  {
    var ts := TokensOf(Get(root, p).s);
    Eval(ts, name => Seen(root, done, name)) == Eval(ts, name => Lookup(root, name))
  }

  lemma LookupAtStage(root: Json, r: Json, done: seq<Path>, name: string)
    requires Stage(root, r, done)
    ensures Lookup(r, name) == Seen(root, done, name)
  {
    PlaceByShape(root, r, Split(name));
    PlaceIsFind(root, Split(name));
    PlaceIsFind(r, Split(name));
  }

  lemma SubstAtStage(root: Json, r: Json, done: seq<Path>, s: string)
    requires Stage(root, r, done)
    ensures Subst(s, r) == Eval(TokensOf(s), name => Seen(root, done, name))
  {
    forall n | n in RefNames(TokensOf(s)) ensures Lookup(r, n) == Seen(root, done, n) {
      LookupAtStage(root, r, done, n);
    }
    EvalSame(TokensOf(s), name => Lookup(r, name), name => Seen(root, done, name));
  }

  lemma StageStep(root: Json, r: Json, done: seq<Path>, p: Path)
    requires Stage(root, r, done) && IsLeaf(root, p) && p !in done
    ensures IsLeaf(SubstLeaf(r, p), p)
    ensures Undisturbed(root, done, p) ==> Stage(root, SubstLeaf(r, p), done + [p])
    ensures !Undisturbed(root, done, p) ==> Get(SubstLeaf(r, p), p) != String(Subst(Get(root, p).s, root))
  {
    var s := Get(root, p).s;
    var s' := Subst(s, r);
    assert IsLeaf(r, p) && Get(r, p) == Get(root, p);
    SubstAtStage(root, r, done, s);
    GetSet(r, p, String(s'));
    SkeletonSet(r, p, s');
    forall q | IsLeaf(root, q) && q != p ensures IsLeaf(SubstLeaf(r, p), q) && Get(SubstLeaf(r, p), q) == Get(r, q) {
      OtherLeaf(r, p, q, s');
    }
  }

  lemma {:induction false} LaterKeeps(r: Json, ps: seq<Path>, p: Path)
    requires IsLeaf(r, p) && p !in ps
    ensures IsLeaf(SubstLeaves(r, ps), p) && Get(SubstLeaves(r, ps), p) == Get(r, p)
    decreases |ps|
  {
    if ps != [] {
      var q := ps[0];
      if IsLeaf(r, q) { OtherLeaf(r, q, p, Subst(Get(r, q).s, r)); }
      LaterKeeps(SubstLeaf(r, q), ps[1..], p);
    }
  }

  /** Every leaf of `todo`, visited in this order after `done`, is undisturbed. */
  predicate Settled(root: Json, done: seq<Path>, todo: seq<Path>)
    requires forall p :: p in todo ==> IsLeaf(root, p)
    decreases |todo|
  {
    todo == [] || (Undisturbed(root, done, todo[0]) && Settled(root, done + [todo[0]], todo[1..]))
  }

  lemma {:induction false} StagesExactly(root: Json, r: Json, done: seq<Path>, todo: seq<Path>)
    requires Stage(root, r, done) && Distinct(todo)
    requires forall p :: p in todo ==> IsLeaf(root, p) && p !in done
    ensures Stage(root, SubstLeaves(r, todo), done + todo) <==> Settled(root, done, todo)
    decreases |todo|
  {
    if todo == [] {
      assert done + todo == done;
    } else {
      var p, rest := todo[0], todo[1..];
      var r1 := SubstLeaf(r, p);
      StageStep(root, r, done, p);
      TailDistinct(todo);
      MoveOver(done, todo);
      if Undisturbed(root, done, p) {
        StagesExactly(root, r1, done + [p], rest);
      } else {
        LaterKeeps(r1, rest, p);
      }
    }
  }

  lemma TailDistinct(ps: seq<Path>)
    requires Distinct(ps) && ps != []
    ensures Distinct(ps[1..]) && ps[0] !in ps[1..]
  {
    assert forall i :: 0 <= i < |ps[1..]| ==> ps[1..][i] == ps[i + 1];
  }

  lemma MoveOver(done: seq<Path>, todo: seq<Path>)
    requires todo != []
    ensures done + [todo[0]] + todo[1..] == done + todo && todo[0] in done + todo
    ensures forall p :: p in done + [todo[0]] <==> p in done || p == todo[0]
  {
    assert (done + todo)[|done|] == todo[0];
  }

  lemma LastStage(root: Json, r: Json)
    ensures Stage(root, r, Leaves(root)) <==> r == Map(root, root)
  {
    var m := Map(root, root);
    MapShape(root, root);
    forall q | IsLeaf(root, q)
      ensures q in Leaves(root) && IsLeaf(m, q) && Get(m, q) == String(Subst(Get(root, q).s, root))
    {
      LeavesAreLeaves(root, q);
      MapLeaf(root, root, q);
    }
    if Stage(root, r, Leaves(root)) {
      forall q | IsLeaf(r, q) ensures IsLeaf(m, q) && Get(m, q) == Get(r, q) { SkeletonGet(r, root, q); }
      SameTree(r, m);
    }
  }

  lemma LeavesVisited(root: Json)
    ensures forall p :: p in Leaves(root) ==> IsLeaf(root, p)
  {
    forall p | p in Leaves(root) ensures IsLeaf(root, p) { LeavesAreLeaves(root, p); }
  }

  /** Whatever is visited is undisturbed: for each leaf, in the order of the visit, the
      references evaluated with the images of the leaves before it give what they give
      with the original values. */
  ghost predicate OrderIsHarmless(root: Json) {
    LeavesVisited(root);
    Settled(root, [], Leaves(root))
  }

  /** Substitution in place, over a tree that is its own lookup root, equals
      substitution of all string leaves against the original tree if and only if the
      order is harmless. */
  lemma InPlaceExactly(root: Json)
    ensures SubstLeaves(root, Leaves(root)) == Map(root, root) <==> OrderIsHarmless(root)
  {
    LeavesVisited(root);
    LeavesDistinct(root);
    StagesExactly(root, root, [], Leaves(root));
    assert [] + Leaves(root) == Leaves(root);
    LastStage(root, SubstLeaves(root, Leaves(root)));
  }

  // ------------------------------------------------------------------
  // Reference by reference
  // ------------------------------------------------------------------

  /** No reference of the leaf `p` names a leaf visited before that substitution changes. */
  ghost predicate NamesFixed(root: Json, done: seq<Path>, p: Path)
    requires IsLeaf(root, p)
  {
    forall n :: n in RefNames(TokensOf(Get(root, p).s)) ==> NameFixed(root, done, n)
  }

  predicate NameFixed(root: Json, done: seq<Path>, name: string) {
    PlaceIsFind(root, Split(name));
    match Place(root, Split(name))
    case Some(q) => q in done ==> Subst(Get(root, q).s, root) == Get(root, q).s
    case None => true
  }

  ghost predicate AllNamesFixed(root: Json, done: seq<Path>, todo: seq<Path>)
    requires forall p :: p in todo ==> IsLeaf(root, p)
    decreases |todo|
  {
    todo == [] || (NamesFixed(root, done, todo[0]) && AllNamesFixed(root, done + [todo[0]], todo[1..]))
  }

  /** No reference anywhere names a leaf visited before that substitution changes. */
  ghost predicate ReferencesFixed(root: Json) {
    LeavesVisited(root);
    AllNamesFixed(root, [], Leaves(root))
  }

  lemma SeenIsLookup(root: Json, done: seq<Path>, name: string)
    ensures Seen(root, done, name) == Lookup(root, name) <==> NameFixed(root, done, name)
  {
    PlaceIsFind(root, Split(name));
  }

  lemma NamesFixedIsSeen(root: Json, done: seq<Path>, p: Path)
    requires IsLeaf(root, p)
    ensures NamesFixed(root, done, p) <==>
            forall n :: n in RefNames(TokensOf(Get(root, p).s)) ==> Seen(root, done, n) == Lookup(root, n)
  {
    var names := RefNames(TokensOf(Get(root, p).s));
    forall n | n in names ensures Seen(root, done, n) == Lookup(root, n) <==> NameFixed(root, done, n) {
      SeenIsLookup(root, done, n);
    }
  }

  function References(ts: seq<Token>): nat {
    if ts == [] then 0 else (if ts[0].Ref? then 1 else 0) + References(ts[1..])
  }

  lemma Cancel(a: string, b: string, x: string, y: string)
    ensures x == y ==> (a + x == b + y <==> a == b)
    ensures a == b ==> (a + x == b + y <==> x == y)
  {
    if x == y && a + x == b + y {
      assert |a| == |b| && a == (a + x)[..|a|] && b == (b + y)[..|b|];
    }
    if a == b && a + x == b + y {
      assert x == (a + x)[|a|..] && y == (b + y)[|b|..];
    }
  }

  lemma {:induction false} NoRefNames(ts: seq<Token>)
    requires References(ts) == 0
    ensures RefNames(ts) == {}
  {
    if ts != [] { NoRefNames(ts[1..]); }
  }

  /** A string with one reference tells what the reference yields. */
  lemma {:induction false} OneReferenceEval(ts: seq<Token>, f: string -> string, g: string -> string)
    requires References(ts) <= 1
    ensures Eval(ts, f) == Eval(ts, g) <==> forall n :: n in RefNames(ts) ==> f(n) == g(n)
  {
    if ts != [] {
      var t, rest := ts[0], ts[1..];
      if t.Ref? {
        NoRefNames(rest);
        EvalSame(rest, f, g);
        Cancel(f(t.name), g(t.name), Eval(rest, f), Eval(rest, g));
        assert t.name in RefNames(ts);
      } else {
        OneReferenceEval(rest, f, g);
        Cancel(Text(t), Text(t), Eval(rest, f), Eval(rest, g));
        assert RefNames(ts) == RefNames(rest);
      }
    }
  }

  lemma UndisturbedByNames(root: Json, done: seq<Path>, p: Path)
    requires IsLeaf(root, p)
    ensures NamesFixed(root, done, p) ==> Undisturbed(root, done, p)
    ensures References(TokensOf(Get(root, p).s)) <= 1 ==> (NamesFixed(root, done, p) <==> Undisturbed(root, done, p))
  {
    var ts := TokensOf(Get(root, p).s);
    var f, g := (name: string) => Seen(root, done, name), (name: string) => Lookup(root, name);
    NamesFixedIsSeen(root, done, p);
    if NamesFixed(root, done, p) {
      EvalSame(ts, f, g);
    } else if References(ts) <= 1 {
      OneReferenceEval(ts, f, g);
    }
  }

  ghost predicate SingleReferences(root: Json, ps: seq<Path>) {
    forall p :: p in ps ==> IsLeaf(root, p) && References(TokensOf(Get(root, p).s)) <= 1
  }

  lemma {:induction false} SettledByNames(root: Json, done: seq<Path>, todo: seq<Path>)
    requires forall p :: p in todo ==> IsLeaf(root, p)
    ensures AllNamesFixed(root, done, todo) ==> Settled(root, done, todo)
    ensures SingleReferences(root, todo) ==> (AllNamesFixed(root, done, todo) <==> Settled(root, done, todo))
    decreases |todo|
  {
    if todo != [] {
      UndisturbedByNames(root, done, todo[0]);
      SettledByNames(root, done + [todo[0]], todo[1..]);
      assert todo[0] in todo;
    }
  }

  /** Fixed references suffice, and for strings of at most one reference each they are
      necessary. */
  lemma InPlaceByReferences(root: Json)
    ensures ReferencesFixed(root) ==> SubstLeaves(root, Leaves(root)) == Map(root, root)
    ensures SingleReferences(root, Leaves(root)) ==>
            (ReferencesFixed(root) <==> SubstLeaves(root, Leaves(root)) == Map(root, root))
  {
    LeavesVisited(root);
    InPlaceExactly(root);
    SettledByNames(root, [], Leaves(root));
  }

  // ------------------------------------------------------------------
  // References without chains
  // ------------------------------------------------------------------

  /** No value that is referenced contains a '{', or a NUL. */
  ghost predicate NoChains(root: Json) {
    forall p, n :: IsLeaf(root, p) && n in RefNames(TokensOf(Get(root, p).s)) ==>
      '{' !in Lookup(root, n) && '\0' !in Lookup(root, n)
  }

  lemma PlainIsFixed(s: string, root: Json)
    requires '{' !in s && '\0' !in s
    ensures Subst(s, root) == s
  {
    CStringAll(s);
    NoBraceNoChange(s, name => Lookup(root, name));
  }

  lemma NoChainsNamesFixed(root: Json, done: seq<Path>, p: Path)
    requires NoChains(root) && IsLeaf(root, p)
    ensures NamesFixed(root, done, p)
  {
    forall n | n in RefNames(TokensOf(Get(root, p).s)) ensures NameFixed(root, done, n) {
      PlaceIsFind(root, Split(n));
      PlainIsFixed(Lookup(root, n), root);
    }
  }

  lemma {:induction false} NoChainsAllFixed(root: Json, done: seq<Path>, todo: seq<Path>)
    requires NoChains(root) && forall p :: p in todo ==> IsLeaf(root, p)
    ensures AllNamesFixed(root, done, todo)
    decreases |todo|
  {
    if todo != [] {
      NoChainsNamesFixed(root, done, todo[0]);
      NoChainsAllFixed(root, done + [todo[0]], todo[1..]);
    }
  }

  /** In particular if no value that is referenced contains a '{' (or a NUL). */
  lemma InPlaceIsSimultaneous(root: Json)
    requires NoChains(root)
    ensures SubstLeaves(root, Leaves(root)) == Map(root, root)
  {
    LeavesVisited(root);
    NoChainsAllFixed(root, [], Leaves(root));
    InPlaceByReferences(root);
  }

  // ------------------------------------------------------------------
  // What a chain of references does
  // ------------------------------------------------------------------

  lemma SingleReferenceTokens(name: string)
    requires name != [] && AllName(name) && '\0' !in name
    ensures TokensOf("{" + name + "}") == [Ref("", name, "")]
  {
    var s, ref := "{" + name + "}", Ref("", name, "");
    CStringAll(s);
    assert [ref][1..] == [] && s[0..] == s && [ref] + [] == [ref];
    assert Text(ref) == "{" + "" + name + "" + "}" == s;
    Prepend(ref, []);
    assert s + [] == s;
    TokenizeUnique(s, 0, [ref]);
  }

  lemma SingleReference(name: string, root: Json)
    requires name != [] && AllName(name) && '\0' !in name
    ensures Subst("{" + name + "}", root) == Lookup(root, name)
  {
    var ref := Ref("", name, "");
    SingleReferenceTokens(name);
    assert [ref][1..] == [];
    var f := (n: string) => Lookup(root, n);
    assert Eval([ref], f) == f(name) + Eval([], f) == Lookup(root, name);
  }

  function ThreeMembers(a: string, b: string, c: string): Json {
    Object([Member("a", String(a)), Member("b", String(b)), Member("c", String(c))])
  }

  lemma LookupThree(a: string, b: string, c: string)
    ensures Lookup(ThreeMembers(a, b, c), "a") == a
    ensures Lookup(ThreeMembers(a, b, c), "b") == b
    ensures Lookup(ThreeMembers(a, b, c), "c") == c
  {
    var v := ThreeMembers(a, b, c);
    ConfigPaths.SplitOne("a");
    ConfigPaths.SplitOne("b");
    ConfigPaths.SplitOne("c");
    assert FindMember(v.members, "b", 1) == 1;
    assert Find(v, ["b"]) == Find(String(b), []);
    assert FindMember(v.members, "c", 2) == 2;
    assert FindMember(v.members, "c", 1) == 2;
    assert Find(v, ["a"]) == Find(String(a), []);
    assert Find(v, ["c"]) == Find(String(c), []);
  }

  lemma SubstThree(a: string, b: string, c: string)
    ensures var v := ThreeMembers(a, b, c);
            && SubstLeaf(v, [0]) == ThreeMembers(Subst(a, v), b, c)
            && SubstLeaf(v, [1]) == ThreeMembers(a, Subst(b, v), c)
            && SubstLeaf(v, [2]) == ThreeMembers(a, b, Subst(c, v))
  {
    var v := ThreeMembers(a, b, c);
    LeafOfThree(v, 0);
    LeafOfThree(v, 1);
    LeafOfThree(v, 2);
    SetKidThree(a, b, c, Subst(a, v));
    SetKidThree(a, b, c, Subst(b, v));
    SetKidThree(a, b, c, Subst(c, v));
  }

  lemma SetKidThree(a: string, b: string, c: string, s: string)
    ensures var v := ThreeMembers(a, b, c);
            && SetKid(v, 0, String(s)) == ThreeMembers(s, b, c)
            && SetKid(v, 1, String(s)) == ThreeMembers(a, s, c)
            && SetKid(v, 2, String(s)) == ThreeMembers(a, b, s)
  {
    var v := ThreeMembers(a, b, c);
    assert SetKid(v, 0, String(s)).members == ThreeMembers(s, b, c).members;
    assert SetKid(v, 1, String(s)).members == ThreeMembers(a, s, c).members;
    assert SetKid(v, 2, String(s)).members == ThreeMembers(a, b, s).members;
  }

  lemma LeafOfThree(v: Json, i: nat)
    requires i < Width(v) && Kid(v, i).String?
    ensures SubstLeaf(v, [i]) == SetKid(v, i, String(Subst(Kid(v, i).s, v)))
  {
    assert [i][1..] == [];
    var w := String(Subst(Kid(v, i).s, v));
    assert Has(Kid(v, i), []) && Get(Kid(v, i), []) == Kid(v, i) && Set(Kid(v, i), [], w) == w;
    assert Has(v, [i]) && Get(v, [i]) == Kid(v, i) && Set(v, [i], w) == SetKid(v, i, w);
  }

  lemma BelowOne(i: nat)
    ensures Below([i], [[]]) == [[i]]
  {
    var ps: seq<Path> := [[]];
    assert ps[1..] == [] && [i] + ps[0] == [i];
    assert Below([i], ps[1..]) == [];
  }

  lemma LeavesOfThree(a: string, b: string, c: string)
    ensures Leaves(ThreeMembers(a, b, c)) == [[0], [1], [2]]
  {
    var v := ThreeMembers(a, b, c);
    BelowOne(0);
    BelowOne(1);
    BelowOne(2);
    assert LeavesOfKids(v, 0) == [];
    assert LeavesOfKids(v, 1) == [] + [[0]];
    assert LeavesOfKids(v, 2) == [[0]] + [[1]];
    assert LeavesOfKids(v, 3) == [[0], [1]] + [[2]];
  }

  lemma Fold3(v: Json, p: Path, q: Path, r: Path)
    ensures SubstLeaves(v, [p, q, r]) == SubstLeaf(SubstLeaf(SubstLeaf(v, p), q), r)
  {
    var v1 := SubstLeaf(v, p);
    var v2 := SubstLeaf(v1, q);
    assert [p, q, r][1..] == [q, r] && [q, r][1..] == [r] && [r][1..] == [];
    assert SubstLeaves(v, [p, q, r]) == SubstLeaves(v1, [q, r]);
    assert SubstLeaves(v1, [q, r]) == SubstLeaves(v2, [r]);
    assert SubstLeaves(v2, [r]) == SubstLeaves(SubstLeaf(v2, r), []);
  }

  lemma PlainX(root: Json)
    ensures Subst("x", root) == "x"
  {
    CStringAll("x");
    NoBraceNoChange("x", name => Lookup(root, name));
  }

  lemma RefersTo(a: string, b: string, c: string)
    ensures Subst("{a}", ThreeMembers(a, b, c)) == a
    ensures Subst("{b}", ThreeMembers(a, b, c)) == b
    ensures Subst("{c}", ThreeMembers(a, b, c)) == c
  {
    var v := ThreeMembers(a, b, c);
    LookupThree(a, b, c);
    assert "{" + "c" + "}" == "{c}" && "{" + "a" + "}" == "{a}" && "{" + "b" + "}" == "{b}";
    assert Subst("{b}", v) == b by { SingleReference("b", v); }
    assert Subst("{c}", v) == c by { SingleReference("c", v); }
    assert Subst("{a}", v) == a by { SingleReference("a", v); }
  }

  /** A reference to a leaf already visited: `b` refers to `a`, which has been replaced
      by the time `b` is reached, and so finds what `a` referred to. */
  lemma BackwardChainDiffers()
    ensures var v := ThreeMembers("{c}", "{a}", "x");
            && SubstLeaves(v, Leaves(v)) == ThreeMembers("x", "x", "x")
            && Map(v, v) == ThreeMembers("x", "{c}", "x")
            && !OrderIsHarmless(v) && !ReferencesFixed(v) && !NoChains(v)
  {
    var v := ThreeMembers("{c}", "{a}", "x");
    ChainInPlace();
    MapThree("{c}", "{a}", "x");
    RefersTo("{c}", "{a}", "x");
    PlainX(v);
    assert ThreeMembers("x", "x", "x").members[1] != ThreeMembers("x", "{c}", "x").members[1];
    InPlaceExactly(v);
    InPlaceByReferences(v);
    if NoChains(v) { InPlaceIsSimultaneous(v); }
  }

  /** A reference to a leaf still to come, which is a chain all the same, does no harm. */
  lemma ForwardChainAgrees()
    ensures var v := ThreeMembers("{b}", "{c}", "x");
            && SubstLeaves(v, Leaves(v)) == Map(v, v) == ThreeMembers("{c}", "x", "x")
            && OrderIsHarmless(v) && !NoChains(v)
  {
    var v := ThreeMembers("{b}", "{c}", "x");
    ForwardInPlace();
    MapThree("{b}", "{c}", "x");
    RefersTo("{b}", "{c}", "x");
    PlainX(v);
    InPlaceExactly(v);
    ForwardIsChain();
  }

  lemma FirstLeaf(a: string, b: string, c: string)
    ensures IsLeaf(ThreeMembers(a, b, c), [0]) && Get(ThreeMembers(a, b, c), [0]) == String(a)
  {
    var v := ThreeMembers(a, b, c);
    assert [0][1..] == [] && Kid(v, 0) == String(a);
    assert Get(Kid(v, 0), []) == Kid(v, 0);
  }

  lemma OneChain(root: Json, p: Path, n: string)
    requires IsLeaf(root, p) && n in RefNames(TokensOf(Get(root, p).s)) && '{' in Lookup(root, n)
    ensures !NoChains(root)
  {}

  lemma NameOfB(s: string)
    requires s == "{b}"
    ensures RefNames(TokensOf(s)) == {"b"}
  {
    var ref := Ref("", "b", "");
    SingleReferenceTokens("b");
    assert "{" + "b" + "}" == s;
    assert [ref][1..] == [] && RefNames([ref]) == {"b"};
  }

  lemma ForwardIsChain()
    ensures !NoChains(ThreeMembers("{b}", "{c}", "x"))
  {
    LookupThree("{b}", "{c}", "x");
    FirstLeaf("{b}", "{c}", "x");
    NameOfB("{b}");
    assert "{c}"[0] == '{';
    OneChain(ThreeMembers("{b}", "{c}", "x"), [0], "b");
  }

  lemma ForwardInPlace()
    ensures var v := ThreeMembers("{b}", "{c}", "x"); SubstLeaves(v, Leaves(v)) == ThreeMembers("{c}", "x", "x")
  {
    LeavesOfThree("{b}", "{c}", "x");
    Fold3(ThreeMembers("{b}", "{c}", "x"), [0], [1], [2]);
    RefersTo("{b}", "{c}", "x");
    SubstThree("{b}", "{c}", "x");
    RefersTo("{c}", "{c}", "x");
    SubstThree("{c}", "{c}", "x");
    PlainX(ThreeMembers("{c}", "x", "x"));
    SubstThree("{c}", "x", "x");
  }

  lemma ChainInPlace()
    ensures var v := ThreeMembers("{c}", "{a}", "x"); SubstLeaves(v, Leaves(v)) == ThreeMembers("x", "x", "x")
  {
    LeavesOfThree("{c}", "{a}", "x");
    Fold3(ThreeMembers("{c}", "{a}", "x"), [0], [1], [2]);
    RefersTo("{c}", "{a}", "x");
    SubstThree("{c}", "{a}", "x");
    RefersTo("x", "{a}", "x");
    SubstThree("x", "{a}", "x");
    PlainX(ThreeMembers("x", "x", "x"));
    SubstThree("x", "x", "x");
  }

  lemma MapThree(a: string, b: string, c: string)
    ensures var v := ThreeMembers(a, b, c); Map(v, v) == ThreeMembers(Subst(a, v), Subst(b, v), Subst(c, v))
  {
    var v := ThreeMembers(a, b, c);
    assert Map(v, v).members == ThreeMembers(Subst(a, v), Subst(b, v), Subst(c, v)).members;
  }
}
