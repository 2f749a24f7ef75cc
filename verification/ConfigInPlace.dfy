/** The configuration as the program updates it in place (src/configUtils.cpp). */
module ConfigInPlace {
  import opened ConfigScanner
  import opened ConfigTree
  import opened JsonValues
  import opened ConfigOrder

  /** The parts of `v` before `i` are done, and the others are as they were. */
  ghost predicate KidsDone(start: Json, r: Json, path: Path, v: Json, i: nat) {
    && i <= Width(v) && r == SubstLeaves(start, Below(path, LeavesOfKids(v, i)))
    && Has(r, path) && Width(Get(r, path)) == Width(v)
    && forall j :: i <= j < Width(v) ==> Kid(Get(r, path), j) == Kid(v, j)
  }

  lemma {:induction false} AfterKid(start: Json, before: Json, after: Json, path: Path, v: Json, i: nat, next: nat)
    requires i < Width(v) && next == i + 1 && KidsDone(start, before, path, v, i)
    requires after == SubstLeaves(before, Below(Down(path, i), Leaves(Kid(v, i))))
    ensures KidsDone(start, after, path, v, next)
  {
    SplitKids(start, path, v, next);
    OnlyBelow(before, path, i, Leaves(Kid(v, i)));
  }

  lemma {:induction false} NoKidsDone(start: Json, path: Path, v: Json)
    requires Has(start, path) && Get(start, path) == v
    ensures KidsDone(start, start, path, v, 0)
  {}

  lemma {:induction false} AllKidsDone(start: Json, r: Json, path: Path, v: Json)
    requires KidsDone(start, r, path, v, Width(v)) && !v.String?
    ensures r == SubstLeaves(start, Below(path, Leaves(v)))
  {}

  /** The configuration, updated in place: `path` says where in the tree the
      value is that the program passes by reference along with the root. */
  class Configuration {
    var root: Json

    constructor (root: Json)
      ensures this.root == root
    {
      this.root := root;
    }

    /** substConfigReferenceVariables on a value.  `ghost v` is the value as it
        was when the traversal reached it. */
    method SubstituteValue(path: Path, ghost v: Json)
      requires Has(root, path) && Get(root, path) == v
      modifies this
      ensures root == SubstLeaves(old(root), Below(path, Leaves(v)))
      decreases v, 1
    {
      match Get(root, path) {
        case String(_) => SubstituteString(path, v);
        case Array(_) => SubstituteKids(path, v);
        case Object(_) => SubstituteKids(path, v);
        case _ =>
      }
    }

    method SubstituteString(path: Path, ghost v: Json)
      requires Has(root, path) && Get(root, path) == v && v.String?
      modifies this
      ensures root == SubstLeaves(old(root), Below(path, Leaves(v)))
    {
      var here := root;
      var str := Get(root, path).s;
      var res := Substitute(str, name => Lookup(here, name), true);
      root := Set(root, path, String(res.text));
      assert Below(path, [[]]) == [path + []] + Below(path, []) && path + [] == path;
      assert SubstLeaves(here, [path]) == SubstLeaves(SubstLeaf(here, path), []);
    }

    /** The loops over an array and over the members of an object. */
    method SubstituteKids(path: Path, ghost v: Json)
      requires Has(root, path) && Get(root, path) == v && !v.String?
      modifies this
      ensures root == SubstLeaves(old(root), Below(path, Leaves(v)))
      decreases v, 0
    {
      ghost var start := root;
      var n, i := Width(Get(root, path)), 0;
      NoKidsDone(start, path, v);
      while i < n
        invariant 0 <= i <= n == Width(v) && KidsDone(start, root, path, v, i)
      {
        ghost var before, next := root, i + 1;
        KidPath(root, path, i, Null);
        SubstituteValue(Down(path, i), Kid(v, i));
        AfterKid(start, before, root, path, v, i, next);
        i := i + 1;
        assert i == next;
      }
      AllKidsDone(start, root, path, v);
    }

    /** configFromFile: the value and the root are the same tree. */
    method SubstituteAll()
      modifies this
      ensures root == SubstLeaves(old(root), Leaves(old(root)))
      ensures Skeleton(root) == Skeleton(old(root))
      ensures root == Map(old(root), old(root)) <==> OrderIsHarmless(old(root))
      ensures NoChains(old(root)) ==> root == Map(old(root), old(root))
    {
      BelowNothing(Leaves(root));
      SkeletonKept(root, Leaves(root));
      InPlaceExactly(root);
      if NoChains(root) { InPlaceIsSimultaneous(root); }
      SubstituteValue([], root);
    }
  }

  /** Work below part `i` of the value at `path` leaves the other parts alone. */
  lemma {:induction false} OnlyBelow(root: Json, path: Path, i: nat, ps: seq<Path>)
    requires Has(root, path) && i < Width(Get(root, path))
    ensures var r := SubstLeaves(root, Below(Down(path, i), ps));
            && Has(r, path) && Width(Get(r, path)) == Width(Get(root, path))
            && forall j :: 0 <= j < Width(Get(root, path)) && j != i ==> Kid(Get(r, path), j) == Kid(Get(root, path), j)
    decreases ps
  {
    if ps != [] {
      var q := Down(path, i) + ps[0];
      assert q == path + ([i] + ps[0]);
      OneBelow(root, path, i, ps[0]);
      OnlyBelow(SubstLeaf(root, q), path, i, ps[1..]);
    }
  }

  lemma {:induction false} OneBelow(root: Json, path: Path, i: nat, q: Path)
    requires Has(root, path) && i < Width(Get(root, path))
    ensures var r := SubstLeaf(root, Down(path, i) + q);
            && Has(r, path) && Width(Get(r, path)) == Width(Get(root, path))
            && forall j :: 0 <= j < Width(Get(root, path)) && j != i ==> Kid(Get(r, path), j) == Kid(Get(root, path), j)
  {
    var p := Down(path, i) + q;
    if Has(root, p) && Get(root, p).String? {
      SetBelow(root, path, i, q, String(Subst(Get(root, p).s, root)));
    }
  }

  lemma {:induction false} SetBelow(v: Json, path: Path, i: nat, q: Path, w: Json)
    requires Has(v, path) && i < Width(Get(v, path)) && Has(v, Down(path, i) + q)
    ensures var r := Set(v, Down(path, i) + q, w);
            && Has(r, path) && Width(Get(r, path)) == Width(Get(v, path))
            && forall j :: 0 <= j < Width(Get(v, path)) && j != i ==> Kid(Get(r, path), j) == Kid(Get(v, path), j)
    decreases path
  {
    var p := Down(path, i) + q;
    if path == [] {
      assert p[0] == i;
    } else {
      assert p[0] == path[0] && p[1..] == path[1..] + [i] + q;
      SetBelow(Kid(v, path[0]), path[1..], i, q, w);
    }
  }
}
