/** In-place substitution over a configuration tree that is also the root the
    references are looked up in (src/configUtils.cpp). */
module ConfigTree {
  import opened ConfigScanner
  import opened CStrings
  import opened JsonValues

  // ------------------------------------------------------------------
  // Positions
  // ------------------------------------------------------------------

  function Width(v: Json): nat {
    if v.Array? then |v.items| else if v.Object? then |v.members| else 0
  }

  function Kid(v: Json, i: nat): (k: Json)
    requires i < Width(v)
    ensures k < v
  {
    if v.Array? then v.items[i] else v.members[i].value
  }

  function SetKid(v: Json, i: nat, k: Json): (v': Json)
    requires i < Width(v)
    ensures Width(v') == Width(v) && Kid(v', i) == k
    ensures forall j :: 0 <= j < Width(v) && j != i ==> Kid(v', j) == Kid(v, j)
  {
    if v.Array? then Array(v.items[i := k]) else Object(v.members[i := v.members[i].(value := k)])
  }

  type Path = seq<nat>

  /** The position of part `i` of the value at `p`. */
  function Down(p: Path, i: nat): (q: Path)
    ensures q == p + [i]
  {
    p + [i]
  }

  predicate Has(v: Json, p: Path) {
    p == [] || (p[0] < Width(v) && Has(Kid(v, p[0]), p[1..]))
  }

  function Get(v: Json, p: Path): Json
    requires Has(v, p)
    decreases p
  {
    if p == [] then v else Get(Kid(v, p[0]), p[1..])
  }

  function Set(v: Json, p: Path, w: Json): Json
    requires Has(v, p)
    decreases p
  {
    if p == [] then w else SetKid(v, p[0], Set(Kid(v, p[0]), p[1..], w))
  }

  lemma {:induction false} GetSet(v: Json, p: Path, w: Json)
    requires Has(v, p)
    ensures Has(Set(v, p, w), p) && Get(Set(v, p, w), p) == w
    decreases p
  {
    if p != [] { GetSet(Kid(v, p[0]), p[1..], w); }
  }

  lemma {:induction false} KidPath(v: Json, p: Path, i: nat, w: Json)
    requires Has(v, p) && i < Width(Get(v, p))
    ensures Has(v, Down(p, i)) && Get(v, Down(p, i)) == Kid(Get(v, p), i)
    ensures Set(v, Down(p, i), w) == Set(v, p, SetKid(Get(v, p), i, w))
    decreases p
  {
    if p == [] {
      assert Down(p, i) == [i] && [i][1..] == [];
    } else {
      assert (Down(p, i))[0] == p[0] && (Down(p, i))[1..] == p[1..] + [i];
      KidPath(Kid(v, p[0]), p[1..], i, w);
    }
  }

  // ------------------------------------------------------------------
  // Lookup
  // ------------------------------------------------------------------

  /** The components of a path with dots. */
  function Split(name: string): (parts: seq<string>)
    ensures parts != []
  {
    if name == [] then [[]]
    else
      var rest := Split(name[1..]);
      if name[0] == '.' then [[]] + rest else [[name[0]] + rest[0]] + rest[1..]
  }

  function FindMember(ms: seq<Member>, key: string, i: nat): (j: nat)
    requires i <= |ms|
    ensures i <= j <= |ms| && (j < |ms| ==> ms[j].key == key)
    decreases |ms| - i
  {
    if i == |ms| || ms[i].key == key then i else FindMember(ms, key, i + 1)
  }

  function Find(v: Json, parts: seq<string>): Json
    decreases |parts|
  {
    if parts == [] then v
    else if !v.Object? then Undefined
    else
      var j := FindMember(v.members, parts[0], 0);
      if j == |v.members| then Undefined else Find(v.members[j].value, parts[1..])
  }

  /** root.get(name, ""): anything but a string yields the default. */
  function Lookup(root: Json, name: string): string {
    var v := Find(root, Split(name));
    if v.String? then v.s else ""
  }

  // ------------------------------------------------------------------
  // In place, and all at once
  // ------------------------------------------------------------------

  /** A string with its references replaced. */
  function Subst(s: string, root: Json): string {
    var c := CString(s);
    Eval(Tokenize(c, 0), name => Lookup(root, name))
  }

  /** One string leaf is overwritten; its references are looked up in the tree
      as it is then. */
  function SubstLeaf(root: Json, p: Path): Json {
    if Has(root, p) && Get(root, p).String? then Set(root, p, String(Subst(Get(root, p).s, root))) else root
  }

  function SubstLeaves(root: Json, ps: seq<Path>): Json
    decreases ps
  {
    if ps == [] then root else SubstLeaves(SubstLeaf(root, ps[0]), ps[1..])
  }

  /** The same positions seen from further up. */
  function Below(p: Path, ps: seq<Path>): seq<Path> {
    if ps == [] then [] else [p + ps[0]] + Below(p, ps[1..])
  }

  /** The string leaves in the order in which the program visits them. */
  function Leaves(v: Json): seq<Path>
    decreases v, 1, 0
  {
    if v.String? then [[]] else LeavesOfKids(v, Width(v))
  }

  function LeavesOfKids(v: Json, n: nat): seq<Path>
    requires n <= Width(v)
    decreases v, 0, n
  {
    if n == 0 then [] else LeavesOfKids(v, n - 1) + Below([n - 1], Leaves(Kid(v, n - 1)))
  }

  /** Every string replaced by its image, nothing else touched. */
  function Map(v: Json, root: Json): Json
    decreases v
  {
    match v
    case String(s) => String(Subst(s, root))
    case Array(items) => Array(seq(|items|, i requires 0 <= i < |items| => Map(items[i], root)))
    case Object(members) =>
      Object(seq(|members|, i requires 0 <= i < |members| => Member(members[i].key, Map(members[i].value, root))))
    case _ => v
  }

  // ------------------------------------------------------------------
  // References
  // ------------------------------------------------------------------

  function RefNames(ts: seq<Token>): set<string> {
    if ts == [] then {} else (if ts[0].Ref? then {ts[0].name} else {}) + RefNames(ts[1..])
  }

  lemma CStringAll(s: string)
    requires '\0' !in s
    ensures CString(s) == s
  {
  }

  lemma {:induction false} SameKeys(ms: seq<Member>, ms': seq<Member>, key: string, i: nat)
    requires |ms| == |ms'| && i <= |ms| && forall j :: 0 <= j < |ms| ==> ms[j].key == ms'[j].key
    ensures FindMember(ms, key, i) == FindMember(ms', key, i)
    decreases |ms| - i
  {
    if i < |ms| && ms[i].key != key { SameKeys(ms, ms', key, i + 1); }
  }

  lemma {:induction false} SubstLeavesAppend(root: Json, ps: seq<Path>, qs: seq<Path>)
    ensures SubstLeaves(root, ps + qs) == SubstLeaves(SubstLeaves(root, ps), qs)
    decreases ps
  {
    if ps == [] {
      assert ps + qs == qs;
    } else {
      assert (ps + qs)[1..] == ps[1..] + qs;
      SubstLeavesAppend(SubstLeaf(root, ps[0]), ps[1..], qs);
    }
  }

  lemma {:induction false} BelowAppend(p: Path, ps: seq<Path>, qs: seq<Path>)
    ensures Below(p, ps + qs) == Below(p, ps) + Below(p, qs)
  {
    if ps == [] {
      assert ps + qs == qs;
    } else {
      assert (ps + qs)[1..] == ps[1..] + qs;
      BelowAppend(p, ps[1..], qs);
    }
  }

  lemma {:induction false} BelowBelow(p: Path, i: nat, ps: seq<Path>)
    ensures Below(p, Below([i], ps)) == Below(Down(p, i), ps)
  {
    if ps != [] {
      assert p + ([i] + ps[0]) == Down(p, i) + ps[0];
      BelowBelow(p, i, ps[1..]);
    }
  }

  lemma SplitKids(r: Json, p: Path, v: Json, n: nat)
    requires 0 < n <= Width(v)
    ensures SubstLeaves(r, Below(p, LeavesOfKids(v, n))) ==
            SubstLeaves(SubstLeaves(r, Below(p, LeavesOfKids(v, n - 1))), Below(Down(p, n - 1), Leaves(Kid(v, n - 1))))
  {
    var before, kid := LeavesOfKids(v, n - 1), Leaves(Kid(v, n - 1));
    BelowAppend(p, before, Below([n - 1], kid));
    BelowBelow(p, n - 1, kid);
    SubstLeavesAppend(r, Below(p, before), Below(Down(p, n - 1), kid));
  }

  lemma {:induction false} BelowNothing(ps: seq<Path>)
    ensures Below([], ps) == ps
  {
    if ps != [] {
      assert [] + ps[0] == ps[0];
      BelowNothing(ps[1..]);
    }
  }

  // ------------------------------------------------------------------
  // What never changes
  // ------------------------------------------------------------------

  /** A tree with its strings blanked out. */
  function Skeleton(v: Json): Json
    decreases v
  {
    match v
    case String(_) => String("")
    case Array(items) => Array(seq(|items|, i requires 0 <= i < |items| => Skeleton(items[i])))
    case Object(members) =>
      Object(seq(|members|, i requires 0 <= i < |members| => Member(members[i].key, Skeleton(members[i].value))))
    case _ => v
  }

  lemma SkeletonKid(v: Json, i: nat)
    requires i < Width(v)
    ensures Width(Skeleton(v)) == Width(v) && Kid(Skeleton(v), i) == Skeleton(Kid(v, i))
  {
  }

  lemma SkeletonSetKid(v: Json, i: nat, k: Json)
    requires i < Width(v) && Skeleton(k) == Skeleton(Kid(v, i))
    ensures Skeleton(SetKid(v, i, k)) == Skeleton(v)
  {
    var a, b := Skeleton(SetKid(v, i, k)), Skeleton(v);
    if v.Array? {
      assert forall j :: 0 <= j < |a.items| ==> a.items[j] == b.items[j];
      assert a.items == b.items;
    } else {
      assert forall j :: 0 <= j < |a.members| ==> a.members[j] == b.members[j];
      assert a.members == b.members;
    }
  }

  lemma {:induction false} SkeletonSet(v: Json, p: Path, s: string)
    requires Has(v, p) && Get(v, p).String?
    ensures Skeleton(Set(v, p, String(s))) == Skeleton(v)
    decreases p
  {
    if p != [] {
      SkeletonSet(Kid(v, p[0]), p[1..], s);
      SkeletonSetKid(v, p[0], Set(Kid(v, p[0]), p[1..], String(s)));
    }
  }

  /** Keys, array lengths and leaves other than strings never change, chains or not. */
  lemma {:induction false} SkeletonKept(root: Json, ps: seq<Path>)
    ensures Skeleton(SubstLeaves(root, ps)) == Skeleton(root)
    decreases ps
  {
    if ps != [] {
      if Has(root, ps[0]) && Get(root, ps[0]).String? {
        SkeletonSet(root, ps[0], Subst(Get(root, ps[0]).s, root));
      }
      SkeletonKept(SubstLeaf(root, ps[0]), ps[1..]);
    }
  }
}
