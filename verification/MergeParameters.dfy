/** Merging the create parameters of an index with the defaults (src.old/index.cpp). */
module MergeParameters {
  import opened Options

  datatype Metadata = Metadata(name: string, kind: string)

  /** The create parameters: the metadata, and everything else. */
  datatype Parameters = Parameters(config: string, metadata: seq<Metadata>)

  // ------------------------------------------------------------------
  // What the two loops push
  // ------------------------------------------------------------------

  function Count(ms: seq<Metadata>, name: string): nat {
    if ms == [] then 0
    else Count(ms[..|ms| - 1], name) + if ms[|ms| - 1].name == name then 1 else 0
  }

  function Repeat(e: Metadata, n: nat): (r: seq<Metadata>)
    ensures |r| == n && forall i :: 0 <= i < n ==> r[i] == e
  {
    if n == 0 then [] else Repeat(e, n - 1) + [e]
  }

  /** An explicit definition is pushed once for every default of its name, and once
      if there is none. */
  function Pushed(defaults: seq<Metadata>, e: Metadata): seq<Metadata> {
    Repeat(e, Copies(defaults, e.name))
  }

  function Copies(defaults: seq<Metadata>, name: string): (n: nat)
    ensures n > 0
  {
    var n := Count(defaults, name);
    if n == 0 then 1 else n
  }

  function ExplicitPart(defaults: seq<Metadata>, own: seq<Metadata>): seq<Metadata> {
    if own == [] then []
    else ExplicitPart(defaults, own[..|own| - 1]) + Pushed(defaults, own[|own| - 1])
  }

  /** The defaults nobody has redefined. */
  function Remaining(defaults: seq<Metadata>, own: seq<Metadata>): seq<Metadata> {
    if defaults == [] then []
    else
      var last := defaults[|defaults| - 1];
      Remaining(defaults[..|defaults| - 1], own) + if Count(own, last.name) == 0 then [last] else []
  }

  function Merged(defaults: seq<Metadata>, own: seq<Metadata>): seq<Metadata> {
    ExplicitPart(defaults, own) + Remaining(defaults, own)
  }

  class Index {
    const defaultCreateParameters: Parameters

    constructor (defaults: Parameters)
      ensures defaultCreateParameters == defaults
    {
      defaultCreateParameters := defaults;
    }

    /** The defaults are those of the index, whatever the caller passes; all but the
        metadata of the explicit parameters is ignored. */
    method MergeCreateParameters(defaults: Parameters, own: Parameters) returns (params: Parameters)
      ensures params.config == defaultCreateParameters.config
      ensures params.metadata == Merged(defaultCreateParameters.metadata, own.metadata)
    {
      var metadata := MergeMetadata(defaultCreateParameters.metadata, own.metadata);
      params := defaultCreateParameters.(metadata := metadata);
    }
  }

  method MergeMetadata(ds: seq<Metadata>, es: seq<Metadata>) returns (metadata: seq<Metadata>)
    ensures metadata == Merged(ds, es)
  {
    metadata := [];
    var it := 0;
    while it != |es|
      invariant 0 <= it <= |es| && metadata == ExplicitPart(ds, es[..it])
      decreases |es| - it
    {
      var seenDefault := false;
      var it2 := 0;
      ghost var before := metadata;
      while it2 != |ds|
        invariant 0 <= it2 <= |ds|
        invariant seenDefault <==> Count(ds[..it2], es[it].name) > 0
        invariant metadata == before + Repeat(es[it], Count(ds[..it2], es[it].name))
        decreases |ds| - it2
      {
        CountNext(ds, it2, es[it].name);
        if es[it].name == ds[it2].name {
          RepeatNext(before, es[it], Count(ds[..it2], es[it].name));
          metadata := metadata + [es[it]];
          seenDefault := true;
        }
        it2 := it2 + 1;
      }
      assert ds[..|ds|] == ds;
      if !seenDefault {
        RepeatNext(before, es[it], 0);
        metadata := metadata + [es[it]];
      }
      ExplicitNext(ds, es, it);
      it := it + 1;
    }
    assert es[..|es|] == es;
    it := 0;
    ghost var part := metadata;
    while it != |ds|
      invariant 0 <= it <= |ds| && metadata == part + Remaining(ds[..it], es)
      decreases |ds| - it
    {
      var containsDefault := false;
      var it2 := 0;
      while it2 != |es|
        invariant 0 <= it2 <= |es|
        invariant containsDefault <==> Count(es[..it2], ds[it].name) > 0
        decreases |es| - it2
      {
        CountNext(es, it2, ds[it].name);
        if ds[it].name == es[it2].name { containsDefault := true; }
        it2 := it2 + 1;
      }
      assert es[..|es|] == es;
      RemainingNext(part, ds, es, it);
      if !containsDefault {
        metadata := metadata + [ds[it]];
      }
      it := it + 1;
    }
    assert ds[..|ds|] == ds;
  }

  lemma CountNext(ms: seq<Metadata>, i: nat, name: string)
    requires i < |ms|
    ensures Count(ms[..i + 1], name) == Count(ms[..i], name) + if ms[i].name == name then 1 else 0
  {
    assert ms[..i + 1][..i] == ms[..i];
  }

  lemma {:induction false} RepeatNext(before: seq<Metadata>, e: Metadata, n: nat)
    ensures before + Repeat(e, n + 1) == before + Repeat(e, n) + [e]
    ensures before + Repeat(e, 0) == before
  {}

  lemma ExplicitNext(ds: seq<Metadata>, es: seq<Metadata>, i: nat)
    requires i < |es|
    ensures ExplicitPart(ds, es[..i + 1]) == ExplicitPart(ds, es[..i]) + Pushed(ds, es[i])
  {
    assert es[..i + 1][..i] == es[..i];
  }

  lemma RemainingNext(part: seq<Metadata>, ds: seq<Metadata>, es: seq<Metadata>, i: nat)
    requires i < |ds|
    ensures part + Remaining(ds[..i + 1], es) ==
            if Count(es, ds[i].name) == 0 then part + Remaining(ds[..i], es) + [ds[i]]
            else part + Remaining(ds[..i], es)
  {
    assert ds[..i + 1][..i] == ds[..i];
  }

  // ------------------------------------------------------------------
  // The union
  // ------------------------------------------------------------------

  ghost predicate DistinctNames(ms: seq<Metadata>) {
    forall i, j :: 0 <= i < j < |ms| ==> ms[i].name != ms[j].name
  }

  ghost predicate Named(ms: seq<Metadata>, name: string) {
    exists i :: 0 <= i < |ms| && ms[i].name == name
  }

  /** The first definition of a name. */
  function Lookup(ms: seq<Metadata>, name: string): Option<Metadata> {
    if ms == [] then None
    else if ms[0].name == name then Some(ms[0]) else Lookup(ms[1..], name)
  }

  lemma {:induction false} CountSum(a: seq<Metadata>, b: seq<Metadata>, name: string)
    ensures Count(a + b, name) == Count(a, name) + Count(b, name)
  {
    if b == [] {
      assert a + b == a;
    } else {
      CountSum(a, b[..|b| - 1], name);
      assert (a + b)[..|a + b| - 1] == a + b[..|b| - 1];
    }
  }

  lemma {:induction false} CountOfRepeat(e: Metadata, n: nat, name: string)
    ensures Count(Repeat(e, n), name) == if e.name == name then n else 0
  {
    if n > 0 {
      CountOfRepeat(e, n - 1, name);
      assert Repeat(e, n)[..n - 1] == Repeat(e, n - 1);
    }
  }

  function Times(a: nat, b: nat): nat { if a == 0 then 0 else Times(a - 1, b) + b }

  /** How often a name is in the explicit part. */
  lemma {:induction false} CountExplicit(ds: seq<Metadata>, es: seq<Metadata>, name: string)
    ensures Count(ExplicitPart(ds, es), name) == Times(Count(es, name), Copies(ds, name))
  {
    if es != [] {
      var init, last := es[..|es| - 1], es[|es| - 1];
      CountExplicit(ds, init, name);
      CountSum(ExplicitPart(ds, init), Pushed(ds, last), name);
      CountOfRepeat(last, Copies(ds, last.name), name);
    }
  }

  lemma {:induction false} CountRemaining(ds: seq<Metadata>, es: seq<Metadata>, name: string)
    ensures Count(Remaining(ds, es), name) == if Count(es, name) == 0 then Count(ds, name) else 0
  {
    if ds != [] {
      var init, last := ds[..|ds| - 1], ds[|ds| - 1];
      CountRemaining(init, es, name);
      var more := if Count(es, last.name) == 0 then [last] else [];
      CountSum(Remaining(init, es), more, name);
      assert Count([last], name) == if last.name == name then 1 else 0 by { assert [last][..0] == []; }
    }
  }

  lemma {:induction false} CountMerged(ds: seq<Metadata>, es: seq<Metadata>, name: string)
    ensures Count(Merged(ds, es), name) ==
            if Count(es, name) == 0 then Count(ds, name)
            else Times(Count(es, name), Copies(ds, name))
  {
    CountExplicit(ds, es, name);
    CountRemaining(ds, es, name);
    CountSum(ExplicitPart(ds, es), Remaining(ds, es), name);
  }

  lemma {:induction false} CountAt(ms: seq<Metadata>, i: nat)
    requires i < |ms|
    ensures Count(ms, ms[i].name) >= 1
  {
    if i < |ms| - 1 { CountAt(ms[..|ms| - 1], i); }
  }

  lemma {:induction false} CountedAt(ms: seq<Metadata>, name: string) returns (i: nat)
    requires Count(ms, name) >= 1
    ensures i < |ms| && ms[i].name == name
  {
    i := |ms| - 1;
    if ms[i].name != name { i := CountedAt(ms[..i], name); }
  }

  lemma {:induction false} NamedIsCounted(ms: seq<Metadata>, name: string)
    ensures Named(ms, name) <==> Count(ms, name) >= 1
  {
    if Named(ms, name) {
      var i :| 0 <= i < |ms| && ms[i].name == name;
      CountAt(ms, i);
    }
    if Count(ms, name) >= 1 { var i := CountedAt(ms, name); }
  }

  ghost predicate CountedOnce(ms: seq<Metadata>) { forall name :: Count(ms, name) <= 1 }

  lemma {:induction false} DistinctInit(ms: seq<Metadata>)
    requires ms != []
    ensures DistinctNames(ms) <==> DistinctNames(ms[..|ms| - 1]) && !Named(ms[..|ms| - 1], ms[|ms| - 1].name)
  {
    var init := ms[..|ms| - 1];
    assert forall i :: 0 <= i < |init| ==> init[i] == ms[i];
    if DistinctNames(ms) {
      forall i, j | 0 <= i < j < |init| ensures init[i].name != init[j].name { assert ms[i].name != ms[j].name; }
    }
  }

  lemma {:induction false} CountedInit(ms: seq<Metadata>)
    requires ms != []
    ensures CountedOnce(ms) <==> CountedOnce(ms[..|ms| - 1]) && Count(ms[..|ms| - 1], ms[|ms| - 1].name) == 0
  {
    var init := ms[..|ms| - 1];
    if CountedOnce(ms) {
      assert Count(ms, ms[|ms| - 1].name) <= 1;
      forall name ensures Count(init, name) <= 1 { assert Count(ms, name) <= 1; }
    }
    if CountedOnce(init) && Count(init, ms[|ms| - 1].name) == 0 {
      forall name ensures Count(ms, name) <= 1 { assert Count(init, name) <= 1; }
    }
  }

  /** Names are distinct if and only if each is counted once at most. */
  lemma {:induction false} DistinctIsCounted(ms: seq<Metadata>)
    ensures DistinctNames(ms) <==> CountedOnce(ms)
  {
    if ms != [] {
      DistinctIsCounted(ms[..|ms| - 1]);
      DistinctInit(ms);
      CountedInit(ms);
      NamedIsCounted(ms[..|ms| - 1], ms[|ms| - 1].name);
    }
  }

  lemma {:induction false} MergedCountedOnce(ds: seq<Metadata>, es: seq<Metadata>)
    ensures CountedOnce(Merged(ds, es)) <==> CountedOnce(ds) && CountedOnce(es)
  {
    forall name
      ensures Count(Merged(ds, es), name) <= 1 <==> Count(ds, name) <= 1 && Count(es, name) <= 1
    {
      CountMerged(ds, es, name);
      if Count(es, name) > 0 { OnceEach(Count(es, name), Copies(ds, name)); }
    }
    if CountedOnce(Merged(ds, es)) {
      forall name ensures Count(ds, name) <= 1 && Count(es, name) <= 1 { assert Count(Merged(ds, es), name) <= 1; }
    }
  }

  /** The merged names are distinct if and only if those of both inputs are. */
  lemma MergedDistinct(ds: seq<Metadata>, es: seq<Metadata>)
    ensures DistinctNames(Merged(ds, es)) <==> DistinctNames(ds) && DistinctNames(es)
  {
    DistinctIsCounted(ds);
    DistinctIsCounted(es);
    DistinctIsCounted(Merged(ds, es));
    MergedCountedOnce(ds, es);
  }

  lemma {:induction false} OnceEach(a: nat, b: nat)
    requires a > 0 && b > 0
    ensures Times(a, b) >= 1 && (Times(a, b) <= 1 <==> a <= 1 && b <= 1)
  {
    if a > 1 { OnceEach(a - 1, b); }
  }

  /** The merged names are exactly the union. */
  lemma MergedNames(ds: seq<Metadata>, es: seq<Metadata>, name: string)
    ensures Named(Merged(ds, es), name) <==> Named(ds, name) || Named(es, name)
  {
    NamedIsCounted(ds, name);
    NamedIsCounted(es, name);
    NamedIsCounted(Merged(ds, es), name);
    CountMerged(ds, es, name);
    if Count(es, name) >= 1 { OnceEach(Count(es, name), Copies(ds, name)); }
  }

  lemma {:induction false} LookupInSum(a: seq<Metadata>, b: seq<Metadata>, name: string)
    ensures Lookup(a + b, name) == if Lookup(a, name) == None then Lookup(b, name) else Lookup(a, name)
  {
    if a == [] {
      assert a + b == b;
    } else {
      LookupInSum(a[1..], b, name);
      assert (a + b)[1..] == a[1..] + b;
    }
  }

  lemma {:induction false} LookupSplit(ms: seq<Metadata>, name: string)
    requires ms != []
    ensures var last := ms[|ms| - 1]; var before := Lookup(ms[..|ms| - 1], name);
            Lookup(ms, name) == if before != None then before else if last.name == name then Some(last) else None
  {
    var init, last := ms[..|ms| - 1], ms[|ms| - 1];
    LookupInSum(init, [last], name);
    assert ms == init + [last];
    assert [last][1..] == [];
  }

  lemma {:induction false} LookupExplicit(ds: seq<Metadata>, es: seq<Metadata>, name: string)
    ensures Lookup(ExplicitPart(ds, es), name) == Lookup(es, name)
  {
    if es != [] {
      var init, last := es[..|es| - 1], es[|es| - 1];
      LookupExplicit(ds, init, name);
      LookupInSum(ExplicitPart(ds, init), Pushed(ds, last), name);
      LookupSplit(es, name);
      LookupRepeat(last, Copies(ds, last.name), name);
    }
  }

  lemma {:induction false} LookupRepeat(e: Metadata, n: nat, name: string)
    requires n > 0
    ensures Lookup(Repeat(e, n), name) == if e.name == name then Some(e) else None
  {
    LookupSplit(Repeat(e, n), name);
    assert Repeat(e, n)[..n - 1] == Repeat(e, n - 1);
    if n > 1 { LookupRepeat(e, n - 1, name); }
  }

  lemma {:induction false} LookupRemaining(ds: seq<Metadata>, es: seq<Metadata>, name: string)
    requires Count(es, name) == 0
    ensures Lookup(Remaining(ds, es), name) == Lookup(ds, name)
  {
    if ds != [] {
      var init, last := ds[..|ds| - 1], ds[|ds| - 1];
      LookupRemaining(init, es, name);
      LookupSplit(ds, name);
      var more := if Count(es, last.name) == 0 then [last] else [];
      LookupInSum(Remaining(init, es), more, name);
      assert [last][1..] == [];
    }
  }

  lemma {:induction false} LookupIsCounted(ms: seq<Metadata>, name: string)
    ensures Lookup(ms, name) == None <==> Count(ms, name) == 0
  {
    if ms != [] {
      LookupSplit(ms, name);
      LookupIsCounted(ms[..|ms| - 1], name);
    }
  }

  /** Explicit definitions win over the defaults, whatever is repeated. */
  lemma MergedLookup(ds: seq<Metadata>, es: seq<Metadata>, name: string)
    ensures Lookup(Merged(ds, es), name) == if Lookup(es, name) != None then Lookup(es, name) else Lookup(ds, name)
  {
    LookupInSum(ExplicitPart(ds, es), Remaining(ds, es), name);
    LookupExplicit(ds, es, name);
    LookupIsCounted(es, name);
    if Count(es, name) == 0 { LookupRemaining(ds, es, name); }
  }

  /** With distinct defaults the explicit part is the explicit metadata. */
  lemma {:induction false} ExplicitOnce(ds: seq<Metadata>, es: seq<Metadata>)
    requires DistinctNames(ds)
    ensures ExplicitPart(ds, es) == es
  {
    if es != [] {
      var init, last := es[..|es| - 1], es[|es| - 1];
      ExplicitOnce(ds, init);
      DistinctIsCounted(ds);
      assert Count(ds, last.name) <= 1;
      assert Pushed(ds, last) == [last];
      assert es == init + [last];
    }
  }

  lemma {:induction false} NothingRemains(ds: seq<Metadata>, es: seq<Metadata>)
    requires forall i :: 0 <= i < |ds| ==> Count(es, ds[i].name) > 0
    ensures Remaining(ds, es) == []
  {
    if ds != [] { NothingRemains(ds[..|ds| - 1], es); }
  }

  lemma {:induction false} ExplicitGrows(ds: seq<Metadata>, es: seq<Metadata>, i: nat)
    requires i < |es|
    ensures |ExplicitPart(ds, es)| >= |es| - 1 + |Pushed(ds, es[i])|
  {
    var n := |es| - 1;
    if i < n {
      ExplicitGrows(ds, es[..n], i);
    } else {
      ExplicitLength(ds, es[..n]);
    }
  }

  lemma {:induction false} ExplicitLength(ds: seq<Metadata>, es: seq<Metadata>)
    ensures |ExplicitPart(ds, es)| >= |es|
  {
    if es != [] { ExplicitLength(ds, es[..|es| - 1]); }
  }

  ghost predicate Increasing(places: seq<int>, n: nat) {
    && (forall k :: 0 <= k < |places| ==> 0 <= places[k] < n)
    && forall j, k :: 0 <= j < k < |places| ==> places[j] < places[k]
  }

  /** The defaults at these places, in this order, are those that nobody has redefined. */
  ghost predicate AreRemaining(ds: seq<Metadata>, es: seq<Metadata>, places: seq<int>, rest: seq<Metadata>) {
    && Increasing(places, |ds|) && |rest| == |places|
    && (forall k :: 0 <= k < |places| ==> rest[k] == ds[places[k]])
    && forall i :: 0 <= i < |ds| ==> (i in places <==> !Named(es, ds[i].name))
  }

  lemma IncreasingMore(places: seq<int>, n: nat)
    requires Increasing(places, n)
    ensures Increasing(places, n + 1) && Increasing(places + [n], n + 1)
    ensures forall i :: i in places + [n] <==> i in places || i == n
  {}

  lemma RemainingMore(ds: seq<Metadata>, es: seq<Metadata>, places: seq<int>, rest: seq<Metadata>)
    requires ds != [] && AreRemaining(ds[..|ds| - 1], es, places, rest)
    ensures var n := |ds| - 1;
            if Named(es, ds[n].name) then AreRemaining(ds, es, places, rest)
            else AreRemaining(ds, es, places + [n], rest + [ds[n]])
  {
    IncreasingMore(places, |ds| - 1);
  }

  lemma {:induction false} RemainingPlaces(ds: seq<Metadata>, es: seq<Metadata>) returns (places: seq<int>)
    ensures AreRemaining(ds, es, places, Remaining(ds, es))
  {
    places := [];
    if ds != [] {
      var n := |ds| - 1;
      var before := RemainingPlaces(ds[..n], es);
      NamedIsCounted(es, ds[n].name);
      RemainingMore(ds, es, before, Remaining(ds[..n], es));
      places := if Named(es, ds[n].name) then before else before + [n];
      assert Remaining(ds[..n], es) + [] == Remaining(ds[..n], es);
    }
  }

  /** The order: explicit definitions first, then the remaining defaults, each in the
      order in which they came. */
  lemma MergedOrder(ds: seq<Metadata>, es: seq<Metadata>) returns (places: seq<int>)
    requires DistinctNames(ds)
    ensures es <= Merged(ds, es) && AreRemaining(ds, es, places, Merged(ds, es)[|es|..])
  {
    ExplicitOnce(ds, es);
    places := RemainingPlaces(ds, es);
    assert Merged(ds, es)[|es|..] == Remaining(ds, es);
  }

  /** Merging the result again changes nothing if and only if the defaults are distinct. */
  lemma MergedAgain(ds: seq<Metadata>, es: seq<Metadata>)
    ensures Merged(ds, Merged(ds, es)) == Merged(ds, es) <==> DistinctNames(ds)
  {
    var m := Merged(ds, es);
    forall i | 0 <= i < |ds| ensures Count(m, ds[i].name) > 0 {
      assert Named(ds, ds[i].name);
      MergedNames(ds, es, ds[i].name);
      NamedIsCounted(m, ds[i].name);
    }
    NothingRemains(ds, m);
    assert Merged(ds, m) == ExplicitPart(ds, m);
    DistinctIsCounted(ds);
    if DistinctNames(ds) {
      ExplicitOnce(ds, m);
    } else {
      var name :| Count(ds, name) > 1;
      var i := CountedAt(ds, name);
      var k := CountedAt(m, ds[i].name);
      ExplicitGrows(ds, m, k);
    }
  }
}
