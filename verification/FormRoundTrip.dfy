/** A form printed as JSON text reads back as the form. */
module FormRoundTrip {
  import opened FormJson
  import opened JsonText
  import opened JsonValues
  import opened Options
  import opened Sequences

  // ------------------------------------------------------------------
  // Reading strings back
  // ------------------------------------------------------------------

  /** No control character, or one of the five that have an entity. */
  predicate Allowed(c: char) {
    c >= ' ' || c == '\n' || c == '\r' || c == '\t' || c == '\U{8}' || c == '\U{C}'
  }

  /** No control characters but those. */
  predicate Encodable(v: string) {
    forall i :: 0 <= i < |v| ==> Allowed(v[i])
  }

  /** Nothing that needs escaping at all. */
  predicate Clean(k: string) {
    forall i :: 0 <= i < |k| ==> k[i] >= ' ' && k[i] != '"' && k[i] != '\\'
  }

  lemma {:induction false} ParseEscaped(c: char, x: string)
    ensures ParseString(Escape(c) + x) ==
            if Allowed(c) then Cons(c, ParseString(x)) else Refused
  {
    var s := Escape(c) + x;
    if Plain(c) {
      assert s[1..] == x;
    } else {
      assert s[2..] == x;
    }
  }

  lemma {:induction false} EncodableCons(c: char, w: string)
    ensures Encodable([c] + w) <==> Allowed(c) && Encodable(w)
  {
    var v := [c] + w;
    assert forall i :: 0 <= i < |w| ==> w[i] == v[i + 1];
    if Encodable(v) { assert Allowed(v[0]); }
  }

  /** An encoded value reads back as the value, and the text behind it is untouched,
      if and only if all its control characters have an entity. */
  lemma {:induction false} ReadEncoded(v: string, tail: string)
    ensures ParseString(Encode(v) + ("\"" + tail)) == Read(v, tail) <==> Encodable(v)
    ensures !Encodable(v) ==> ParseString(Encode(v) + ("\"" + tail)).Refused?
  {
    var x := "\"" + tail;
    if v == "" {
      assert "" + x == x && x[1..] == tail;
    } else {
      var c, w := v[0], v[1..];
      ReadEncoded(w, tail);
      Assoc(Escape(c), Encode(w), x);
      ParseEscaped(c, Encode(w) + x);
      assert v == [c] + w;
      EncodableCons(c, w);
    }
  }

  lemma {:induction false} Behind(k: string, x: string)
    requires k != ""
    ensures (k + x)[0] == k[0] && (k + x)[1..] == k[1..] + x
  {}

  lemma {:induction false} ParsePlain(c: char, x: string)
    requires c >= ' ' && Plain(c)
    ensures ParseString([c] + x) == Cons(c, ParseString(x))
  {
    assert ([c] + x)[1..] == x;
  }

  lemma {:induction false} CleanReads(k: string, tail: string)
    requires Clean(k)
    ensures ParseString(k + ("\"" + tail)) == Read(k, tail)
  {
    var x := "\"" + tail;
    if k == "" {
      assert "" + x == x && x[1..] == tail;
    } else {
      var rest := k[1..];
      CleanReads(rest, tail);
      ParsePlain(k[0], rest + x);
      assert k == [k[0]] + rest;
      Assoc([k[0]], rest, x);
    }
  }

  lemma {:induction false} ParseHead(s: string, p: Parsed<string>)
    requires s != "" && p == ParseString(s) && p.Read?
    ensures s[0] >= ' '
    ensures s[0] == '"' ==> p.value == ""
    ensures s[0] == '\\' ==> |p.value| + |p.rest| + 2 <= |s|
    ensures s[0] != '"' && s[0] != '\\' ==> p == Cons(s[0], ParseString(s[1..]))
  {}

  lemma {:induction false} DirtyMisreads(k: string, tail: string, r: string)
    requires ParseString(k + ("\"" + tail)) == Read(r, tail) && |r| >= |k|
    ensures Clean(k) && |r| == |k|
  {
    ParseHead(k + ("\"" + tail), Read(r, tail));
    if k != "" {
      Behind(k, "\"" + tail);
      var rest := k[1..];
      DirtyMisreads(rest, tail, r[1..]);
      assert forall i :: 0 < i < |k| ==> k[i] == rest[i - 1];
    }
  }

  /** A key goes into the text as it is: it reads back as itself if and only if it
      has nothing that needs escaping. */
  lemma {:induction false} ReadKey(k: string, tail: string)
    ensures ParseString(k + ("\"" + tail)) == Read(k, tail) <==> Clean(k)
  {
    if Clean(k) {
      CleanReads(k, tail);
    } else if ParseString(k + ("\"" + tail)) == Read(k, tail) {
      DirtyMisreads(k, tail, k);
    }
  }

  // ------------------------------------------------------------------
  // Reading forms back
  // ------------------------------------------------------------------

  function Strings(vs: seq<string>): (r: seq<Json>)
    ensures |r| == |vs| && forall i :: 0 <= i < |r| ==> r[i] == String(vs[i])
  {
    if vs == [] then [] else [String(vs[0])] + Strings(vs[1..])
  }

  function Value(vs: seq<string>): Json {
    if |vs| == 1 then String(vs[0]) else Array(Strings(vs))
  }

  function Members(gs: seq<Group>): (r: seq<Member>)
    ensures |r| == |gs| && forall i :: 0 <= i < |r| ==> r[i] == Member(gs[i].key, Value(gs[i].values))
  {
    if gs == [] then [] else [Member(gs[0].key, Value(gs[0].values))] + Members(gs[1..])
  }

  predicate AllEncodable(vs: seq<string>) { forall i :: 0 <= i < |vs| ==> Encodable(vs[i]) }

  predicate Printable(gs: seq<Group>) {
    forall i :: 0 <= i < |gs| ==> Clean(gs[i].key) && gs[i].values != [] && AllEncodable(gs[i].values)
  }

  lemma {:induction false} ReadQuoted(v: string, tail: string)
    requires Encodable(v)
    ensures ParseValue(Quoted(v, tail)) == Read(String(v), tail)
  {
    ReadEncoded(v, tail);
    var s := Quoted(v, tail);
    assert s[1..] == Encode(v) + ("\"" + tail);
  }

  lemma {:induction false} ReadList(vs: seq<string>, tail: string)
    requires vs != [] && AllEncodable(vs)
    ensures ParseElements(ListText(vs, true, tail)) == Read(Strings(vs), tail)
  {
    var more := ListText(vs[1..], false, tail);
    ReadQuoted(vs[0], more);
    if |vs| == 1 {
      assert more == "]" + tail && more[1..] == tail;
      assert vs[1..] == [] && Strings(vs) == [String(vs[0])];
    } else {
      ReadList(vs[1..], tail);
      assert more[1..] == ListText(vs[1..], true, tail);
    }
  }

  lemma {:induction false} ReadValues(vs: seq<string>, tail: string)
    requires vs != [] && AllEncodable(vs)
    ensures ParseValue(ValuesText(vs, tail)) == Read(Value(vs), tail)
  {
    if |vs| == 1 {
      ReadQuoted(vs[0], tail);
    } else {
      var list := ListText(vs, true, tail);
      var s := " [" + list;
      ReadList(vs, tail);
      assert s[1..][1..] == list && SkipWhite(s) == s[1..];
      assert list[0] == '"';
    }
  }

  lemma {:induction false} ReadName(k: string, tail: string)
    requires Clean(k)
    ensures ParseName(KeyText(k, true, tail)) == Read(k, tail)
  {
    CleanReads(k, ":" + tail);
    var x := k + ("\":" + tail);
    assert "\":" + tail == "\"" + (":" + tail);
    var s := "\n\t\"" + x;
    assert s[0] == '\n' && s[1..][0] == '\t' && s[1..][1..] == "\"" + x && ("\"" + x)[1..] == x;
    assert SkipWhite(s) == SkipWhite(s[1..]) == SkipWhite(s[1..][1..]);
    assert (":" + tail)[1..] == tail;
  }

  /** One member, and what its text is followed by. */
  lemma {:induction false} ReadMember(k: string, v: Json, s: string, u: string, tail: string)
    requires ParseName(s) == Read(k, u) && ParseValue(u) == Read(v, tail)
    ensures ParseMembers(s) == var t := SkipWhite(tail);
            if t != "" && t[0] == '}' then Read([Member(k, v)], t[1..])
            else if t != "" && t[0] == ',' then
              var p := ParseMembers(t[1..]);
              if p.Refused? then Refused else Read([Member(k, v)] + p.value, p.rest)
            else Refused
  {}

  lemma {:induction false} ReadMembers(gs: seq<Group>, tail: string)
    requires gs != [] && Printable(gs)
    ensures ParseMembers(MembersText(gs, true, "\n}" + tail)) == Read(Members(gs), tail)
  {
    var end := "\n}" + tail;
    var more := MembersText(gs[1..], false, end);
    var g, u := gs[0], ValuesText(gs[0].values, more);
    ReadValues(g.values, more);
    ReadName(g.key, u);
    ReadMember(g.key, Value(g.values), KeyText(g.key, true, u), u, more);
    if |gs| == 1 {
      assert end[1..][1..] == tail && SkipWhite(end) == end[1..];
      assert gs[1..] == [] && Members(gs) == [Member(g.key, Value(g.values))];
    } else {
      ReadMembers(gs[1..], tail);
      assert more[1..] == MembersText(gs[1..], true, end);
    }
  }

  lemma {:induction false} ReadObject(gs: seq<Group>, tail: string)
    requires Printable(gs)
    ensures ParseValue("{" + MembersText(gs, true, "\n}" + tail)) == Read(Object(Members(gs)), tail)
  {
    var x := MembersText(gs, true, "\n}" + tail);
    var s := "{" + x;
    assert s[1..] == x;
    if gs == [] {
      assert SkipWhite(x) == x[1..] && x[1..][1..] == tail;
    } else {
      ReadMembers(gs, tail);
      assert SkipWhite(x)[0] == '"' by {
        assert x[0] == '\n' && x[1..][0] == '\t' && x[1..][1..][0] == '"';
      }
    }
  }

  /** The text behind the opening brace. */
  function Named(x: string): string { "\n" + ("\"" + ("get" + ("\"" + (":" + x)))) }

  lemma {:induction false} HeadSplit(x: string)
    ensures HEAD + x == "{" + Named("{" + x)
  {}

  lemma {:induction false} ReadGet(x: string)
    ensures ParseName(Named(x)) == Read("get", x)
    ensures SkipWhite(Named(x)) != "" && SkipWhite(Named(x))[0] == '"'
  {
    var y := ":" + x;
    var k := "get" + ("\"" + y);
    CleanReads("get", y);
    var s, q := "\n" + ("\"" + k), "\"" + k;
    assert s[1..] == q && q[1..] == k && y[1..] == x;
    assert SkipWhite(s) == SkipWhite(s[1..]) == q;
  }

  lemma {:induction false} ReadNamed(x: string, v: Json)
    requires ParseValue(x) == Read(v, "}\n")
    ensures ParseValue("{" + Named(x)) == Read(Object([Member("get", v)]), "\n")
  {
    ReadGet(x);
    var end := "}\n";
    assert SkipWhite(end) == end && end[1..] == "\n";
    assert ParseMembers(Named(x)) == Read([Member("get", v)], "\n");
    assert ("{" + Named(x))[1..] == Named(x);
  }

  lemma {:induction false} ReadGroups(gs: seq<Group>)
    requires Printable(gs)
    ensures ParseText(HEAD + MembersText(gs, true, TAIL)) == Some(Object([Member("get", Object(Members(gs)))]))
  {
    var x := MembersText(gs, true, TAIL);
    assert TAIL == "\n}" + "}\n";
    ReadObject(gs, "}\n");
    ReadNamed("{" + x, Object(Members(gs)));
    HeadSplit(x);
    assert SkipWhite("\n") == "" by { assert "\n"[1..] == ""; }
  }

  /** The pairs of an object whose values are strings or arrays of strings. */
  function Flatten(ms: seq<Member>): Form {
    if ms == [] then [] else FlattenValue(ms[0].key, ms[0].value) + Flatten(ms[1..])
  }

  function FlattenValue(k: string, v: Json): Form {
    match v
    case String(s) => [(k, s)]
    case Array(es) => seq(|es|, i requires 0 <= i < |es| => (k, if es[i].String? then es[i].s else ""))
    case _ => []
  }

  lemma {:induction false} FlattenMembers(gs: seq<Group>)
    ensures Flatten(Members(gs)) == Ungroup(gs)
  {
    if gs != [] {
      FlattenMembers(gs[1..]);
      var ms := Members(gs);
      assert ms[1..] == Members(gs[1..]);
      assert FlattenValue(ms[0].key, ms[0].value) == Pairs(gs[0].key, gs[0].values);
    }
  }

  lemma {:induction false} GroupsPrintable(form: Form)
    requires forall i :: 0 <= i < |form| ==> Clean(form[i].0) && Encodable(form[i].1)
    ensures Printable(Groups(form))
    decreases |form|
  {
    if form != [] {
      var n := RunLength(form, form[0].0);
      GroupsPrintable(form[n..]);
    }
  }

  /** The round trip: a form whose keys need no escaping and whose values have no
      control characters beyond the five reads back as one object `get`, which has
      the pairs of the form in their order, and each key once if the form is a
      multimap. */
  lemma {:induction false} FormRoundTrip(form: Form) returns (members: seq<Member>)
    requires forall i :: 0 <= i < |form| ==> Clean(form[i].0) && Encodable(form[i].1)
    ensures ParseText(FormText(form)) == Some(Object([Member("get", Object(members))]))
    ensures Flatten(members) == form
    ensures (forall i, j :: 0 <= i < j < |members| ==> members[i].key != members[j].key) <==> Contiguous(form)
  {
    members := Members(Groups(form));
    GroupsPrintable(form);
    ReadGroups(Groups(form));
    FlattenMembers(Groups(form));
    UngroupGroups(form);
    KeysOnce(form);
  }
}
