/** The names in references are paths with dots into the configuration tree
    (src/configUtils.cpp). */
module ConfigPaths {
  import opened ConfigScanner
  import opened ConfigTree
  import opened CStrings
  import opened JsonValues
  import opened Sequences

  // ------------------------------------------------------------------
  // Names and their parts
  // ------------------------------------------------------------------

  /** The parts of a path with dots between them. */
  function Dotted(parts: seq<string>): string {
    if parts == [] then ""
    else if |parts| == 1 then parts[0]
    else parts[0] + ("." + Dotted(parts[1..]))
  }

  ghost predicate NoDots(parts: seq<string>) {
    forall i :: 0 <= i < |parts| ==> '.' !in parts[i]
  }

  lemma DottedCons(part: string, parts: seq<string>)
    requires parts != []
    ensures Dotted([part] + parts) == part + ("." + Dotted(parts))
  {
    assert ([part] + parts)[1..] == parts;
  }

  lemma DottedLonger(c: char, parts: seq<string>)
    requires parts != []
    ensures Dotted([[c] + parts[0]] + parts[1..]) == [c] + Dotted(parts)
  {
    if |parts| > 1 {
      assert parts == [parts[0]] + parts[1..];
      DottedCons(parts[0], parts[1..]);
      DottedCons([c] + parts[0], parts[1..]);
      Assoc([c], parts[0], "." + Dotted(parts[1..]));
    }
  }

  /** A name is its parts with dots between them, and no part has a dot. */
  lemma {:induction false} SplitParts(name: string)
    ensures Dotted(Split(name)) == name && NoDots(Split(name))
  {
    if name != [] {
      var rest := Split(name[1..]);
      SplitParts(name[1..]);
      assert name == [name[0]] + name[1..];
      if name[0] == '.' {
        DottedCons([], rest);
        assert [] + ("." + Dotted(rest)) == "." + Dotted(rest);
      } else {
        DottedLonger(name[0], rest);
      }
    }
  }

  lemma {:induction false} SplitPart(part: string, rest: string)
    requires '.' !in part
    ensures Split(part + ("." + rest)) == [part] + Split(rest)
  {
    var name := part + ("." + rest);
    if part == [] {
      assert name[1..] == rest;
    } else {
      assert name[0] == part[0] && name[1..] == part[1..] + ("." + rest);
      SplitPart(part[1..], rest);
      var tail := [part[1..]] + Split(rest);
      assert tail[0] == part[1..] && tail[1..] == Split(rest);
      assert [part[0]] + part[1..] == part;
    }
  }

  lemma {:induction false} SplitOne(part: string)
    requires '.' !in part
    ensures Split(part) == [part]
  {
    if part != [] {
      SplitOne(part[1..]);
      assert [part[0]] + part[1..] == part;
    }
  }

  /** No other parts without dots have that name. */
  lemma {:induction false} SplitDotted(parts: seq<string>)
    requires parts != [] && NoDots(parts)
    ensures Split(Dotted(parts)) == parts
  {
    if |parts| == 1 {
      SplitOne(parts[0]);
      assert [parts[0]] == parts;
    } else {
      SplitDotted(parts[1..]);
      SplitPart(parts[0], Dotted(parts[1..]));
      assert [parts[0]] + parts[1..] == parts;
    }
  }

  // ------------------------------------------------------------------
  // Where a path leads
  // ------------------------------------------------------------------

  ghost predicate FirstOf(ms: seq<Member>, key: string, i: nat) {
    i < |ms| && ms[i].key == key && forall j :: 0 <= j < i ==> ms[j].key != key
  }

  /** From `v` the keys lead to `w`: each is the key of a member, the first of that key,
      of the object the keys before it lead to. */
  ghost predicate LeadsTo(v: Json, keys: seq<string>, w: Json)
    decreases |keys|
  {
    if keys == [] then v == w
    else v.Object? && exists i: nat :: FirstOf(v.members, keys[0], i) && LeadsTo(v.members[i].value, keys[1..], w)
  }

  lemma {:induction false} FindFirst(ms: seq<Member>, key: string, i: nat, from: nat)
    requires FirstOf(ms, key, i) && from <= i
    ensures FindMember(ms, key, from) == i
    decreases i - from
  {
    if from < i { FindFirst(ms, key, i, from + 1); }
  }

  lemma {:induction false} FoundFirst(ms: seq<Member>, key: string, from: nat)
    requires from <= |ms| && forall j :: 0 <= j < from ==> ms[j].key != key
    ensures FindMember(ms, key, from) < |ms| ==> FirstOf(ms, key, FindMember(ms, key, from))
    decreases |ms| - from
  {
    if from < |ms| && ms[from].key != key { FoundFirst(ms, key, from + 1); }
  }

  lemma {:induction false} LeadsToFound(v: Json, keys: seq<string>, w: Json)
    requires LeadsTo(v, keys, w)
    ensures Find(v, keys) == w
    decreases |keys|
  {
    if keys != [] {
      var i: nat :| FirstOf(v.members, keys[0], i) && LeadsTo(v.members[i].value, keys[1..], w);
      FindFirst(v.members, keys[0], i, 0);
      LeadsToFound(v.members[i].value, keys[1..], w);
    }
  }

  lemma {:induction false} FoundIsLedTo(v: Json, keys: seq<string>)
    requires !Find(v, keys).Undefined?
    ensures LeadsTo(v, keys, Find(v, keys))
    decreases |keys|
  {
    if keys != [] {
      var j := FindMember(v.members, keys[0], 0);
      FoundFirst(v.members, keys[0], 0);
      FoundIsLedTo(v.members[j].value, keys[1..]);
      assert FirstOf(v.members, keys[0], j);
    }
  }

  /** A name yields the string its keys lead to, and nothing if they lead to no string. */
  lemma LookupExactly(root: Json, keys: seq<string>)
    requires keys != [] && NoDots(keys)
    ensures forall s :: LeadsTo(root, keys, String(s)) ==> Lookup(root, Dotted(keys)) == s
    ensures (forall s :: !LeadsTo(root, keys, String(s))) ==> Lookup(root, Dotted(keys)) == ""
  {
    SplitDotted(keys);
    forall s | LeadsTo(root, keys, String(s)) ensures Lookup(root, Dotted(keys)) == s {
      LeadsToFound(root, keys, String(s));
    }
    var v := Find(root, keys);
    if v.String? {
      FoundIsLedTo(root, keys);
      assert LeadsTo(root, keys, String(v.s));
    }
  }

  // ------------------------------------------------------------------
  // References in a text
  // ------------------------------------------------------------------

  lemma {:induction false} PlainThen(pre: string, ts: seq<Token>, lookup: string -> string) returns (more: seq<Token>)
    requires IsTokens(ts) && '{' !in pre
    ensures IsTokens(more) && TextOf(more) == pre + TextOf(ts) && Eval(more, lookup) == pre + Eval(ts, lookup)
  {
    if pre == "" {
      more := ts;
      assert "" + TextOf(ts) == TextOf(ts) && "" + Eval(ts, lookup) == Eval(ts, lookup);
    } else {
      var rest := PlainThen(pre[1..], ts, lookup);
      var t := Literal(pre[0]);
      Prepend(t, rest);
      more := [t] + rest;
      assert more[1..] == rest && pre == [pre[0]] + pre[1..];
      Assoc([pre[0]], pre[1..], TextOf(ts));
      Assoc([pre[0]], pre[1..], Eval(ts, lookup));
    }
  }

  lemma ReferenceTokens(pre: string, name: string, post: string, lookup: string -> string) returns (ts: seq<Token>)
    requires '{' !in pre && name != "" && AllName(name)
    ensures IsTokens(ts) && TextOf(ts) == pre + ("{" + name + "}" + post)
    ensures Eval(ts, lookup) == pre + (lookup(name) + Eval(Tokenize(post, 0), lookup))
  {
    var ref, rest := Ref("", name, ""), Tokenize(post, 0);
    TokenizeLossless(post, 0);
    assert post[0..] == post;
    Prepend(ref, rest);
    assert Text(ref) == "{" + name + "}" by { assert "{" + "" + name + "" + "}" == "{" + name + "}"; }
    assert ([ref] + rest)[1..] == rest;
    ts := PlainThen(pre, [ref] + rest, lookup);
  }

  /** A reference behind a text without a brace: it is replaced, and what follows is
      substituted on its own. */
  lemma SubstReference(pre: string, name: string, post: string, root: Json)
    requires '{' !in pre && name != "" && AllName(name) && '\0' !in pre + name + post
    ensures Subst(pre + ("{" + name + "}" + post), root) == pre + (Lookup(root, name) + Subst(post, root))
  {
    NoNul(pre, name, post);
    CStringAll(post);
    ReferenceText(pre + ("{" + name + "}" + post), pre, name, post, root);
  }

  lemma ReferenceText(s: string, pre: string, name: string, post: string, root: Json)
    requires '{' !in pre && name != "" && AllName(name) && '\0' !in s && s == pre + ("{" + name + "}" + post)
    ensures Subst(s, root) == pre + (Lookup(root, name) + Eval(Tokenize(post, 0), n => Lookup(root, n)))
  {
    var lookup := n => Lookup(root, n);
    var ts := ReferenceTokens(pre, name, post, lookup);
    CStringAll(s);
    assert s[0..] == s;
    TokenizeUnique(s, 0, ts);
  }

  lemma NoNul(pre: string, name: string, post: string)
    requires '\0' !in pre + name + post
    ensures '\0' !in pre + ("{" + name + "}" + post) && '\0' !in post
  {
    var s := pre + ("{" + name + "}" + post);
    assert forall c :: c in pre || c in name || c in post ==> c in pre + name + post;
    forall i | 0 <= i < |s| ensures s[i] != '\0' {}
  }

  lemma SubstPlain(s: string, root: Json)
    requires '{' !in s && '\0' !in s
    ensures Subst(s, root) == s
  {
    CStringAll(s);
    NoBraceNoChange(s, n => Lookup(root, n));
  }

  /** Two references in a text. */
  lemma SubstTwo(m: string, mid: string, n: string, tail: string, root: Json)
    requires m != "" && AllName(m) && n != "" && AllName(n) && '{' !in mid && '{' !in tail
    requires '\0' !in m && '\0' !in mid && '\0' !in n && '\0' !in tail
    ensures Subst("" + ("{" + m + "}" + (mid + ("{" + n + "}" + tail))), root)
         == "" + (Lookup(root, m) + (mid + (Lookup(root, n) + tail)))
  {
    var inner := mid + ("{" + n + "}" + tail);
    SubstPlain(tail, root);
    SubstReference(mid, n, tail, root);
    SubstReference("", m, inner, root);
  }

  /** Two references of two levels each. */
  lemma TwoOfTwo(root: Json, k: string, l: string, v: string, mid: string,
                 m: string, n: string, w: string, tail: string)
    requires Key(k) && Key(l) && Key(m) && Key(n) && '{' !in mid && '{' !in tail && '\0' !in mid && '\0' !in tail
    requires LeadsTo(root, [k, l], String(v)) && LeadsTo(root, [m, n], String(w))
    ensures Subst("" + ("{" + (k + ("." + l)) + "}" + (mid + ("{" + (m + ("." + n)) + "}" + tail))), root)
         == "" + (v + (mid + (w + tail)))
  {
    KeysTwo(k, l);
    KeysTwo(m, n);
    LookupTwo(root, k, l, v);
    LookupTwo(root, m, n, w);
    SubstTwo(k + ("." + l), mid, m + ("." + n), tail, root);
  }

  predicate Key(k: string) { AllName(k) && '.' !in k && '\0' !in k }

  lemma KeysTwo(k: string, l: string)
    requires Key(k) && Key(l)
    ensures var name := k + ("." + l); name != "" && AllName(name) && '\0' !in name
  {}

  lemma RequestFileKeys()
    ensures Key("logging") && Key("directory") && Key("service") && Key("name")
    ensures '{' !in "/requests." && '\0' !in "/requests." && '{' !in ".log" && '\0' !in ".log"
  {}

  /** The request file of the default configuration (config.js.in:55), the text
      "{logging.directory}/requests.{service.name}.log". */
  lemma RequestFile(root: Json, directory: string, name: string)
    requires LeadsTo(root, ["logging", "directory"], String(directory))
    requires LeadsTo(root, ["service", "name"], String(name))
    ensures Subst("" + ("{" + ("logging" + ("." + "directory")) + "}"
                        + ("/requests." + ("{" + ("service" + ("." + "name")) + "}" + ".log"))), root)
         == "" + (directory + ("/requests." + (name + ".log")))
  {
    RequestFileKeys();
    TwoOfTwo(root, "logging", "directory", directory, "/requests.", "service", "name", name, ".log");
  }

  lemma LookupTwo(root: Json, key: string, sub: string, s: string)
    requires '.' !in key && '.' !in sub && LeadsTo(root, [key, sub], String(s))
    ensures Lookup(root, key + ("." + sub)) == s
  {
    var keys := [key, sub];
    assert keys[1..] == [sub];
    assert Dotted(keys) == key + ("." + Dotted([sub]));
    assert NoDots(keys);
    LookupExactly(root, keys);
  }
}
