/** Where the scanner for references departs from what it is for (src/configUtils.cpp). */
module ConfigDepartures {
  import opened ConfigScanner
  import opened CStrings
  import opened Sequences

  // ------------------------------------------------------------------
  // Past the terminating NUL
  // ------------------------------------------------------------------

  /** The first NUL cuts the buffer. */
  ghost predicate Cuts(b: string, c: string) {
    c <= b && '\0' !in c && (|c| < |b| ==> b[|c|] == '\0')
  }

  lemma {:induction false} BlanksWithin(b: string, c: string, i: nat)
    requires Cuts(b, c) && i <= |c|
    ensures if SkipBlanks(c, i) < |c| then SkipBlanks(b, i) == SkipBlanks(c, i)
            else SkipBlanks(b, i) == |b| == |c| || SkipBlanks(b, i) > |c|
    decreases |c| - i
  {
    if i < |c| {
      assert b[i] == c[i];
      if Blank(c[i]) { BlanksWithin(b, c, i + 1); }
    }
  }

  lemma {:induction false} NameWithin(b: string, c: string, i: nat)
    requires Cuts(b, c) && i <= |c|
    ensures SkipName(b, i) == SkipName(c, i)
    decreases |c| - i
  {
    if i < |c| {
      assert b[i] == c[i];
      if NameChar(c[i]) { NameWithin(b, c, i + 1); }
    }
  }

  /** An attempt that ends before the cut ends there in the buffer too; any other goes
      on past the NUL, or to the end of the buffer if there is none. */
  lemma AttemptWithin(b: string, c: string, i: nat)
    requires Cuts(b, c) && i < |c|
    ensures AttemptEnd(c, i) < |c| ==>
              AttemptEnd(b, i) == AttemptEnd(c, i)
              && NameStart(b, i) == NameStart(c, i) && NameEnd(b, i) == NameEnd(c, i)
    ensures AttemptEnd(c, i) == |c| ==> AttemptEnd(b, i) == |b| == |c| || AttemptEnd(b, i) > |c|
  {
    BlanksWithin(b, c, i + 1);
    if NameStart(c, i) < |c| {
      NameWithin(b, c, NameStart(c, i));
      BlanksWithin(b, c, NameEnd(c, i));
    }
  }

  lemma OutcomeWithin(b: string, c: string, i: nat, lookup: string -> string)
    requires Cuts(b, c) && i < |c| && c[i] == '{' && AttemptEnd(c, i) < |c|
    ensures AttemptEnd(b, i) < |b| && TokenEnd(b, i) == TokenEnd(c, i)
    ensures AttemptOutcome(b, i, lookup) == AttemptOutcome(c, i, lookup)
  {
    AttemptWithin(b, c, i);
    var x, y, z := NameStart(c, i), NameEnd(c, i), AttemptEnd(c, i);
    assert b[x..y] == c[x..y] && b[i..z] == c[i..z] && b[z] == c[z];
  }

  /** While no attempt runs into the end, the scan as written stays inside and does
      what it is for. */
  lemma {:induction false} WrittenWithin(b: string, c: string, i: nat, lookup: string -> string)
    requires Cuts(b, c) && i <= |c| && !EndsInAttempt(c, i)
    ensures Written(b, i, lookup, false) == Scanned(Outcome(c, i, lookup))
    decreases |c| - i
  {
    if i < |c| {
      assert b[i] == c[i] && c[i] in c;
      if c[i] == '{' { OutcomeWithin(b, c, i, lookup); }
      WrittenWithin(b, c, TokenEnd(c, i), lookup);
    }
  }

  /** Otherwise it leaves the buffer, or finds more than there is. */
  lemma {:induction false} WrittenPast(b: string, c: string, i: nat, lookup: string -> string)
    requires Cuts(b, c) && i <= |c| && EndsInAttempt(c, i)
    requires forall n :: |lookup(n)| > |b|
    ensures var r := Written(b, i, lookup, false); r.OutOfBounds? || |r.text| > |Outcome(c, i, lookup)|
    decreases |c| - i
  {
    assert b[i] == c[i] && c[i] in c;
    if c[i] != '{' {
      WrittenPast(b, c, i + 1, lookup);
    } else if AttemptEnd(c, i) < |c| {
      OutcomeWithin(b, c, i, lookup);
      WrittenPast(b, c, TokenEnd(c, i), lookup);
    } else {
      LastAttempt(b, c, i, lookup);
    }
  }

  lemma LastAttempt(b: string, c: string, i: nat, lookup: string -> string)
    requires Cuts(b, c) && i < |c| && c[i] == b[i] == '{' && AttemptEnd(c, i) == |c|
    requires forall n :: |lookup(n)| > |b|
    ensures var r := Written(b, i, lookup, false); r.OutOfBounds? || |r.text| > |Outcome(c, i, lookup)|
  {
    AttemptWithin(b, c, i);
    assert |Outcome(c, i, lookup)| == |c| - i by { assert Outcome(c, |c|, lookup) == ""; }
    if AttemptEnd(b, i) < |b| {
      assert |AttemptOutcome(b, i, lookup)| > |c| - i;
    }
  }

  /** Without a NUL inside, a string that ends in an open attempt always makes it leave
      the buffer. */
  lemma {:induction false} WrittenLeaves(b: string, i: nat, lookup: string -> string)
    requires '\0' !in b && i <= |b| && EndsInAttempt(b, i)
    ensures Written(b, i, lookup, false) == OutOfBounds
    decreases |b| - i
  {
    assert b[i] in b;
    if !(b[i] == '{' && AttemptEnd(b, i) == |b|) { WrittenLeaves(b, TokenEnd(b, i), lookup); }
  }

  predicate Right(str: string, lookup: string -> string) {
    Written(str, 0, lookup, false) == Scanned(Eval(Tokenize(CString(str), 0), lookup))
  }

  lemma RightWithin(str: string, lookup: string -> string)
    requires !EndsInAttempt(CString(str), 0)
    ensures Right(str, lookup)
  {
    var c := CString(str);
    WrittenWithin(str, c, 0, lookup);
    OutcomeIsEval(c, 0, lookup);
  }

  lemma WrongPast(str: string, lookup: string -> string)
    requires EndsInAttempt(CString(str), 0) && forall n :: |lookup(n)| > |str|
    ensures !Right(str, lookup)
  {
    var c := CString(str);
    WrittenPast(str, c, 0, lookup);
    OutcomeIsEval(c, 0, lookup);
  }

  lemma SomeWrong(str: string) returns (lookup: string -> string)
    requires EndsInAttempt(CString(str), 0)
    ensures !Right(str, lookup)
  {
    var long := str + "x";
    lookup := (n: string) => long;
    WrongPast(str, lookup);
  }

  ghost predicate AlwaysRight(str: string) {
    forall lookup: string -> string :: Right(str, lookup)
  }

  lemma AlwaysWithin(str: string)
    requires !EndsInAttempt(CString(str), 0)
    ensures AlwaysRight(str)
  {
    forall lookup: string -> string ensures Right(str, lookup) { RightWithin(str, lookup); }
  }

  /** The scanner as written does what it is for, whatever the references yield, if and
      only if no attempt at a reference is still open where the C string ends. */
  lemma WrittenExactly(str: string)
    ensures AlwaysRight(str) <==> !EndsInAttempt(CString(str), 0)
  {
    if EndsInAttempt(CString(str), 0) {
      var lookup := SomeWrong(str);
    } else {
      AlwaysWithin(str);
    }
  }

  /** Two such strings: the second hides a reference behind its NUL. */
  lemma PastTheEnd(lookup: string -> string)
    ensures EndsInAttempt(CString("{a"), 0) && Written("{a", 0, lookup, false) == OutOfBounds
    ensures EndsInAttempt(CString("{\0a}"), 0) && Written("{\0a}", 0, lookup, false) == Scanned(lookup("a") + "")
    ensures Eval(Tokenize(CString("{\0a}"), 0), lookup) == "{"
  {
    OpenAttempt("{a");
    WrittenLeaves("{a", 0, lookup);
    BehindNul(lookup);
  }

  lemma OpenAttempt(s: string)
    requires s == "{a"
    ensures CString(s) == s && EndsInAttempt(s, 0)
  {
    assert s[1..] == "a" && s[1..][1..] == "";
    assert SkipName(s, 2) == 2 && SkipName(s, 1) == 2;
  }

  lemma BehindNul(lookup: string -> string)
    ensures EndsInAttempt(CString("{\0a}"), 0) && Written("{\0a}", 0, lookup, false) == Scanned(lookup("a") + "")
    ensures Eval(Tokenize(CString("{\0a}"), 0), lookup) == "{"
  {
    var s := "{\0a}";
    assert s[1..][0] == '\0';
    assert CString(s[1..]) == [];
    assert CString(s) == "{";
    assert SkipBlanks("{", 1) == 1 && SkipName("{", 1) == 1;
    OutcomeIsEval("{", 0, lookup);
    assert Outcome("{", 0, lookup) == "{"[0..1] + "";
    assert SkipBlanks(s, 2) == 2 && SkipBlanks(s, 1) == 2;
    assert SkipName(s, 3) == 3 && SkipName(s, 2) == 3;
    assert SkipBlanks(s, 3) == 3;
    assert s[2..3] == "a";
    assert Written(s, 4, lookup, false) == Scanned("");
  }

  // ------------------------------------------------------------------
  // References hidden in malformed ones
  // ------------------------------------------------------------------

  /** The tokenisation of `s` from `at` has a token that starts at `i`. */
  predicate Starts(s: string, at: nat, i: nat)
    requires at <= |s|
    decreases |s| - at
  {
    at == i || (at < i && at < |s| && Starts(s, TokenEnd(s, at), i))
  }

  /** What `Starts` means for the tokens. */
  lemma {:induction false} StartsSplits(s: string, at: nat, i: nat) returns (ts: seq<Token>)
    requires at <= i <= |s| && Starts(s, at, i)
    ensures Tokenize(s, at) == ts + Tokenize(s, i) && TextOf(ts) == s[at..i]
    decreases |s| - at
  {
    if at == i {
      ts := [];
    } else {
      var j, t := TokenEnd(s, at), TokenAt(s, at);
      StartsAfter(s, j, i);
      var rest := StartsSplits(s, j, i);
      ts := [t] + rest;
      TokenAtText(s, at);
      TextOfFirst(t, rest);
      Cut(s, at, j, i);
      Assoc([t], rest, Tokenize(s, i));
    }
  }

  lemma TextOfFirst(t: Token, ts: seq<Token>)
    ensures TextOf([t] + ts) == Text(t) + TextOf(ts)
  {
    assert ([t] + ts)[1..] == ts;
  }

  lemma {:induction false} StartsAfter(s: string, at: nat, i: nat)
    requires at <= |s| && Starts(s, at, i)
    ensures at <= i
  {}

  /** Inside a token no other starts. */
  lemma {:induction false} InsideNoStart(s: string, at: nat, j: nat, i: nat)
    requires at <= j < |s| && Starts(s, at, j) && j < i < TokenEnd(s, j)
    ensures !Starts(s, at, i)
    decreases |s| - at
  {
    if at == j {
      if Starts(s, TokenEnd(s, j), i) { StartsAfter(s, TokenEnd(s, j), i); }
    } else {
      StartsAfter(s, TokenEnd(s, at), j);
      InsideNoStart(s, TokenEnd(s, at), j, i);
    }
  }

  /** The token at `j` has the brace at `i` in its name. */
  predicate Swallows(s: string, j: nat, i: nat) {
    j < i < |s| && s[j] == '{' && NameStart(s, j) <= i < NameEnd(s, j)
  }

  lemma BraceInToken(s: string, at: nat, i: nat)
    requires at < i < |s| && s[i] == '{' && i < TokenEnd(s, at)
    ensures Swallows(s, at, i)
  {
    BlankIn(s, at + 1, NameStart(s, at), i);
    BlankIn(s, NameEnd(s, at), AttemptEnd(s, at), i);
  }

  lemma BlankIn(s: string, lo: nat, hi: nat, i: nat)
    requires lo <= hi <= |s| && AllBlank(s[lo..hi])
    ensures lo <= i < hi ==> Blank(s[i])
  {
    if lo <= i < hi { assert s[lo..hi][i - lo] == s[i]; }
  }

  lemma {:induction false} SwallowedBy(s: string, at: nat, i: nat) returns (j: nat)
    requires at <= i < |s| && s[i] == '{' && !Starts(s, at, i)
    ensures at <= j < i && Starts(s, at, j) && Swallows(s, j, i)
    decreases |s| - at
  {
    if TokenEnd(s, at) <= i {
      j := SwallowedBy(s, TokenEnd(s, at), i);
      StartsAfter(s, TokenEnd(s, at), j);
    } else {
      j := at;
      BraceInToken(s, at, i);
    }
  }

  /** A brace, with or without a well-formed reference at it, is not taken for the start
      of a reference if and only if an attempt that started before has it in its name. */
  lemma HiddenExactly(s: string, at: nat, i: nat)
    requires at <= i < |s| && s[i] == '{'
    ensures !Starts(s, at, i) <==> exists j :: at <= j < i && Starts(s, at, j) && Swallows(s, j, i)
  {
    if !Starts(s, at, i) {
      var j := SwallowedBy(s, at, i);
    }
    if j :| at <= j < i && Starts(s, at, j) && Swallows(s, j, i) {
      InsideNoStart(s, at, j, i);
    }
  }

  /** A string where that happens: the name `a{` has swallowed the brace of `{ b}`. */
  lemma HiddenReference(lookup: string -> string)
    ensures Eval(Tokenize("{a{ b}", 0), lookup) == "{a{ b}"
    ensures Eval(Tokenize("{ b}", 0), lookup) == lookup("b")
    ensures !Starts("{a{ b}", 0, 2) && Refers("{a{ b}", 2)
  {
    HiddenVerbatim("{a{ b}", lookup);
    OpenReference(lookup);
    HiddenStart("{a{ b}");
  }

  lemma HiddenVerbatim(s: string, lookup: string -> string)
    requires s == "{a{ b}"
    ensures Eval(Tokenize(s, 0), lookup) == s
  {
    var hidden := [Malformed("", "a{", " "), Literal('b'), Literal('}')];
    HiddenTokens(hidden);
    TokenizeUnique(s, 0, hidden);
    EvalVerbatim(hidden, lookup);
  }

  lemma HiddenStart(s: string)
    requires s == "{a{ b}"
    ensures !Starts(s, 0, 2) && Refers(s, 2)
  {
    assert SkipName(s, 3) == 3 && SkipName(s, 2) == 3 && SkipName(s, 1) == 3;
    assert SkipBlanks(s, 4) == 4 && SkipBlanks(s, 3) == 4;
    assert SkipName(s, 5) == 5 && SkipName(s, 4) == 5;
    assert SkipBlanks(s, 5) == 5;
    assert Swallows(s, 0, 2);
    InsideNoStart(s, 0, 0, 2);
  }

  lemma OpenReference(lookup: string -> string)
    ensures Eval(Tokenize("{ b}", 0), lookup) == lookup("b")
  {
    var ref, s := Ref(" ", "b", ""), "{ b}";
    assert [ref][1..] == [] && s[0..] == s;
    assert Text(ref) == s;
    Prepend(ref, []);
    assert [ref] + [] == [ref] && s + [] == s;
    TokenizeUnique(s, 0, [ref]);
    assert Eval([ref], lookup) == lookup("b") + Eval([], lookup);
  }

  lemma HiddenTokens(ts: seq<Token>)
    requires ts == [Malformed("", "a{", " "), Literal('b'), Literal('}')]
    ensures TextOf(ts) == "{a{ b}" == "{a{ b}"[0..] && IsTokens(ts)
  {
    var t1, t2 := [Literal('b'), Literal('}')], [Literal('}')];
    assert ts[1..] == t1 && t1[1..] == t2 && t2[1..] == [];
    assert TextOf(t2) == "}";
    assert TextOf(t1) == "b}";
  }

  /** Tokens that are no references are copied. */
  lemma {:induction false} EvalVerbatim(ts: seq<Token>, lookup: string -> string)
    requires forall i :: 0 <= i < |ts| ==> !ts[i].Ref?
    ensures Eval(ts, lookup) == TextOf(ts)
  {
    if ts != [] { EvalVerbatim(ts[1..], lookup); }
  }
}
