/** The scanner that replaces `{ name }` references in a configuration string
    (src/configUtils.cpp). */
module ConfigScanner {
  import opened CStrings
  import opened Sequences

  predicate Blank(c: char) { c as int <= 32 }

  predicate NameChar(c: char) { c as int > 32 && c != '}' }

  predicate AllBlank(s: string) { forall i :: 0 <= i < |s| ==> Blank(s[i]) }

  predicate AllName(s: string) { forall i :: 0 <= i < |s| ==> NameChar(s[i]) }

  // ------------------------------------------------------------------
  // The grammar
  // ------------------------------------------------------------------

  /** A string is made of characters other than '{', of references, and of
      attempts at a reference that are none. */
  datatype Token =
    | Literal(c: char)
    | Ref(before: string, name: string, after: string)
    | Malformed(before: string, name: string, after: string)

  function Text(t: Token): string {
    match t
    case Literal(c) => [c]
    case Ref(before, name, after) => "{" + before + name + after + "}"
    case Malformed(before, name, after) => "{" + before + name + after
  }

  function TextOf(ts: seq<Token>): string {
    if ts == [] then [] else Text(ts[0]) + TextOf(ts[1..])
  }

  /** `t` is a token when `rest` follows it.  An attempt extends as far as
      blanks, a name and blanks go; it is no reference if the name is missing
      or no '}' follows. */
  predicate IsToken(t: Token, rest: string) {
    match t
    case Literal(c) => c != '{'
    case Ref(before, name, after) => AllBlank(before) && name != [] && AllName(name) && AllBlank(after)
    case Malformed(before, name, after) =>
      && AllBlank(before) && AllName(name) && AllBlank(after)
      && (name == [] ==> after == [])
      && (rest != [] ==> if name == [] then rest[0] == '}' else after != [] && NameChar(rest[0]))
  }

  predicate IsTokens(ts: seq<Token>) {
    ts == [] || (IsToken(ts[0], TextOf(ts[1..])) && IsTokens(ts[1..]))
  }

  /** The grammar on the characters themselves: blanks are the characters up to the
      space, and a name has the others but '}'. */
  lemma GrammarOnCharacters(t: Token, rest: string)
    ensures IsToken(t, rest) <==>
            match t
            case Literal(c) => c != '{'
            case Ref(before, name, after) =>
              && (forall c :: c in before || c in after ==> c <= ' ')
              && name != [] && forall c :: c in name ==> c > ' ' && c != '}'
            case Malformed(before, name, after) =>
              && (forall c :: c in before || c in after ==> c <= ' ')
              && (forall c :: c in name ==> c > ' ' && c != '}')
              && (name == [] ==> after == [])
              && (rest != [] ==> if name == [] then rest[0] == '}' else after != [] && rest[0] > ' ' && rest[0] != '}')
  {
    if !t.Literal? {
      BlankCharacters(t.before);
      BlankCharacters(t.after);
      NameCharacters(t.name);
    }
  }

  lemma BlankCharacters(s: string)
    ensures AllBlank(s) <==> forall c :: c in s ==> c <= ' '
  {
    if forall c :: c in s ==> c <= ' ' {
      forall i | 0 <= i < |s| ensures Blank(s[i]) { assert s[i] in s; }
    }
  }

  lemma NameCharacters(s: string)
    ensures AllName(s) <==> forall c :: c in s ==> c > ' ' && c != '}'
  {
    if forall c :: c in s ==> c > ' ' && c != '}' {
      forall i | 0 <= i < |s| ensures NameChar(s[i]) { assert s[i] in s; }
    }
  }

  /** References become what they refer to, everything else stays. */
  function Eval(ts: seq<Token>, lookup: string -> string): string {
    if ts == [] then []
    else (if ts[0].Ref? then lookup(ts[0].name) else Text(ts[0])) + Eval(ts[1..], lookup)
  }

  // ------------------------------------------------------------------
  // Tokenisation
  // ------------------------------------------------------------------

  function SkipBlanks(s: string, i: nat): (j: nat)
    requires i <= |s|
    ensures i <= j <= |s| && AllBlank(s[i..j]) && (j < |s| ==> !Blank(s[j]))
    decreases |s| - i
  {
    if i == |s| || !Blank(s[i]) then i
    else
      var j := SkipBlanks(s, i + 1);
      assert s[i..j] == [s[i]] + s[i + 1..j];
      j
  }

  function SkipName(s: string, i: nat): (j: nat)
    requires i <= |s|
    ensures i <= j <= |s| && AllName(s[i..j]) && (j < |s| ==> !NameChar(s[j]))
    decreases |s| - i
  {
    if i == |s| || !NameChar(s[i]) then i
    else
      var j := SkipName(s, i + 1);
      assert s[i..j] == [s[i]] + s[i + 1..j];
      j
  }

  /** Where the blanks, the name and the blanks after '{' end. */
  function NameStart(s: string, i: nat): (a: nat)
    requires i < |s|
    ensures i < a <= |s|
  {
    SkipBlanks(s, i + 1)
  }

  function NameEnd(s: string, i: nat): (b: nat)
    requires i < |s|
    ensures NameStart(s, i) <= b <= |s|
  {
    SkipName(s, NameStart(s, i))
  }

  function AttemptEnd(s: string, i: nat): (c: nat)
    requires i < |s|
    ensures NameEnd(s, i) <= c <= |s|
  {
    SkipBlanks(s, NameEnd(s, i))
  }

  /** A name, and '}' after the blanks that follow it. */
  predicate Refers(s: string, i: nat)
    requires i < |s|
  {
    NameEnd(s, i) > NameStart(s, i) && AttemptEnd(s, i) < |s| && s[AttemptEnd(s, i)] == '}'
  }

  /** The token at `i`, and where it ends. */
  function TokenAt(s: string, i: nat): Token
    requires i < |s|
  {
    var a, b, c := NameStart(s, i), NameEnd(s, i), AttemptEnd(s, i);
    if s[i] != '{' then Literal(s[i])
    else if Refers(s, i) then Ref(s[i + 1..a], s[a..b], s[b..c])
    else Malformed(s[i + 1..a], s[a..b], s[b..c])
  }

  function TokenEnd(s: string, i: nat): (j: nat)
    requires i < |s|
    ensures i < j <= |s|
  {
    if s[i] != '{' then i + 1 else if Refers(s, i) then AttemptEnd(s, i) + 1 else AttemptEnd(s, i)
  }

  function Tokenize(s: string, i: nat): seq<Token>
    requires i <= |s|
    decreases |s| - i
  {
    if i == |s| then [] else [TokenAt(s, i)] + Tokenize(s, TokenEnd(s, i))
  }

  lemma Cut(s: string, i: nat, j: nat, k: nat)
    requires i <= j <= k <= |s|
    ensures s[i..k] == s[i..j] + s[j..k]
  {
  }

  lemma AttemptText(s: string, i: nat)
    requires i < |s| && s[i] == '{'
    ensures var a, b, c := NameStart(s, i), NameEnd(s, i), AttemptEnd(s, i);
            s[i..c] == "{" + s[i + 1..a] + s[a..b] + s[b..c]
  {
    var a, b, c := NameStart(s, i), NameEnd(s, i), AttemptEnd(s, i);
    assert s[i..i + 1] == "{";
    Cut(s, i, b, c);
    Cut(s, i, a, b);
    Cut(s, i, i + 1, a);
  }

  lemma TokenAtText(s: string, i: nat)
    requires i < |s|
    ensures Text(TokenAt(s, i)) == s[i..TokenEnd(s, i)]
  {
    if s[i] == '{' {
      AttemptText(s, i);
      var c := AttemptEnd(s, i);
      if Refers(s, i) {
        Cut(s, i, c, c + 1);
        assert s[c..c + 1] == "}";
      }
    }
  }

  lemma TokenAtValid(s: string, i: nat)
    requires i < |s|
    ensures IsToken(TokenAt(s, i), s[TokenEnd(s, i)..])
  {
    var a, b, c := NameStart(s, i), NameEnd(s, i), AttemptEnd(s, i);
    assert AllBlank(s[i + 1..a]) && AllName(s[a..b]) && AllBlank(s[b..c]);
    if c < |s| { assert s[c..][0] == s[c]; }
  }

  /** The tokenisation loses nothing and obeys the grammar. */
  lemma {:induction false} TokenizeLossless(s: string, i: nat)
    requires i <= |s|
    ensures TextOf(Tokenize(s, i)) == s[i..] && IsTokens(Tokenize(s, i))
    decreases |s| - i
  {
    if i < |s| {
      var j := TokenEnd(s, i);
      TokenizeLossless(s, j);
      TokenAtText(s, i);
      TokenAtValid(s, i);
      Behind(s, i, j);
      Prepend(TokenAt(s, i), Tokenize(s, j));
    }
  }

  lemma Behind(s: string, i: nat, j: nat)
    requires i <= j <= |s|
    ensures s[i..] == s[i..j] + s[j..]
  {
  }

  lemma Prepend(t: Token, ts: seq<Token>)
    requires IsToken(t, TextOf(ts)) && IsTokens(ts)
    ensures TextOf([t] + ts) == Text(t) + TextOf(ts) && IsTokens([t] + ts)
  {
    assert ([t] + ts)[1..] == ts;
  }

  lemma {:induction false} SkipBlanksTo(s: string, i: nat, j: nat)
    requires i <= j <= |s| && (forall k :: i <= k < j ==> Blank(s[k])) && (j < |s| ==> !Blank(s[j]))
    ensures SkipBlanks(s, i) == j
    decreases |s| - i
  {
    if i < j { SkipBlanksTo(s, i + 1, j); }
  }

  lemma {:induction false} SkipNameTo(s: string, i: nat, j: nat)
    requires i <= j <= |s| && (forall k :: i <= k < j ==> NameChar(s[k])) && (j < |s| ==> !NameChar(s[j]))
    ensures SkipName(s, i) == j
    decreases |s| - i
  {
    if i < j { SkipNameTo(s, i + 1, j); }
  }

  /** The parts of an attempt are where the text says: the grammar leaves no choice. */
  lemma AttemptUnique(s: string, i: nat, a: nat, b: nat, c: nat)
    requires i < a <= b <= c <= |s|
    requires AllBlank(s[i + 1..a]) && AllName(s[a..b]) && AllBlank(s[b..c])
    requires b == a ==> c == b
    requires c < |s| ==> if b == a then s[c] == '}' else (s[c] == '}' || (c > b && NameChar(s[c])))
    ensures NameStart(s, i) == a && NameEnd(s, i) == b && AttemptEnd(s, i) == c
  {
    assert forall k :: i + 1 <= k < a ==> Blank(s[k]) by {
      assert forall k :: i + 1 <= k < a ==> s[k] == s[i + 1..a][k - i - 1];
    }
    assert forall k :: a <= k < b ==> NameChar(s[k]) by { assert forall k :: a <= k < b ==> s[k] == s[a..b][k - a]; }
    assert forall k :: b <= k < c ==> Blank(s[k]) by { assert forall k :: b <= k < c ==> s[k] == s[b..c][k - b]; }
    SkipBlanksTo(s, i + 1, a);
    SkipNameTo(s, a, b);
    SkipBlanksTo(s, b, c);
  }

  lemma PartsOf(s: string, i: nat, x: string, before: string, name: string, after: string, y: string)
    requires i <= |s| && |x| == 1 && s[i..] == x + before + name + after + y
    ensures var a := i + 1 + |before|; var b := a + |name|; var c := b + |after|;
            && i < a <= b <= c <= |s|
            && s[i] == x[0] && s[i + 1..a] == before && s[a..b] == name && s[b..c] == after && s[c..] == y
  {
    var a := i + 1 + |before|;
    var b := a + |name|;
    var c := b + |after|;
    var t := x + before + name + after + y;
    assert |t| == |s| - i;
    assert forall k :: i <= k < |s| ==> s[k] == s[i..][k - i] == t[k - i];
    assert t[1..1 + |before|] == before;
    assert t[a - i..b - i] == name;
    assert t[b - i..c - i] == after;
    assert t[c - i..] == y;
    assert s[i + 1..a] == t[1..a - i];
    assert s[a..b] == t[a - i..b - i];
    assert s[b..c] == t[b - i..c - i];
    assert s[c..] == t[c - i..];
  }

  lemma RefUnique(s: string, i: nat, before: string, name: string, after: string, rest: string)
    requires i <= |s| && s[i..] == "{" + before + name + after + ("}" + rest)
    requires AllBlank(before) && name != [] && AllName(name) && AllBlank(after)
    ensures i < |s| && TokenAt(s, i) == Ref(before, name, after)
    ensures TokenEnd(s, i) == i + 1 + |before| + |name| + |after| + 1
  {
    PartsOf(s, i, "{", before, name, after, "}" + rest);
    var a := i + 1 + |before|;
    var c := a + |name| + |after|;
    assert s[c] == s[c..][0] == '}';
    AttemptUnique(s, i, a, a + |name|, c);
  }

  lemma MalformedUnique(s: string, i: nat, before: string, name: string, after: string, rest: string)
    requires i <= |s| && s[i..] == "{" + before + name + after + rest
    requires IsToken(Malformed(before, name, after), rest)
    ensures i < |s| && TokenAt(s, i) == Malformed(before, name, after)
    ensures TokenEnd(s, i) == i + 1 + |before| + |name| + |after|
  {
    PartsOf(s, i, "{", before, name, after, rest);
    var a := i + 1 + |before|;
    var c := a + |name| + |after|;
    if c < |s| { assert s[c] == s[c..][0] == rest[0]; }
    AttemptUnique(s, i, a, a + |name|, c);
  }

  lemma TokenUnique(s: string, i: nat, t: Token, rest: string)
    requires i < |s| && s[i..] == Text(t) + rest && IsToken(t, rest)
    ensures t == TokenAt(s, i) && i + |Text(t)| == TokenEnd(s, i)
  {
    match t
    case Literal(c) => assert s[i] == s[i..][0] == c;
    case Ref(before, name, after) =>
      assert "{" + before + name + after + "}" + rest == "{" + before + name + after + ("}" + rest);
      RefUnique(s, i, before, name, after, rest);
    case Malformed(before, name, after) => MalformedUnique(s, i, before, name, after, rest);
  }

  lemma Remainder(s: string, i: nat, j: nat, front: string, rest: string)
    requires i <= j <= |s| && s[i..] == front + rest && j == i + |front|
    ensures s[j..] == rest
  {
    assert s[j..] == s[i..][j - i..];
  }

  /** It is the only one that does. */
  lemma {:induction false} TokenizeUnique(s: string, i: nat, ts: seq<Token>)
    requires i <= |s| && TextOf(ts) == s[i..] && IsTokens(ts)
    ensures ts == Tokenize(s, i)
    decreases |ts|
  {
    if ts == [] {
    } else {
      var t, rest := ts[0], TextOf(ts[1..]);
      assert Text(t) != [];
      TokenUnique(s, i, t, rest);
      var j := TokenEnd(s, i);
      Remainder(s, i, j, Text(t), rest);
      TokenizeUnique(s, j, ts[1..]);
      assert ts == [t] + ts[1..];
    }
  }

  // ------------------------------------------------------------------
  // The scanner
  // ------------------------------------------------------------------

  /** The last token is an attempt that runs into the end of the string. */
  predicate EndsInAttempt(s: string, i: nat)
    requires i <= |s|
    decreases |s| - i
  {
    if i == |s| then false
    else if s[i] == '{' && AttemptEnd(s, i) == |s| then true
    else EndsInAttempt(s, TokenEnd(s, i))
  }

  /** What the scanner leaves: a text, or a read past the end of the buffer. */
  datatype Scan = OutOfBounds | Scanned(text: string)

  /** Position of the next '{' from `i` before any NUL, or of the NUL, or the end. */
  method StrChr(s: string, i: nat) returns (j: nat)
    requires i <= |s|
    ensures i <= j <= |s| && Skipped(s[i..j]) && (j < |s| ==> s[j] == '{' || s[j] == '\0')
  {
    j := i;
    while j < |s| && s[j] != '{' && s[j] != '\0'
      invariant i <= j <= |s| && Skipped(s[i..j])
    {
      assert s[i..j + 1] == s[i..j] + [s[j]];
      j := j + 1;
    }
  }

  predicate Skipped(s: string) { '{' !in s && '\0' !in s }

  /** The replacement text from `i` on, attempt by attempt. */
  function Outcome(s: string, i: nat, lookup: string -> string): string
    requires i <= |s|
    decreases |s| - i
  {
    if i == |s| then ""
    else if s[i] != '{' then [s[i]] + Outcome(s, i + 1, lookup)
    else AttemptOutcome(s, i, lookup) + Outcome(s, TokenEnd(s, i), lookup)
  }

  function AttemptOutcome(s: string, i: nat, lookup: string -> string): string
    requires i < |s|
  {
    if Refers(s, i) then lookup(s[NameStart(s, i)..NameEnd(s, i)]) else s[i..AttemptEnd(s, i)]
  }

  /** It is the grammar's. */
  lemma {:induction false} OutcomeIsEval(s: string, i: nat, lookup: string -> string)
    requires i <= |s|
    ensures Outcome(s, i, lookup) == Eval(Tokenize(s, i), lookup)
    decreases |s| - i
  {
    if i < |s| {
      OutcomeIsEval(s, TokenEnd(s, i), lookup);
      TokenAtText(s, i);
      assert Tokenize(s, i)[1..] == Tokenize(s, TokenEnd(s, i));
    }
  }

  lemma {:induction false} PlainText(s: string, i: nat, j: nat, lookup: string -> string)
    requires i <= j <= |s| && '{' !in s[i..j]
    ensures Outcome(s, i, lookup) == s[i..j] + Outcome(s, j, lookup)
    decreases |s| - i
  {
    if i < j {
      assert s[i] == s[i..j][0] != '{';
      assert s[i + 1..j] == s[i..j][1..];
      PlainText(s, i + 1, j, lookup);
      assert s[i..j] == [s[i]] + s[i + 1..j];
      Assoc([s[i]], s[i + 1..j], Outcome(s, j, lookup));
    }
  }

  function Prefixed(front: string, r: Scan): Scan {
    match r
    case OutOfBounds => OutOfBounds
    case Scanned(text) => Scanned(front + text)
  }

  /** The scan over the whole buffer `b` as it is written: it ends at a NUL it finds
      while looking for a brace, but takes a NUL for a blank inside an attempt, the
      terminating one included unless `stopAtEnd`. */
  function Written(b: string, i: nat, lookup: string -> string, stopAtEnd: bool): Scan
    requires i <= |b|
    decreases |b| - i
  {
    if i == |b| || b[i] == '\0' then Scanned("")
    else if b[i] != '{' then Prefixed([b[i]], Written(b, i + 1, lookup, stopAtEnd))
    else if AttemptEnd(b, i) == |b| && !stopAtEnd then OutOfBounds
    else Prefixed(AttemptOutcome(b, i, lookup), Written(b, TokenEnd(b, i), lookup, stopAtEnd))
  }

  lemma PrefixedTwice(a: string, b: string, r: Scan)
    ensures Prefixed(a, Prefixed(b, r)) == Prefixed(a + b, r)
  {
    if r.Scanned? { Assoc(a, b, r.text); }
  }

  lemma {:induction false} WrittenPlain(b: string, i: nat, j: nat, lookup: string -> string, stopAtEnd: bool)
    requires i <= j <= |b| && Skipped(b[i..j])
    ensures Written(b, i, lookup, stopAtEnd) == Prefixed(b[i..j], Written(b, j, lookup, stopAtEnd))
    decreases |b| - i
  {
    if i < j {
      assert b[i] == b[i..j][0] && b[i] in b[i..j];
      assert b[i + 1..j] == b[i..j][1..];
      WrittenPlain(b, i + 1, j, lookup, stopAtEnd);
      assert b[i..j] == [b[i]] + b[i + 1..j];
      PrefixedTwice([b[i]], b[i + 1..j], Written(b, j, lookup, stopAtEnd));
    } else {
      assert b[i..j] == "";
    }
  }

  /** A scan that stops at the end of a text without a NUL is the grammar's. */
  lemma {:induction false} WrittenIsOutcome(s: string, i: nat, lookup: string -> string)
    requires i <= |s| && '\0' !in s
    ensures Written(s, i, lookup, true) == Scanned(Outcome(s, i, lookup))
    decreases |s| - i
  {
    if i < |s| { WrittenIsOutcome(s, TokenEnd(s, i), lookup); }
  }

  method ScanBlanks(s: string, start: nat) returns (si: nat)
    requires start <= |s|
    ensures si == SkipBlanks(s, start)
  {
    si := start;
    while si < |s| && s[si] as int <= 32
      invariant start <= si <= |s| && SkipBlanks(s, si) == SkipBlanks(s, start)
    {
      si := si + 1;
    }
  }

  method ScanName(s: string, start: nat) returns (variableref: string, si: nat)
    requires start <= |s|
    ensures si == SkipName(s, start) && variableref == s[start..si]
  {
    variableref, si := "", start;
    while si < |s| && s[si] as int > 32 && s[si] != '}'
      invariant start <= si <= |s| && SkipName(s, si) == SkipName(s, start) && variableref == s[start..si]
    {
      variableref := variableref + [s[si]];
      assert s[start..si + 1] == s[start..si] + [s[si]];
      si := si + 1;
    }
  }

  /** The loops after a '{' at `start`: blanks, a name, blanks.  As the program
      is written the loops that skip blanks do not stop at the terminating NUL,
      which is one; with `stopAtEnd` they do. */
  method ScanAttempt(s: string, start: nat, stopAtEnd: bool) returns (inside: bool, variableref: string, si: nat)
    requires start < |s|
    ensures inside <==> stopAtEnd || AttemptEnd(s, start) < |s|
    ensures inside ==> si == AttemptEnd(s, start) && variableref == s[NameStart(s, start)..NameEnd(s, start)]
  {
    inside, variableref := true, "";
    si := ScanBlanks(s, start + 1);
    if si == |s| && !stopAtEnd { return false, variableref, si; }
    variableref, si := ScanName(s, si);
    si := ScanBlanks(s, si);
    if si == |s| && !stopAtEnd { return false, variableref, si; }
  }

  /** What takes the place of the attempt at `start`. */
  method ReplaceAttempt(s: string, start: nat, lookup: string -> string, stopAtEnd: bool)
    returns (inside: bool, piece: string, end: nat)
    requires start < |s| && s[start] == '{'
    ensures inside <==> stopAtEnd || AttemptEnd(s, start) < |s|
    ensures inside ==> piece == AttemptOutcome(s, start, lookup) && end == TokenEnd(s, start)
  {
    var variableref;
    inside, variableref, end := ScanAttempt(s, start, stopAtEnd);
    piece := "";
    if inside {
      if end < |s| && s[end] == '}' && variableref != "" {
        piece := lookup(variableref);
        end := end + 1;
      } else {
        piece := s[start..end];
      }
    }
  }

  /** One turn of the loop: the text up to the brace at `si`, and the attempt. */
  method Turn(s: string, prev: nat, si: nat, res: string, lookup: string -> string, stopAtEnd: bool)
    returns (inside: bool, r: string, end: nat)
    requires prev <= si < |s| && Skipped(s[prev..si]) && s[si] == '{'
    ensures !inside ==> Prefixed(res, Written(s, prev, lookup, stopAtEnd)) == OutOfBounds
    ensures inside ==> si < end <= |s|
    ensures inside ==>
              Prefixed(res, Written(s, prev, lookup, stopAtEnd)) == Prefixed(r, Written(s, end, lookup, stopAtEnd))
  {
    WrittenPlain(s, prev, si, lookup, stopAtEnd);
    PrefixedTwice(res, s[prev..si], Written(s, si, lookup, stopAtEnd));
    var piece;
    inside, piece, end := ReplaceAttempt(s, si, lookup, stopAtEnd);
    r := res + s[prev..si] + piece;
    if inside { PrefixedTwice(res + s[prev..si], piece, Written(s, end, lookup, stopAtEnd)); }
  }

  /** The loop over the attempts in the buffer. */
  method ScanBuffer(b: string, lookup: string -> string, stopAtEnd: bool) returns (r: Scan)
    ensures r == Written(b, 0, lookup, stopAtEnd)
  {
    ghost var whole := Written(b, 0, lookup, stopAtEnd);
    var res, prev := "", 0;
    var si := StrChr(b, 0);
    while si < |b| && b[si] == '{'
      invariant 0 <= prev <= si <= |b| && Skipped(b[prev..si]) && (si < |b| ==> b[si] == '{' || b[si] == '\0')
      invariant Prefixed(res, Written(b, prev, lookup, stopAtEnd)) == whole
      decreases |b| - si
    {
      var inside;
      inside, res, prev := Turn(b, prev, si, res, lookup, stopAtEnd);
      if !inside { return OutOfBounds; }
      si := StrChr(b, prev);
    }
    WrittenPlain(b, prev, si, lookup, stopAtEnd);
    PrefixedTwice(res, b[prev..si], Scanned(""));
    r := Scanned(res + b[prev..si]);
    assert res + b[prev..si] + "" == res + b[prev..si];
  }

  /** substConfigReferenceVariables on a string. As meant the result is the grammar's
      for what the C functions see of the string; as written it is that of the scan
      over its buffer. */
  method Substitute(str: string, lookup: string -> string, stopAtEnd: bool) returns (r: Scan)
    ensures r == if stopAtEnd then Scanned(Eval(Tokenize(CString(str), 0), lookup)) else Written(str, 0, lookup, false)
  {
    if stopAtEnd {
      WrittenIsOutcome(CString(str), 0, lookup);
      OutcomeIsEval(CString(str), 0, lookup);
      r := ScanBuffer(CString(str), lookup, true);
    } else {
      r := ScanBuffer(str, lookup, false);
    }
  }

  /** Without a brace nothing changes. */
  lemma NoBraceNoChange(s: string, lookup: string -> string)
    requires '{' !in s
    ensures Eval(Tokenize(s, 0), lookup) == s
  {
    assert s[0..|s|] == s;
    PlainText(s, 0, |s|, lookup);
    OutcomeIsEval(s, 0, lookup);
  }
}
