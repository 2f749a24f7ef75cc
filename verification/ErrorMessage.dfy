/** The layout of error messages at start-up (src/strusWebService.cpp). */
module ErrorMessage {
  import opened CStrings
  import opened Sequences

  // ------------------------------------------------------------------
  // The pieces of a message
  // ------------------------------------------------------------------

  predicate Quote(c: char) { c == '"' || c == '\'' }

  predicate Opens(c: char) { c == '[' || c == '{' }

  /** The closing quote of a quoted text, or the end; backslashes escape. */
  function QuoteEnd(s: string, i: nat, eb: char): (r: nat)
    requires i <= |s|
    ensures i <= r <= |s| && (r < |s| ==> s[r] == eb)
    decreases |s| - i
  {
    if i == |s| || s[i] == eb then i
    else if s[i] == '\\' && i + 1 < |s| then QuoteEnd(s, i + 2, eb)
    else QuoteEnd(s, i + 1, eb)
  }

  /** The next closing bracket, or the end. */
  function BracketEnd(s: string, i: nat): (r: nat)
    requires i <= |s|
    ensures i <= r <= |s| && (r < |s| ==> s[r] == ')')
    ensures forall k :: i <= k < r ==> s[k] != ')'
    decreases |s| - i
  {
    if i == |s| || s[i] == ')' then i else BracketEnd(s, i + 1)
  }

  function SpacesEnd(s: string, i: nat): (r: nat)
    requires i <= |s|
    ensures i <= r <= |s| && (r < |s| ==> s[r] != ' ')
    ensures forall k :: i <= k < r ==> s[k] == ' '
    decreases |s| - i
  {
    if i < |s| && s[i] == ' ' then SpacesEnd(s, i + 1) else i
  }

  /** One round reads the input from `start` to before `next` and writes `text`. */
  datatype Piece = Piece(start: nat, next: nat, text: string)

  function Quoted(s: string, i: nat): Piece
    requires i < |s|
  {
    var q := QuoteEnd(s, i + 1, s[i]);
    var next := if q < |s| then q + 1 else q;
    Piece(i, next, s[i..next])
  }

  function Colon(s: string, i: nat): Piece
    requires i < |s|
  {
    var next := SpacesEnd(s, i + 1);
    Piece(i, next, if next == i + 1 then [s[i]] else [s[i], '\n', ' '])
  }

  function Bracket(s: string, i: nat): Piece
    requires i < |s|
  {
    var q := BracketEnd(s, i + 1);
    if q == |s| then Piece(i, i + 1, [s[i]])
    else Piece(i, q + 1, (if exists k :: i < k < q && Opens(s[k]) then "\n\n" else "") + s[i..q + 1])
  }

  function PieceAt(s: string, i: nat): (p: Piece)
    requires i < |s|
    ensures p.start == i < p.next <= |s|
  {
    if Quote(s[i]) then Quoted(s, i)
    else if s[i] == ':' then Colon(s, i)
    else if s[i] == '(' then Bracket(s, i)
    else Piece(i, i + 1, [s[i]])
  }

  function Pieces(s: string, i: nat): seq<Piece>
    requires i <= |s|
    decreases |s| - i
  {
    if i == |s| then [] else [PieceAt(s, i)] + Pieces(s, PieceAt(s, i).next)
  }

  function Joined(ps: seq<Piece>): string {
    if ps == [] then "" else ps[0].text + Joined(ps[1..])
  }

  function Beautify(s: string): string { Joined(Pieces(s, 0)) }

  // ------------------------------------------------------------------
  // The loop
  // ------------------------------------------------------------------

  method ScanQuoted(s: string, start: nat) returns (si: nat)
    requires start < |s|
    ensures si == Quoted(s, start).next
  {
    var eb := s[start];
    si := start + 1;
    while si < |s| && s[si] != eb
      invariant start < si <= |s| && QuoteEnd(s, si, eb) == QuoteEnd(s, start + 1, eb)
    {
      if s[si] == '\\' && si + 1 < |s| { si := si + 1; }
      si := si + 1;
    }
    if si < |s| { si := si + 1; }
  }

  method ScanBracket(s: string, start: nat) returns (si: nat, cnt: nat)
    requires start < |s|
    ensures si == BracketEnd(s, start + 1)
    ensures cnt > 0 <==> exists k :: start < k < si && Opens(s[k])
  {
    cnt := 0;
    si := start + 1;
    while si < |s| && s[si] != ')'
      invariant start < si <= |s| && BracketEnd(s, si) == BracketEnd(s, start + 1)
      invariant cnt > 0 <==> exists k :: start < k < si && Opens(s[k])
    {
      if s[si] == '[' || s[si] == '{' { cnt := cnt + 1; }
      si := si + 1;
    }
  }

  lemma {:induction false} JoinedMore(rt: string, p: Piece, ps: seq<Piece>)
    ensures rt + Joined([p] + ps) == (rt + p.text) + Joined(ps)
  {
    assert ([p] + ps)[1..] == ps;
  }

  /** One round of the loop: what the switch reads and writes. */
  method Round(s: string, start: nat) returns (si: nat, text: string)
    requires start < |s|
    ensures Piece(start, si, text) == PieceAt(s, start)
  {
    if s[start] == '"' || s[start] == '\'' {
      si := ScanQuoted(s, start);
      text := s[start..si];
    } else if s[start] == ':' {
      si := start + 1;
      text := [s[start]];
      if si < |s| && s[si] == ' ' {
        text := [s[start], '\n', ' '];
        while si < |s| && s[si] == ' '
          invariant start < si <= |s| && SpacesEnd(s, si) == SpacesEnd(s, start + 1)
        {
          si := si + 1;
        }
      }
    } else if s[start] == '(' {
      var cnt;
      si, cnt := ScanBracket(s, start);
      if si < |s| {
        si := si + 1;
        text := (if cnt > 0 then "\n\n" else "") + s[start..si];
      } else {
        si, text := start + 1, [s[start]];
      }
    } else {
      si, text := start + 1, [s[start]];
    }
  }

  method BeautifyErrorMessage(msg: string) returns (rt: string)
    ensures rt == Beautify(CString(msg))
  {
    var s := CString(msg);
    rt := "";
    var si := 0;
    while si < |s|
      invariant 0 <= si <= |s|
      invariant rt + Joined(Pieces(s, si)) == Beautify(s)
    {
      var next, text := Round(s, si);
      JoinedMore(rt, Piece(si, next, text), Pieces(s, next));
      rt := rt + text;
      si := next;
    }
    assert rt + "" == rt;
  }

  // ------------------------------------------------------------------
  // Only the layout changes
  // ------------------------------------------------------------------

  /** A text without its blanks and newlines. */
  function Compact(s: string): string {
    if s == "" then "" else (if s[0] == ' ' || s[0] == '\n' then "" else [s[0]]) + Compact(s[1..])
  }

  lemma {:induction false} CompactCons(c: char, t: string)
    ensures Compact([c] + t) == (if c == ' ' || c == '\n' then "" else [c]) + Compact(t)
  {
    assert ([c] + t)[1..] == t;
  }

  lemma {:induction false} CompactSum(a: string, b: string)
    ensures Compact(a + b) == Compact(a) + Compact(b)
  {
    if a == "" {
      assert a + b == b;
    } else {
      var c, t := a[0], a[1..];
      CompactSum(t, b);
      CompactCons(c, t);
      CompactCons(c, t + b);
      assert a == [c] + t;
      Assoc([c], t, b);
      Assoc(if c == ' ' || c == '\n' then "" else [c], Compact(t), Compact(b));
    }
  }

  lemma {:induction false} CompactSpaces(s: string, i: nat, j: nat)
    requires i <= j <= |s| && forall k :: i <= k < j ==> s[k] == ' '
    ensures Compact(s[i..j]) == ""
    decreases |s| - i
  {
    if i < j {
      CompactSpaces(s, i + 1, j);
      assert s[i..j][1..] == s[i + 1..j];
    }
  }

  lemma {:induction false} CompactColon(s: string, i: nat)
    requires i < |s| && s[i] == ':'
    ensures Compact(Colon(s, i).text) == Compact(s[i..Colon(s, i).next])
  {
    var next := Colon(s, i).next;
    CompactSpaces(s, i + 1, next);
    assert s[i..next] == [s[i]] + s[i + 1..next];
    CompactSum([s[i]], s[i + 1..next]);
    CompactSum([s[i]], "\n ");
    assert [s[i], '\n', ' '] == [s[i]] + "\n ";
    assert Compact("\n ") == "" by { assert "\n "[1..] == " " && " "[1..] == ""; }
  }

  lemma {:induction false} CompactBracket(s: string, i: nat)
    requires i < |s| && s[i] == '('
    ensures Compact(Bracket(s, i).text) == Compact(s[i..Bracket(s, i).next])
  {
    var next := Bracket(s, i).next;
    CompactSum("\n\n", s[i..next]);
    assert Compact("\n\n") == "" by { assert "\n\n"[1..] == "\n" && "\n"[1..] == ""; }
    assert "" + s[i..next] == s[i..next];
  }

  lemma {:induction false} CompactPiece(s: string, i: nat)
    requires i < |s|
    ensures Compact(PieceAt(s, i).text) == Compact(s[i..PieceAt(s, i).next])
  {
    if s[i] == ':' { CompactColon(s, i); }
    if s[i] == '(' { CompactBracket(s, i); }
  }

  lemma {:induction false} CompactPieces(s: string, i: nat)
    requires i <= |s|
    ensures Compact(Joined(Pieces(s, i))) == Compact(s[i..])
    decreases |s| - i
  {
    if i < |s| {
      var p := PieceAt(s, i);
      CompactPiece(s, i);
      CompactPieces(s, p.next);
      CompactTwo(p, Pieces(s, p.next), s[i..p.next], s[p.next..]);
      Cut(s, i, p.next);
    }
  }

  lemma {:induction false} Cut(s: string, i: nat, j: nat)
    requires i <= j <= |s|
    ensures s[i..] == s[i..j] + s[j..]
  {}

  lemma {:induction false} CompactTwo(p: Piece, ps: seq<Piece>, a: string, b: string)
    requires Compact(p.text) == Compact(a) && Compact(Joined(ps)) == Compact(b)
    ensures Compact(Joined([p] + ps)) == Compact(a + b)
  {
    assert ([p] + ps)[1..] == ps;
    CompactSum(p.text, Joined(ps));
    CompactSum(a, b);
  }

  /** Without blanks and newlines the output is the input. */
  lemma OnlyLayout(msg: string)
    ensures Compact(Beautify(CString(msg))) == Compact(CString(msg))
  {
    var s := CString(msg);
    CompactPieces(s, 0);
    assert s[0..] == s;
  }

  /** The pieces follow each other through the whole message, each the one that
      starts there. */
  lemma {:induction false} PiecesCover(s: string, i: nat, k: nat)
    requires i <= |s| && k < |Pieces(s, i)|
    ensures var ps := Pieces(s, i);
            && ps[k].start == (if k == 0 then i else ps[k - 1].next) && ps[k].start < |s|
            && ps[k] == PieceAt(s, ps[k].start)
            && (k == |ps| - 1 <==> ps[k].next == |s|)
    decreases |s| - i
  {
    var next := PieceAt(s, i).next;
    if k > 0 { PiecesCover(s, next, k - 1); }
    assert next < |s| ==> Pieces(s, next) != [];
  }

  /** How many backslashes stand directly before `k`, from `lo` on. */
  function Slashes(s: string, lo: nat, k: nat): nat
    requires k <= |s|
  {
    if k > lo && s[k - 1] == '\\' then 1 + Slashes(s, lo, k - 1) else 0
  }

  /** The quote at `k` closes the text that the one at `i` opens, unless an earlier one
      does: no backslash before it escapes it. */
  predicate Closes(s: string, i: nat, k: nat)
    requires i < k < |s|
  {
    s[k] == s[i] && Slashes(s, i + 1, k) % 2 == 0
  }

  /** Quoted text ends behind the first quote that closes it, or else with the message. */
  ghost predicate EndsQuoted(s: string, i: nat, next: nat)
    requires i < next <= |s|
  {
    && (forall k :: i < k < next - 1 ==> !Closes(s, i, k))
    && (next == |s| || (next > i + 1 && Closes(s, i, next - 1)))
  }

  /** What a piece is and what is written for it: quoted text as it is; for the blanks
      behind a colon a new line with one blank; a bracket with its contents as it is,
      two newlines before it if another kind of bracket opens in it; and everything
      else byte by byte. */
  ghost predicate IsPiece(s: string, p: Piece) {
    && p.start < p.next <= |s|
    && var raw := s[p.start..p.next];
       if s[p.start] == '"' || s[p.start] == '\'' then
         p.text == raw && EndsQuoted(s, p.start, p.next)
       else if s[p.start] == ':' then
         && (forall k :: p.start < k < p.next ==> s[k] == ' ') && (p.next < |s| ==> s[p.next] != ' ')
         && p.text == if p.next == p.start + 1 then ":" else ":\n "
       else if s[p.start] == '(' && ')' in s[p.start..] then
         && s[p.next - 1] == ')' && (forall k :: p.start <= k < p.next - 1 ==> s[k] != ')')
         && p.text == (if exists k :: p.start < k < p.next && (s[k] == '[' || s[k] == '{') then "\n\n" else "") + raw
       else
         p.next == p.start + 1 && p.text == raw
  }

  /** The scan for the closing quote, from a place no backslash escapes. */
  lemma {:induction false} QuoteFound(s: string, i: nat, at: nat)
    requires i < at <= |s| && Quote(s[i]) && Slashes(s, i + 1, at) % 2 == 0
    ensures var r := QuoteEnd(s, at, s[i]);
            && (forall k :: at <= k < r ==> !Closes(s, i, k))
            && (r < |s| ==> Closes(s, i, r))
    decreases |s| - at
  {
    if at < |s| && s[at] != s[i] {
      if s[at] != '\\' {
        QuoteFound(s, i, at + 1);
      } else if at + 1 < |s| {
        assert Slashes(s, i + 1, at + 1) % 2 == 1;
        QuoteFound(s, i, at + 2);
      }
    }
  }

  lemma {:induction false} QuotedShape(s: string, i: nat)
    requires i < |s| && Quote(s[i])
    ensures IsPiece(s, Quoted(s, i))
  {
    QuoteFound(s, i, i + 1);
  }

  lemma {:induction false} BracketShape(s: string, i: nat)
    requires i < |s| && s[i] == '('
    ensures IsPiece(s, Bracket(s, i))
  {
    var q := BracketEnd(s, i + 1);
    if q < |s| {
      assert s[i..][q - i] == ')';
      assert (exists k :: i < k < q && Opens(s[k])) <==> exists k :: i < k < q + 1 && Opens(s[k]);
    } else {
      assert forall k :: 0 <= k < |s| - i ==> s[i..][k] == s[i + k];
      assert s[i..i + 1] == [s[i]];
    }
  }

  lemma {:induction false} PieceShape(s: string, i: nat)
    requires i < |s|
    ensures IsPiece(s, PieceAt(s, i))
  {
    if Quote(s[i]) {
      QuotedShape(s, i);
    } else if s[i] == '(' {
      BracketShape(s, i);
    } else {
      assert s[i..i + 1] == [s[i]];
    }
  }

  lemma {:induction false} PieceIsVerbatim(s: string, k: nat)
    requires k < |Pieces(s, 0)|
    ensures IsPiece(s, Pieces(s, 0)[k])
  {
    PiecesCover(s, 0, k);
    PieceShape(s, Pieces(s, 0)[k].start);
  }
}
