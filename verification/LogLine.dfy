/** The line a log message is turned into, in its buffer (src/webRequestLogger.cpp). */
module LogLine {
  import opened Sequences

  newtype byte = b: int | 0 <= b < 256

  predicate Blank(b: byte) { b <= 32 }

  const DOTS: seq<byte> := [46, 46, 46]

  // ------------------------------------------------------------------
  // Squeezing
  // ------------------------------------------------------------------

  function DropBlanks(s: seq<byte>): (r: seq<byte>)
    ensures |r| <= |s| && (r != [] ==> !Blank(r[0]))
  {
    if s == [] || !Blank(s[0]) then s else DropBlanks(s[1..])
  }

  /** A run of blanks becomes one blank; at the end it is dropped. */
  function Squeeze(s: seq<byte>): seq<byte>
    decreases |s|
  {
    if s == [] then []
    else if !Blank(s[0]) then [s[0]] + Squeeze(s[1..])
    else
      var r := DropBlanks(s);
      if r == [] then [] else [32] + ([r[0]] + Squeeze(r[1..]))
  }

  /** Length of the word a text starts with. */
  function WordLength(s: seq<byte>): (n: nat)
    ensures n <= |s| && (forall i :: 0 <= i < n ==> !Blank(s[i])) && (n < |s| ==> Blank(s[n]))
  {
    if s == [] || Blank(s[0]) then 0 else 1 + WordLength(s[1..])
  }

  /** The words of a text. */
  function Words(s: seq<byte>): seq<seq<byte>>
    decreases |s|
  {
    var r := DropBlanks(s);
    if r == [] then [] else [r[..WordLength(r)]] + Words(r[WordLength(r)..])
  }

  predicate Leads(s: seq<byte>) { s != [] && Blank(s[0]) }

  /** Blanks are single spaces between words, or one in front. */
  predicate Normal(t: seq<byte>) {
    forall i :: 0 <= i < |t| && t[i] <= 32 ==> t[i] == 32 && i + 1 < |t| && t[i + 1] > 32
  }

  /** Words separated by single spaces, and one in front if `leads`. */
  function Join(ws: seq<seq<byte>>, leads: bool): seq<byte> {
    if ws == [] then [] else (if leads then [32] else []) + (ws[0] + Join(ws[1..], true))
  }

  lemma {:induction false} SqueezeWord(s: seq<byte>)
    ensures Squeeze(s) == s[..WordLength(s)] + Squeeze(s[WordLength(s)..])
  {
    var n := WordLength(s);
    if n == 0 {
      assert s[0..] == s && s[..0] == [];
    } else {
      var tail := s[1..];
      SqueezeWord(tail);
      assert WordLength(tail) == n - 1;
      SliceTail(s, n);
      Assoc([s[0]], tail[..n - 1], Squeeze(s[n..]));
    }
  }

  lemma SliceTail(s: seq<byte>, n: nat)
    requires 0 < n <= |s|
    ensures s[1..][n - 1..] == s[n..] && s[..n] == [s[0]] + s[1..][..n - 1]
  {}

  lemma {:induction false} SqueezeIsJoin(s: seq<byte>)
    ensures Squeeze(s) == Join(Words(s), Leads(s))
    decreases |s|
  {
    var r := DropBlanks(s);
    if r != [] {
      var n := WordLength(r);
      SqueezeWord(r);
      SqueezeIsJoin(r[n..]);
      assert DropBlanks(r) == r;
      assert Words(s)[0] == r[..n] && Words(s)[1..] == Words(r[n..]);
      assert r[n..] != [] ==> Leads(r[n..]);
      assert r[n..] == [] ==> Words(r[n..]) == [];
      assert Squeeze(r) == r[..n] + Join(Words(r[n..]), true);
    }
  }

  lemma {:induction false} NormalTail(t: seq<byte>)
    requires Normal(t) && t != []
    ensures Normal(t[1..])
  {
    forall i | 0 <= i < |t[1..]| && Blank(t[1..][i])
      ensures t[1..][i] == 32 && i + 1 < |t[1..]| && !Blank(t[1..][i + 1])
    {
      assert t[1..][i] == t[i + 1];
      assert t[i + 1 + 1] == t[1..][i + 1];
    }
  }

  lemma {:induction false} NormalIsSqueezed(t: seq<byte>)
    requires Normal(t)
    ensures Squeeze(t) == t
    decreases |t|
  {
    if t != [] {
      NormalTail(t);
      if Blank(t[0]) {
        assert !Blank(t[1]);
        NormalTail(t[1..]);
        assert t[1..][0] == t[1];
        assert DropBlanks(t) == DropBlanks(t[1..]) == t[1..];
        NormalIsSqueezed(t[1..][1..]);
        assert t == [32] + ([t[1]] + t[1..][1..]);
      } else {
        NormalIsSqueezed(t[1..]);
      }
    }
  }

  lemma {:induction false} SqueezedIsNormal(s: seq<byte>)
    ensures Normal(Squeeze(s))
    ensures s != [] && !Blank(s[0]) ==> Squeeze(s) != [] && Squeeze(s)[0] == s[0]
    decreases |s|
  {
    if s != [] {
      var r := DropBlanks(s);
      if r != [] {
        SqueezedIsNormal(r[1..]);
        var q := [r[0]] + Squeeze(r[1..]);
        NormalCons(r[0], Squeeze(r[1..]));
        if Blank(s[0]) { NormalSpace(q); }
      }
    }
  }

  lemma NormalCons(b: byte, t: seq<byte>)
    requires !Blank(b) && Normal(t)
    ensures Normal([b] + t)
  {
    var u := [b] + t;
    forall i | 0 <= i < |u| && Blank(u[i]) ensures u[i] == 32 && i + 1 < |u| && !Blank(u[i + 1]) {
      assert u[i] == t[i - 1];
      assert u[i + 1] == t[i - 1 + 1];
    }
  }

  lemma NormalSpace(t: seq<byte>)
    requires Normal(t) && t != [] && !Blank(t[0])
    ensures Normal([32] + t)
  {
    var u: seq<byte> := [32] + t;
    forall i | 0 <= i < |u| && Blank(u[i]) ensures u[i] == 32 && i + 1 < |u| && !Blank(u[i + 1]) {
      if i > 0 {
        assert u[i] == t[i - 1];
        assert u[i + 1] == t[i - 1 + 1];
      }
    }
  }

  ghost predicate AreWords(ws: seq<seq<byte>>) {
    forall i :: 0 <= i < |ws| ==> ws[i] != [] && forall j :: 0 <= j < |ws[i]| ==> !Blank(ws[i][j])
  }

  lemma {:induction false} WordsAreWords(s: seq<byte>)
    ensures AreWords(Words(s))
    decreases |s|
  {
    var r := DropBlanks(s);
    if r != [] {
      assert WordLength(r) > 0;
      WordsAreWords(r[WordLength(r)..]);
    }
  }

  lemma {:induction false} WordLengthOf(w: seq<byte>, rest: seq<byte>)
    requires (forall j :: 0 <= j < |w| ==> !Blank(w[j])) && (rest == [] || Blank(rest[0]))
    ensures WordLength(w + rest) == |w|
  {
    if w == [] {
      assert w + rest == rest;
    } else {
      assert (w + rest)[1..] == w[1..] + rest;
      WordLengthOf(w[1..], rest);
    }
  }

  lemma {:induction false} WordsOfJoin(ws: seq<seq<byte>>, leads: bool)
    requires AreWords(ws)
    ensures Words(Join(ws, leads)) == ws
    ensures ws != [] ==> Join(ws, leads) != [] && Leads(Join(ws, leads)) == leads
    decreases |ws|
  {
    if ws != [] {
      var w, rest := ws[0], Join(ws[1..], true);
      WordsOfJoin(ws[1..], true);
      WordLengthOf(w, rest);
      var r := w + rest;
      assert !Blank(r[0]) by { assert r[0] == w[0]; }
      assert DropBlanks(r) == r;
      assert r[..|w|] == w && r[|w|..] == rest;
      assert leads ==> Join(ws, leads)[1..] == r;
      assert DropBlanks(Join(ws, leads)) == r;
      assert ws == [w] + ws[1..];
    }
  }

  /** What squeezing yields, without saying how: the one text whose blanks are
      single spaces between words or in front, with the same words, that starts
      with a blank if and only if the original does (and has any word). */
  lemma SqueezeMeaning(s: seq<byte>, t: seq<byte>)
    ensures t == Squeeze(s) <==>
            Normal(t) && Words(t) == Words(s) && (Words(s) != [] ==> Leads(t) == Leads(s))
  {
    SqueezeIsJoin(s);
    WordsAreWords(s);
    WordsOfJoin(Words(s), Leads(s));
    SqueezedIsNormal(s);
    if Normal(t) {
      NormalIsSqueezed(t);
      SqueezeIsJoin(t);
    }
  }

  /** Squeezing twice is squeezing once. */
  lemma SqueezeIdempotent(s: seq<byte>)
    ensures Squeeze(Squeeze(s)) == Squeeze(s)
  {
    SqueezedIsNormal(s);
    NormalIsSqueezed(Squeeze(s));
  }

  function Bytes(s: seq<byte>): seq<byte> {
    if s == [] then [] else (if s[0] <= 32 then [] else [s[0]]) + Bytes(s[1..])
  }

  lemma {:induction false} BytesOfTail(s: seq<byte>, r: seq<byte>)
    requires r == DropBlanks(s)
    ensures Bytes(s) == Bytes(r)
  {
    if s != [] && Blank(s[0]) { BytesOfTail(s[1..], r); }
  }

  /** All other bytes stay, in their order. */
  lemma {:induction false} SqueezeKeepsBytes(s: seq<byte>)
    ensures Bytes(Squeeze(s)) == Bytes(s)
    decreases |s|
  {
    if s != [] {
      var r := DropBlanks(s);
      BytesOfTail(s, r);
      if r != [] {
        SqueezeKeepsBytes(r[1..]);
        var q := [r[0]] + Squeeze(r[1..]);
        assert q[1..] == Squeeze(r[1..]);
        assert ([32] + q)[1..] == q;
      }
    }
  }

  // ------------------------------------------------------------------
  // The buffer
  // ------------------------------------------------------------------

  /** `buf` holds the C string `s`. */
  ghost predicate Holds(buf: array<byte>, s: seq<byte>)
    reads buf
  {
    |s| < buf.Length && buf[|s|] == 0 && forall k :: 0 <= k < |s| ==> buf[k] == s[k] && s[k] != 0
  }

  lemma {:induction false} DropSnoc(s: seq<byte>, b: byte)
    ensures DropBlanks(s + [b]) == if DropBlanks(s) == [] then DropBlanks([b]) else DropBlanks(s) + [b]
    ensures DropBlanks(s) == [] ==> s == [] || Blank(s[|s| - 1])
    ensures DropBlanks(s) != [] ==> s != [] && DropBlanks(s)[|DropBlanks(s)| - 1] == s[|s| - 1]
  {
    if s == [] {
      assert s + [b] == [b];
    } else {
      assert (s + [b])[0] == s[0] && (s + [b])[1..] == s[1..] + [b];
      if Blank(s[0]) { DropSnoc(s[1..], b); }
    }
  }

  /** What one more byte adds to the output. */
  function Added(afterBlank: bool, b: byte): seq<byte> {
    if Blank(b) then [] else if afterBlank then [32, b] else [b]
  }

  predicate Trails(s: seq<byte>) { s != [] && Blank(s[|s| - 1]) }

  lemma {:induction false} SqueezeSnoc(s: seq<byte>, b: byte)
    ensures Squeeze(s + [b]) == Squeeze(s) + Added(Trails(s), b)
    decreases |s|, 1
  {
    if s == [] {
      assert s + [b] == [b];
      SqueezeOne(b);
    } else if Blank(s[0]) {
      SqueezeSnocBlank(s, b);
    } else {
      var t := s + [b];
      assert t[0] == s[0] && t[1..] == s[1..] + [b];
      SqueezeSnoc(s[1..], b);
      Assoc([s[0]], Squeeze(s[1..]), Added(Trails(s), b));
    }
  }

  lemma SqueezeOne(b: byte)
    ensures Squeeze([b]) == Added(false, b)
  {
    var rest := [b][1..];
    assert rest == [];
    assert DropBlanks(rest) == [] && Squeeze(rest) == [];
  }

  lemma {:induction false} SqueezeSnocBlank(s: seq<byte>, b: byte)
    requires s != [] && Blank(s[0])
    ensures Squeeze(s + [b]) == Squeeze(s) + Added(Trails(s), b)
    decreases |s|, 0
  {
    var r, t := DropBlanks(s), s + [b];
    DropSnoc(s, b);
    SqueezeBlank(s);
    SqueezeBlank(t);
    if r != [] {
      SqueezeSnoc(r, b);
      Assoc([32], Squeeze(r), Added(Trails(s), b));
    } else {
      SqueezeOne(b);
      SqueezeNone(b);
    }
  }

  lemma SqueezeNone(b: byte)
    ensures DropBlanks([b]) == if Blank(b) then [] else [b]
  {
    assert [b][1..] == [];
  }

  lemma SqueezeBlank(s: seq<byte>)
    requires s != [] && Blank(s[0])
    ensures Squeeze(s) == if DropBlanks(s) == [] then [] else [32] + Squeeze(DropBlanks(s))
    ensures |DropBlanks(s)| < |s|
  {}

  /** `out[i]` is the output for the first `i` bytes, and the next follows from it. */
  ghost predicate Emits(s: seq<byte>, out: seq<seq<byte>>, i: nat) {
    i < |s| && i + 1 < |out| && out[i + 1] == out[i] + Added(i > 0 && Blank(s[i - 1]), s[i])
  }

  lemma {:induction false} Outputs(s: seq<byte>) returns (out: seq<seq<byte>>)
    ensures |out| == |s| + 1 && out[0] == [] && out[|s|] == Squeeze(s)
    ensures forall i :: 0 <= i < |s| ==> Emits(s, out, i)
  {
    if s == [] {
      out := [[]];
    } else {
      var n := |s| - 1;
      var before := Outputs(s[..n]);
      out := before + [Squeeze(s)];
      SqueezeSnoc(s[..n], s[n]);
      assert s == s[..n] + [s[n]];
      forall i | 0 <= i < |s| ensures Emits(s, out, i) {
        if i < n { assert Emits(s[..n], before, i); }
      }
    }
  }

  lemma {:induction false} OutputsOfRun(s: seq<byte>, out: seq<seq<byte>>, from: nat, to: nat)
    requires from <= to <= |s| < |out| && forall i :: 0 <= i < |s| ==> Emits(s, out, i)
    requires forall k :: from <= k < to ==> Blank(s[k])
    ensures out[to] == out[from]
  {
    if from < to {
      OutputsOfRun(s, out, from, to - 1);
      assert Emits(s, out, to - 1);
    }
  }

  lemma OutputAfter(s: seq<byte>, out: seq<seq<byte>>, from: nat, to: nat)
    requires from <= to < |s| < |out| && forall i :: 0 <= i < |s| ==> Emits(s, out, i)
    requires (from > 0 ==> !Blank(s[from - 1])) && (forall k :: from <= k < to ==> Blank(s[k])) && !Blank(s[to])
    ensures |out[to + 1]| == |out[from]| + (if from < to then 2 else 1)
    ensures forall k :: 0 <= k < |out[from]| ==> out[to + 1][k] == out[from][k]
    ensures from < to ==> out[to + 1][|out[from]|] == 32
    ensures out[to + 1][|out[to + 1]| - 1] == s[to]
  {
    OutputsOfRun(s, out, from, to);
    assert Emits(s, out, to);
  }

  /** The inner loop: past the run of blanks, or to the end. */
  method SkipBlanks(buf: array<byte>, start: nat, ghost n: nat) returns (bi: nat)
    requires start <= n < buf.Length && buf[n] == 0
    ensures start <= bi <= n && (forall k :: start <= k < bi ==> Blank(buf[k]) && buf[k] != 0)
    ensures buf[bi] == 0 || !Blank(buf[bi])
  {
    bi := start;
    while buf[bi] != 0 && buf[bi] <= 32
      invariant start <= bi <= n
      invariant forall k :: start <= k < bi ==> Blank(buf[k]) && buf[k] != 0
      decreases buf.Length - bi
    {
      bi := bi + 1;
    }
  }

  /** The loop with the two pointers: `bi` reads, `ci` writes and never passes it. */
  method SqueezeInPlace(buf: array<byte>, ghost s: seq<byte>)
    requires Holds(buf, s)
    modifies buf
    ensures |Squeeze(s)| <= |s| && Holds(buf, Squeeze(s))
  {
    ghost var out := Outputs(s);
    var bi, ci := 0, 0;
    while buf[bi] != 0
      invariant 0 <= ci <= bi <= |s|
      invariant buf[|s|] == 0 && forall k :: bi <= k < |s| ==> buf[k] == s[k]
      invariant |out[bi]| == ci
      invariant forall k :: 0 <= k < ci ==> buf[k] == out[bi][k]
      invariant forall k :: 0 <= k < ci ==> out[bi][k] != 0
      invariant bi > 0 ==> !Blank(s[bi - 1])
      decreases |s| - bi
    {
      ghost var from := bi;
      if buf[bi] <= 32 {
        bi := SkipBlanks(buf, bi, |s|);
        if buf[bi] == 0 { OutputsOfRun(s, out, from, bi); break; }
        buf[ci] := 32;
        ci := ci + 1;
      }
      OutputAfter(s, out, from, bi);
      buf[ci] := buf[bi];
      bi, ci := bi + 1, ci + 1;
    }
    buf[ci] := 0;
  }

  // ------------------------------------------------------------------
  // Composing the line
  // ------------------------------------------------------------------

  /** What is left of a text of the message in a buffer of `size` bytes. */
  function Line(text: seq<byte>, size: nat): (line: seq<byte>)
    requires size >= 4
    ensures |line| < size
  {
    if |text| < size - 4 then text else text[..size - 4] + DOTS
  }

  /** The dots come too early: a text that fits is cut as well when it comes within
      four bytes of the size, unless it happens to end in dots. */
  lemma LineKeepsText(text: seq<byte>, size: nat)
    requires size >= 4
    ensures Line(text, size) == text <==> |text| < size - 4 || (|text| == size - 1 && text[size - 4..] == [46, 46, 46])
    ensures Clipped(text, size - 1) == text <==> |text| < size
  {
    var line := Line(text, size);
    if size - 4 <= |text| {
      assert line[..size - 4] == text[..size - 4] && line[size - 4..] == DOTS;
      assert |text| == size - 1 ==> text == text[..size - 4] + text[size - 4..];
    }
  }

  /** A text that is more than four bytes shorter than the buffer is the line; of any
      other all but the last four bytes' worth of the buffer is kept, and three dots. */
  lemma LineMeaning(text: seq<byte>, size: nat)
    requires size >= 4
    ensures var line := Line(text, size);
            if |text| + 4 < size then line == text
            else |line| == size - 1 && line[..size - 4] == text[..size - 4] && line[size - 4..] == [46, 46, 46]
  {}

  function Clipped(text: seq<byte>, room: nat): (r: seq<byte>)
    ensures |r| <= room && r <= text
  {
    if |text| <= room then text else text[..room]
  }

  /** snprintf into the bytes from `at`: at most what fits, and a NUL; the result
      is the length of the whole text. */
  method Snprintf(buf: array<byte>, at: nat, text: seq<byte>) returns (length: nat)
    requires at < buf.Length && 0 !in text
    requires forall k :: 0 <= k < at ==> buf[k] != 0
    modifies buf
    ensures length == |text|
    ensures Holds(buf, old(buf[..at]) + Clipped(text, buf.Length - at - 1))
  {
    var out := Clipped(text, buf.Length - at - 1);
    forall k | 0 <= k < |out| { buf[at + k] := out[k]; }
    buf[at + |out|] := 0;
    length := |text|;
    assert forall k :: at <= k < at + |out| ==> buf[k] == out[k - at] && out[k - at] in text;
  }

  /** The text the two calls of snprintf compose. */
  function Text(id: seq<byte>, message: seq<byte>): seq<byte> {
    [35] + id + [32] + message
  }

  lemma TextSplit(id: seq<byte>, message: seq<byte>)
    ensures Text(id, message) == ([35] + id + [32]) + message && |[35] + id + [32]| == |id| + 2
    ensures 0 !in id && 0 !in message ==> 0 !in Text(id, message)
  {}

  /** Cutting the composed text and setting the dots gives the line. */
  method Cut(buf: array<byte>, ghost text: seq<byte>, length: nat)
    requires buf.Length >= 4 && 0 !in text && length == |text|
    requires Holds(buf, Clipped(text, buf.Length - 1))
    modifies buf
    ensures Holds(buf, Line(text, buf.Length))
  {
    var size := buf.Length;
    if size - 4 <= length {
      forall k | 0 <= k < 4 { buf[size - 4 + k] := if k < 3 then 46 else 0; }
      ghost var line := Line(text, size);
      assert forall k :: 0 <= k < size - 4 ==> line[k] == text[k] && text[k] in text;
      assert line[size - 4] == 46 && line[size - 3] == 46 && line[size - 2] == 46;
    }
  }

  /** The message in the buffer: the composed text, cut to the buffer with dots at
      its end if it comes within four bytes of the size, then squeezed. There is
      always a NUL inside the buffer. */
  method LogMessageBuf(buf: array<byte>, id: seq<byte>, message: seq<byte>)
    requires 0 !in id && 0 !in message && |id| + 2 < buf.Length && 4 <= buf.Length
    modifies buf
    ensures Holds(buf, Squeeze(Line([35] + id + [32] + message, buf.Length)))
  {
    TextSplit(id, message);
    var prefix := [35] + id + [32];
    var n := Snprintf(buf, 0, prefix);
    assert buf[..0] == [] && [] + prefix == prefix;
    assert buf[..n] == prefix;
    var m := Snprintf(buf, n, message);
    ghost var text := Text(id, message);
    assert prefix + Clipped(message, buf.Length - n - 1) == Clipped(text, buf.Length - 1);
    Cut(buf, text, n + m);
    SqueezeInPlace(buf, Line(text, buf.Length));
  }
}
