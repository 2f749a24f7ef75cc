/** Posted forms as JSON text (src/applicationImpl.cpp). */
module FormJson {
  import opened Sequences

  // ------------------------------------------------------------------
  // Strings
  // ------------------------------------------------------------------

  const BACKSPACE: char := '\U{8}'
  const FORMFEED: char := '\U{C}'

  /** The entity of a character that is escaped; empty for the others. */
  function Entity(c: char): string {
    if c == '\n' then "\\n"
    else if c == '\r' then "\\r"
    else if c == BACKSPACE then "\\b"
    else if c == FORMFEED then "\\f"
    else if c == '\t' then "\\t"
    else if c == '"' then "\\\""
    else if c == '\\' then "\\\\"
    else ""
  }

  predicate Plain(c: char) { Entity(c) == "" }

  function Escape(c: char): string { if Plain(c) then [c] else Entity(c) }

  function Encode(v: string): string {
    if v == "" then "" else Escape(v[0]) + Encode(v[1..])
  }

  /** How a character is written in a JSON string (section 7 of RFC 8259). */
  predicate WrittenAs(c: char, e: string) {
    if c == '"' then e == "\\\""
    else if c == '\\' then e == "\\\\"
    else if c == '\n' then e == "\\n"
    else if c == '\r' then e == "\\r"
    else if c == '\t' then e == "\\t"
    else if c == '\U{8}' then e == "\\b"
    else if c == '\U{C}' then e == "\\f"
    else e == [c]
  }

  function Concat(pieces: seq<string>): string {
    if pieces == [] then "" else pieces[0] + Concat(pieces[1..])
  }

  /** The encoded value is its characters one after the other, each written so. */
  lemma {:induction false} EncodeByCharacter(v: string) returns (pieces: seq<string>)
    ensures Encode(v) == Concat(pieces) && |pieces| == |v|
    ensures forall i :: 0 <= i < |v| ==> WrittenAs(v[i], pieces[i])
  {
    if v == "" {
      pieces := [];
    } else {
      var rest := EncodeByCharacter(v[1..]);
      pieces := [Escape(v[0])] + rest;
      assert pieces[1..] == rest;
      assert forall i :: 0 <= i < |rest| ==> pieces[i + 1] == rest[i] && v[1..][i] == v[i + 1];
    }
  }

  lemma {:induction false} EncodeAppended(v: string, c: char)
    ensures Encode(v + [c]) == Encode(v) + Escape(c)
  {
    if v == "" {
      assert v + [c] == [c] && [c][1..] == "";
    } else {
      EncodeAppended(v[1..], c);
      assert (v + [c])[1..] == v[1..] + [c];
      Assoc(Escape(v[0]), Encode(v[1..]), Escape(c));
    }
  }

  lemma {:induction false} EncodeNext(v: string, vi: nat)
    requires vi < |v|
    ensures Encode(v[..vi + 1]) == Encode(v[..vi]) + Escape(v[vi])
  {
    EncodeAppended(v[..vi], v[vi]);
    assert v[..vi + 1] == v[..vi] + [v[vi]];
  }

  lemma {:induction false} EncodeRun(v: string, start: nat, vi: nat)
    requires start <= vi <= |v| && forall k :: start <= k < vi ==> Plain(v[k])
    ensures Encode(v[..vi]) == Encode(v[..start]) + v[start..vi]
  {
    if start < vi {
      EncodeRun(v, start, vi - 1);
      EncodeNext(v, vi - 1);
      Assoc(Encode(v[..start]), v[start..vi - 1], [v[vi - 1]]);
      SliceLast(v, start, vi);
    } else {
      assert v[start..vi] == "";
    }
  }

  lemma {:induction false} SliceLast(v: string, start: nat, end: nat)
    requires start < end <= |v|
    ensures v[start..end] == v[start..end - 1] + [v[end - 1]]
  {}

  /** What is written so far, and what remains. */
  ghost predicate Writing(content: string, todo: string, whole: string) { content + todo == whole }

  method Append(content: string, piece: string, ghost todo: string, ghost whole: string) returns (r: string)
    requires Writing(content, piece + todo, whole)
    ensures Writing(r, todo, whole)
  {
    Assoc(content, piece, todo);
    r := content + piece;
  }

  /** The inner loop: to the next character with an entity, or to the end. */
  method ScanPlain(value: string, start: nat) returns (vi: nat, entity: string)
    requires start <= |value|
    ensures start <= vi <= |value| && forall k :: start <= k < vi ==> Plain(value[k])
    ensures vi == |value| <==> entity == ""
    ensures vi < |value| ==> entity == Escape(value[vi])
  {
    vi, entity := start, "";
    while vi != |value|
      invariant start <= vi <= |value| && entity == ""
      invariant forall k :: start <= k < vi ==> Plain(value[k])
      decreases |value| - vi
    {
      entity := Entity(value[vi]);
      if entity != "" { break; }
      vi := vi + 1;
    }
  }

  /** The encoder as intended: the plain run from `start`, then the entity. */
  method JsonValueEncode(value: string) returns (rt: string)
    ensures rt == Encode(value)
  {
    rt := "";
    var vi := 0;
    while vi != |value|
      invariant 0 <= vi <= |value| && rt == Encode(value[..vi])
      decreases |value| - vi
    {
      var start := vi;
      var entity;
      vi, entity := ScanPlain(value, start);
      EncodeRun(value, start, vi);
      rt := rt + value[start..vi];
      if entity != "" {
        EncodeNext(value, vi);
        rt := rt + entity;
        vi := vi + 1;
      }
    }
    assert value[..vi] == value;
  }

  /** Length of the plain run in front. */
  function PlainRun(v: string): (n: nat)
    ensures n <= |v| && (n < |v| ==> !Plain(v[n]))
    ensures forall k :: 0 <= k < n ==> Plain(v[k])
  {
    if v == "" || !Plain(v[0]) then 0 else 1 + PlainRun(v[1..])
  }

  /** The encoder as written: it appends as many characters as the run has, but from
      the end of the run on, and then a range from the value to the entity, two
      pointers into different objects: an undefined read. */
  datatype Written = Undefined | Text(text: string)

  function EncodedAsWritten(value: string): Written {
    var n := PlainRun(value);
    if value == "" then Text("")
    else if n < |value| || n + n > |value| + 1 then Undefined
    else Text((value + "\0")[n..n + n])
  }

  /** As written, the encoder works for the empty value and for a single NUL only. */
  lemma {:induction false} EncodeAsWritten(value: string)
    ensures EncodedAsWritten(value) == Text(Encode(value)) <==> value == "" || value == "\0"
  {
    if |value| == 1 {
      assert value[1..] == "" && Encode(value) == Escape(value[0]);
      assert PlainRun(value) == 1 ==> (value + "\0")[1..2] == "\0";
    }
  }

  // ------------------------------------------------------------------
  // Printing a form
  // ------------------------------------------------------------------

  type Form = seq<(string, string)>

  /** A key with the values of one run of it. */
  datatype Group = Group(key: string, values: seq<string>)

  /** How many entries in front have the key `k`. */
  function RunLength(form: Form, k: string): (n: nat)
    ensures n <= |form| && (n < |form| ==> form[n].0 != k)
    ensures forall i :: 0 <= i < n ==> form[i].0 == k
  {
    if form == [] || form[0].0 != k then 0 else 1 + RunLength(form[1..], k)
  }

  function Seconds(form: Form): (r: seq<string>)
    ensures |r| == |form| && forall i :: 0 <= i < |r| ==> r[i] == form[i].1
  {
    if form == [] then [] else [form[0].1] + Seconds(form[1..])
  }

  function Groups(form: Form): seq<Group>
    decreases |form|
  {
    if form == [] then []
    else
      var n := RunLength(form, form[0].0);
      [Group(form[0].0, Seconds(form[..n]))] + Groups(form[n..])
  }

  function Quoted(v: string, tail: string): string { "\"" + (Encode(v) + ("\"" + tail)) }

  function ListText(vs: seq<string>, first: bool, tail: string): string {
    if vs == [] then "]" + tail
    else
      var text := Quoted(vs[0], ListText(vs[1..], false, tail));
      if first then text else "," + text
  }

  function ValuesText(vs: seq<string>, tail: string): string {
    if |vs| == 1 then Quoted(vs[0], tail) else " [" + ListText(vs, true, tail)
  }

  function KeyText(key: string, first: bool, tail: string): string {
    var text := "\n\t\"" + (key + ("\":" + tail));
    if first then text else "," + text
  }

  function MembersText(gs: seq<Group>, first: bool, tail: string): string {
    if gs == [] then tail
    else KeyText(gs[0].key, first, ValuesText(gs[0].values, MembersText(gs[1..], false, tail)))
  }

  const HEAD := "{\n\"get\":{"
  const TAIL := "\n}}\n"

  function FormText(form: Form): string { HEAD + MembersText(Groups(form), true, TAIL) }

  method AppendQuoted(content: string, value: string, ghost todo: string, ghost whole: string) returns (r: string)
    requires Writing(content, Quoted(value, todo), whole)
    ensures Writing(r, todo, whole)
  {
    var encoded := JsonValueEncode(value);
    r := Append(content, "\"", encoded + ("\"" + todo), whole);
    r := Append(r, encoded, "\"" + todo, whole);
    r := Append(r, "\"", todo, whole);
  }

  lemma {:induction false} ListNext(form: Form, i: nat, fn: nat, first: bool, todo: string)
    returns (next: nat, left: string)
    requires i < fn <= |form|
    ensures next == i + 1 && left == ListText(Seconds(form[next..fn]), false, todo)
    ensures ListText(Seconds(form[i..fn]), first, todo) ==
            if first then Quoted(form[i].1, left) else "," + Quoted(form[i].1, left)
  {
    next := i + 1;
    left := ListText(Seconds(form[next..fn]), false, todo);
    assert form[i..fn][1..] == form[next..fn];
    assert Seconds(form[i..fn])[1..] == Seconds(form[next..fn]);
  }

  /** The values of the entries from `fi` to before `fn` as an array. */
  method AppendList(content: string, form: Form, fi: nat, fn: nat, ghost todo: string, ghost whole: string)
    returns (r: string)
    requires fi <= fn <= |form|
    requires Writing(content, ListText(Seconds(form[fi..fn]), true, todo), whole)
    ensures Writing(r, todo, whole)
  {
    r := content;
    var i, eidx := fi, 0;
    ghost var first := true;
    while i != fn
      invariant fi <= i <= fn && eidx >= 0 && (first <==> eidx == 0)
      invariant Writing(r, ListText(Seconds(form[i..fn]), first, todo), whole)
      decreases |form| - i
    {
      ghost var next, left := ListNext(form, i, fn, first, todo);
      if eidx != 0 { r := Append(r, ",", Quoted(form[i].1, left), whole); }
      r := AppendQuoted(r, form[i].1, left, whole);
      i, eidx, first := i + 1, eidx + 1, false;
      assert i == next;
    }
    assert form[i..fn] == [];
    r := Append(r, "]", todo, whole);
  }

  method AppendKey(content: string, key: string, fidx: int, ghost first: bool, ghost todo: string, ghost whole: string)
    returns (r: string)
    requires Writing(content, KeyText(key, first, todo), whole) && (first <==> fidx == 0)
    ensures Writing(r, todo, whole)
  {
    r := content;
    if fidx != 0 { r := Append(r, ",", "\n\t\"" + (key + ("\":" + todo)), whole); }
    r := Append(r, "\n\t\"", key + ("\":" + todo), whole);
    r := Append(r, key, "\":" + todo, whole);
    r := Append(r, "\":", todo, whole);
  }

  /** The entries from `start` to before `end` are those of one key. */
  ghost predicate IsRun(form: Form, start: nat, end: nat) {
    && start < end <= |form|
    && (forall i :: start <= i < end ==> form[i].0 == form[start].0)
    && (end < |form| ==> form[end].0 != form[start].0)
  }

  lemma {:induction false} GroupsNext(form: Form, start: nat, end: nat)
    requires start < |form| && end == start + RunLength(form[start..], form[start].0)
    ensures IsRun(form, start, end)
    ensures Groups(form[start..]) == [Group(form[start].0, Seconds(form[start..end]))] + Groups(form[end..])
  {
    var rest, n := form[start..], end - start;
    assert rest[..n] == form[start..end] && rest[n..] == form[end..];
    forall i | start <= i < end ensures form[i].0 == form[start].0 { assert rest[i - start] == form[i]; }
  }

  lemma {:induction false} MembersNext(form: Form, start: nat, first: bool, tail: string)
    returns (end: nat, left: string)
    requires start < |form|
    ensures IsRun(form, start, end) && left == MembersText(Groups(form[end..]), false, tail)
    ensures MembersText(Groups(form[start..]), first, tail) ==
            KeyText(form[start].0, first, ValuesText(Seconds(form[start..end]), left))
  {
    end := start + RunLength(form[start..], form[start].0);
    GroupsNext(form, start, end);
    var gs := Groups(form[start..]);
    assert gs[1..] == Groups(form[end..]);
    left := MembersText(Groups(form[end..]), false, tail);
  }

  lemma {:induction false} ValuesSplit(form: Form, start: nat, end: nat, tail: string)
    requires start < end <= |form|
    ensures ValuesText(Seconds(form[start..end]), tail) ==
            if end == start + 1 then Quoted(form[start].1, tail)
            else " [" + ListText(Seconds(form[start..end]), true, tail)
  {}

  /** The value or the list of values of the key at `start`. More than one are found
      by looking ahead; the iterator is then set back for the increment that follows. */
  method AppendValues(content: string, form: Form, start: nat, ghost end: nat, ghost todo: string, ghost whole: string)
    returns (r: string, fi: nat)
    requires IsRun(form, start, end)
    requires Writing(content, ValuesText(Seconds(form[start..end]), todo), whole)
    ensures fi == end && Writing(r, todo, whole)
  {
    fi := start;
    var fn := fi + 1;
    ValuesSplit(form, start, end, todo);
    if fn != |form| && form[fn].0 == form[fi].0 {
      while fn != |form| && form[fn].0 == form[fi].0
        invariant fi + 1 <= fn <= end
        decreases |form| - fn
      {
        fn := fn + 1;
      }
      r := Append(content, " [", ListText(Seconds(form[fi..fn]), true, todo), whole);
      r := AppendList(r, form, fi, fn, todo, whole);
      fi := fn;
      fi := fi - 1;
    } else {
      r := AppendQuoted(content, form[fi].1, todo, whole);
    }
    fi := fi + 1;
  }

  /** The loop over the form. */
  method AppendMembers(start: string, form: Form, ghost tail: string, ghost whole: string) returns (content: string)
    requires Writing(start, MembersText(Groups(form), true, tail), whole)
    ensures Writing(content, tail, whole)
  {
    content := start;
    var fi, fidx := 0, 0;
    ghost var first := true;
    assert form[0..] == form;
    while fi != |form|
      invariant 0 <= fi <= |form| && fidx >= 0 && (first <==> fidx == 0)
      invariant Writing(content, MembersText(Groups(form[fi..]), first, tail), whole)
      decreases |form| - fi
    {
      ghost var end, left := MembersNext(form, fi, first, tail);
      content := AppendKey(content, form[fi].0, fidx, first, ValuesText(Seconds(form[fi..end]), left), whole);
      content, fi := AppendValues(content, form, fi, end, left, whole);
      fidx, first := fidx + 1, false;
    }
    assert form[fi..] == [];
  }

  /** The text of a form. */
  method FormToJson(form: Form) returns (content: string)
    ensures content == FormText(form)
  {
    content := AppendMembers(HEAD, form, TAIL, FormText(form));
    content := Append(content, TAIL, "", FormText(form));
    assert content + "" == content;
  }

  // ------------------------------------------------------------------
  // Grouping loses nothing
  // ------------------------------------------------------------------

  function Pairs(key: string, values: seq<string>): (r: Form)
    ensures |r| == |values| && forall i :: 0 <= i < |r| ==> r[i] == (key, values[i])
  {
    if values == [] then [] else [(key, values[0])] + Pairs(key, values[1..])
  }

  function Ungroup(gs: seq<Group>): Form {
    if gs == [] then [] else Pairs(gs[0].key, gs[0].values) + Ungroup(gs[1..])
  }

  lemma {:induction false} PairsOfRun(form: Form, n: nat)
    requires 0 < n <= |form| && forall i :: 0 <= i < n ==> form[i].0 == form[0].0
    ensures Pairs(form[0].0, Seconds(form[..n])) == form[..n]
  {}

  lemma {:induction false} UngroupCons(g: Group, gs: seq<Group>)
    ensures Ungroup([g] + gs) == Pairs(g.key, g.values) + Ungroup(gs)
  {
    assert ([g] + gs)[1..] == gs;
  }

  lemma {:induction false} UngroupGroups(form: Form)
    ensures Ungroup(Groups(form)) == form
    decreases |form|
  {
    if form != [] {
      var n := RunLength(form, form[0].0);
      UngroupGroups(form[n..]);
      PairsOfRun(form, n);
      UngroupCons(Group(form[0].0, Seconds(form[..n])), Groups(form[n..]));
      assert form == form[..n] + form[n..];
    }
  }

  /** Equal keys stand side by side, as in the iteration order of a multimap. */
  ghost predicate Contiguous(form: Form) {
    forall i, j, k :: 0 <= i < j < k < |form| && form[i].0 == form[k].0 ==> form[j].0 == form[i].0
  }

  ghost predicate DistinctKeys(gs: seq<Group>) {
    forall i, j :: 0 <= i < j < |gs| ==> gs[i].key != gs[j].key
  }

  lemma {:induction false} KeysOfGroups(form: Form, i: nat) returns (k: nat)
    requires i < |Groups(form)|
    ensures k < |form| && form[k].0 == Groups(form)[i].key
    decreases |form|
  {
    var n := RunLength(form, form[0].0);
    k := 0;
    if i > 0 {
      k := KeysOfGroups(form[n..], i - 1);
      k := k + n;
    }
  }

  lemma {:induction false} GroupsAreRuns(form: Form, k: nat) returns (i: nat)
    requires k < |form|
    ensures i < |Groups(form)| && Groups(form)[i].key == form[k].0
    decreases |form|
  {
    var n := RunLength(form, form[0].0);
    i := 0;
    if k >= n {
      i := GroupsAreRuns(form[n..], k - n);
      i := i + 1;
    }
  }

  lemma {:induction false} RestContiguous(form: Form, n: nat)
    requires n <= |form| && Contiguous(form)
    ensures Contiguous(form[n..])
  {
    var rest := form[n..];
    forall i, j, k | 0 <= i < j < k < |rest| && rest[i].0 == rest[k].0 ensures rest[j].0 == rest[i].0 {
      assert form[n + i].0 == form[n + k].0;
      assert form[n + j].0 == form[n + i].0;
    }
  }

  lemma {:induction false} WholeContiguous(form: Form, n: nat)
    requires 0 < n <= |form| && Contiguous(form[n..])
    requires forall i :: 0 <= i < n ==> form[i].0 == form[0].0
    requires forall k :: n <= k < |form| ==> form[k].0 != form[0].0
    ensures Contiguous(form)
  {
    var rest := form[n..];
    forall i, j, k | 0 <= i < j < k < |form| && form[i].0 == form[k].0 ensures form[j].0 == form[i].0 {
      if i >= n {
        assert rest[i - n].0 == rest[k - n].0;
        assert rest[j - n].0 == rest[i - n].0;
      }
    }
  }

  lemma {:induction false} KeysOfRest(form: Form, n: nat)
    requires form != [] && n == RunLength(form, form[0].0) && Contiguous(form)
    ensures forall i :: 0 <= i < |Groups(form[n..])| ==> Groups(form[n..])[i].key != form[0].0
  {
    var rest := form[n..];
    forall i | 0 <= i < |Groups(rest)| ensures Groups(rest)[i].key != form[0].0 {
      var k := KeysOfGroups(rest, i);
      assert rest[k] == form[k + n];
    }
  }

  lemma {:induction false} KeyNotInRest(form: Form, n: nat)
    requires form != [] && n == RunLength(form, form[0].0) && DistinctKeys(Groups(form))
    ensures forall k :: n <= k < |form| ==> form[k].0 != form[0].0
  {
    var gs := Groups(form);
    forall k | n <= k < |form| ensures form[k].0 != form[0].0 {
      var i := GroupsAreRuns(form[n..], k - n);
      assert gs[i + 1] == Groups(form[n..])[i];
      assert gs[i + 1].key != gs[0].key;
    }
  }

  lemma {:induction false} DistinctCons(g: Group, gs: seq<Group>)
    ensures DistinctKeys([g] + gs) <==> DistinctKeys(gs) && forall i :: 0 <= i < |gs| ==> gs[i].key != g.key
  {
    var hs := [g] + gs;
    assert forall i :: 0 <= i < |gs| ==> gs[i] == hs[i + 1];
    if DistinctKeys(hs) {
      forall i | 0 <= i < |gs| ensures gs[i].key != g.key { assert hs[0].key != hs[i + 1].key; }
      forall i, j | 0 <= i < j < |gs| ensures gs[i].key != gs[j].key { assert hs[i + 1].key != hs[j + 1].key; }
    }
  }

  /** Each key comes once if and only if equal keys are side by side. */
  lemma {:induction false} KeysOnce(form: Form)
    ensures DistinctKeys(Groups(form)) <==> Contiguous(form)
    decreases |form|
  {
    if form != [] {
      var n := RunLength(form, form[0].0);
      KeysOnce(form[n..]);
      DistinctCons(Groups(form)[0], Groups(form[n..]));
      if Contiguous(form) {
        RestContiguous(form, n);
        KeysOfRest(form, n);
      } else if DistinctKeys(Groups(form)) {
        KeyNotInRest(form, n);
        WholeContiguous(form, n);
      }
    }
  }
}
