/** Reading JSON text (RFC 8259): strings, arrays and objects. */
module JsonText {
  import opened JsonValues
  import opened Options

  /** What a parser yields: a value and the text behind it, or nothing. */
  datatype Parsed<T> = Refused | Read(value: T, rest: string)

  predicate White(c: char) { c == ' ' || c == '\t' || c == '\n' || c == '\r' }

  function SkipWhite(s: string): (r: string)
    ensures |r| <= |s| && (r != "" ==> !White(r[0]))
  {
    if s != "" && White(s[0]) then SkipWhite(s[1..]) else s
  }

  function HexDigit(c: char): int {
    if '0' <= c <= '9' then c as int - '0' as int
    else if 'a' <= c <= 'f' then c as int - 'a' as int + 10
    else if 'A' <= c <= 'F' then c as int - 'A' as int + 10
    else -1
  }

  /** The code unit of four hexadecimal digits; surrogates are refused. */
  function Unicode(s: string): Option<char>
    requires |s| >= 4
  {
    var a, b, c, d := HexDigit(s[0]), HexDigit(s[1]), HexDigit(s[2]), HexDigit(s[3]);
    if a < 0 || b < 0 || c < 0 || d < 0 then None
    else
      var u := ((a * 16 + b) * 16 + c) * 16 + d;
      if 0xD800 <= u < 0xE000 || u >= 0x10000 then None else Some(u as char)
  }

  /** The character that follows a backslash (section 7), except `u`. */
  function Unescape(c: char): Option<char> {
    if c == '"' || c == '\\' || c == '/' then Some(c)
    else if c == 'b' then Some('\U{8}')
    else if c == 'f' then Some('\U{C}')
    else if c == 'n' then Some('\n')
    else if c == 'r' then Some('\r')
    else if c == 't' then Some('\t')
    else None
  }

  function Cons(c: char, p: Parsed<string>): Parsed<string> {
    if p.Refused? then Refused else Read([c] + p.value, p.rest)
  }

  /** The rest of a string (section 7), behind its opening quotation mark. */
  function ParseString(s: string): (p: Parsed<string>)
    ensures p.Read? ==> |p.value| + 1 + |p.rest| <= |s|
  {
    if s == "" || s[0] < ' ' then Refused
    else if s[0] == '"' then Read("", s[1..])
    else if s[0] != '\\' then Cons(s[0], ParseString(s[1..]))
    else if |s| == 1 then Refused
    else if Unescape(s[1]) != None then Cons(Unescape(s[1]).value, ParseString(s[2..]))
    else if s[1] == 'u' && |s| >= 6 && Unicode(s[2..6]) != None then Cons(Unicode(s[2..6]).value, ParseString(s[6..]))
    else Refused
  }

  /** A string, an array or an object; the other values do not occur in a form. */
  function ParseValue(s: string): (p: Parsed<Json>)
    ensures p.Read? ==> |p.rest| < |s|
    decreases |s|, 1
  {
    var t := SkipWhite(s);
    if t == "" then Refused
    else if t[0] == '"' then
      var p := ParseString(t[1..]);
      if p.Refused? then Refused else Read(String(p.value), p.rest)
    else if t[0] == '[' then
      var u := SkipWhite(t[1..]);
      if u != "" && u[0] == ']' then Read(Array([]), u[1..])
      else
        var p := ParseElements(t[1..]);
        if p.Refused? then Refused else Read(Array(p.value), p.rest)
    else if t[0] == '{' then
      var u := SkipWhite(t[1..]);
      if u != "" && u[0] == '}' then Read(Object([]), u[1..])
      else
        var p := ParseMembers(t[1..]);
        if p.Refused? then Refused else Read(Object(p.value), p.rest)
    else Refused
  }

  function ParseElements(s: string): (p: Parsed<seq<Json>>)
    ensures p.Read? ==> |p.rest| < |s|
    decreases |s|, 2
  {
    var v := ParseValue(s);
    if v.Refused? then Refused
    else
      var t := SkipWhite(v.rest);
      if t != "" && t[0] == ']' then Read([v.value], t[1..])
      else if t != "" && t[0] == ',' then
        var p := ParseElements(t[1..]);
        if p.Refused? then Refused else Read([v.value] + p.value, p.rest)
      else Refused
  }

  /** The name of a member and the colon. */
  function ParseName(s: string): (p: Parsed<string>)
    ensures p.Read? ==> |p.rest| < |s|
  {
    var t := SkipWhite(s);
    if t == "" || t[0] != '"' then Refused
    else
      var p := ParseString(t[1..]);
      if p.Refused? then Refused
      else
        var u := SkipWhite(p.rest);
        if u == "" || u[0] != ':' then Refused else Read(p.value, u[1..])
  }

  function ParseMembers(s: string): (p: Parsed<seq<Member>>)
    ensures p.Read? ==> |p.rest| < |s|
    decreases |s|, 2
  {
    var k := ParseName(s);
    if k.Refused? then Refused
    else
      var v := ParseValue(k.rest);
      if v.Refused? then Refused
      else
        var t := SkipWhite(v.rest);
        if t != "" && t[0] == '}' then Read([Member(k.value, v.value)], t[1..])
        else if t != "" && t[0] == ',' then
          var p := ParseMembers(t[1..]);
          if p.Refused? then Refused else Read([Member(k.value, v.value)] + p.value, p.rest)
        else Refused
  }

  /** A JSON text: one value with white space around it. */
  function ParseText(s: string): Option<Json> {
    var p := ParseValue(s);
    if p.Read? && SkipWhite(p.rest) == "" then Some(p.value) else None
  }
}
