/** Strings as the functions of C see them. */
module CStrings {

  /** The part before the first NUL. */
  function CString(s: string): (r: string)
    ensures r <= s && '\0' !in r && (r != s ==> s[|r|] == '\0')
  {
    if s == [] || s[0] == '\0' then [] else [s[0]] + CString(s[1..])
  }
}
