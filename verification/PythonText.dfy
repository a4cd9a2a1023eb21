/** White space and line breaks of Python strings, and the string methods that depend on them. */
module PythonText {

  predicate IsSpace(c: char) {
    || c == ' ' || '\t' <= c <= '\r' || '\U{1c}' <= c <= '\U{1f}' || c == '\U{85}' || c == '\U{a0}'
    || c == '\U{1680}' || '\U{2000}' <= c <= '\U{200a}' || c == '\U{2028}' || c == '\U{2029}'
    || c == '\U{202f}' || c == '\U{205f}' || c == '\U{3000}'
  }

  /** The characters at which `splitlines` ends a line. */
  predicate IsBreak(c: char) {
    '\n' <= c <= '\r' || '\U{1c}' <= c <= '\U{1e}' || c == '\U{85}' || c == '\U{2028}' || c == '\U{2029}'
  }

  /** The white space of Python and, among it, its line boundaries, by their code points. */
  lemma SpacesAndBreaks(c: char)
    ensures var n := c as int;
            IsSpace(c) <==> 9 <= n <= 13 || 28 <= n <= 32 || n == 133 || n == 160 || n == 5760 || 8192 <= n <= 8202
                            || n == 8232 || n == 8233 || n == 8239 || n == 8287 || n == 12288
    ensures var n := c as int;
            IsBreak(c) <==> 10 <= n <= 13 || 28 <= n <= 30 || n == 133 || n == 8232 || n == 8233
    ensures IsBreak(c) ==> IsSpace(c)
  {
  }

  function StripLeft(s: string): (r: string)
    ensures r != "" ==> s != "" && !IsSpace(r[0]) && r[|r| - 1] == s[|s| - 1]
    ensures forall c | c in r :: c in s
    ensures s == "" || IsSpace(s[0]) || r == s
  {
    if s != "" && IsSpace(s[0]) then StripLeft(s[1..]) else s
  }

  function StripRight(s: string): (r: string)
    ensures r != "" ==> s != "" && !IsSpace(r[|r| - 1]) && r[0] == s[0]
    ensures forall c | c in r :: c in s
    ensures s == "" || IsSpace(s[|s| - 1]) || r == s
  {
    if s != "" && IsSpace(s[|s| - 1]) then StripRight(s[..|s| - 1]) else s
  }

  /** What `strip` leaves has no space at its ends; a text without one stays as it is. */
  function Strip(s: string): (r: string)
    ensures r != "" ==> !IsSpace(r[0]) && !IsSpace(r[|r| - 1])
    ensures forall c | c in r :: c in s
    ensures r == s <==> s == "" || (!IsSpace(s[0]) && !IsSpace(s[|s| - 1]))
  {
    StripRight(StripLeft(s))
  }
}
