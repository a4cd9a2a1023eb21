/** Characters and comments of C++ source text. */
module CppText {

  predicate IsDigit(c: char) { '0' <= c <= '9' }

  predicate IsWordChar(c: char) {
    'a' <= c <= 'z' || 'A' <= c <= 'Z' || IsDigit(c) || c == '_'
  }

  predicate SlashThen(t: string, i: nat, c: char) {
    i + 1 < |t| && t[i] == '/' && t[i + 1] == c
  }

  /** Where the line that goes on at i ends: at its line break or at the end of the text. */
  function LineEnd(t: string, i: nat): (r: nat)
    ensures r >= i && (i <= |t| ==> r <= |t|)
    ensures i < |t| && t[i] != '\n' ==> r > i
    decreases |t| - i
  {
    if i >= |t| || t[i] == '\n' then i else LineEnd(t, i + 1)
  }
}
