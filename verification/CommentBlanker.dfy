/** The comment blanker of the skip counter: C++ comments become spaces, line breaks stay, string and
    character literals are stepped over whole. The substitution looks, from left to right, for the first
    alternative of its pattern that matches: a literal, a line comment, a block comment. */
module CommentBlanker {
  import opened CppText

  // ----- the lexer -----

  /** The position behind the quote that closes a literal whose inside goes on at i; -1 if none does. */
  function QuoteClose(t: string, i: nat, quote: char): (r: int)
    ensures r == -1 || i < r <= |t|
    decreases |t| - i
  {
    if i >= |t| then -1
    else if t[i] == '\\' then if i + 1 < |t| then QuoteClose(t, i + 2, quote) else -1
    else if t[i] == quote then i + 1
    else QuoteClose(t, i + 1, quote)
  }

  predicate StarSlash(t: string, i: nat) {
    i + 1 < |t| && t[i] == '*' && t[i + 1] == '/'
  }

  /** The position behind the first star-slash at or behind i; -1 if there is none. */
  function BlockClose(t: string, i: nat): (r: int)
    ensures r == -1 || i + 2 <= r <= |t|
    decreases |t| - i
  {
    if i + 1 >= |t| then -1
    else if StarSlash(t, i) then i + 2
    else BlockClose(t, i + 1)
  }

  datatype Kind = Plain | Literal | Comment

  function KindOf(t: string, i: nat): Kind
    requires i < |t|
  {
    if t[i] == '"' || t[i] == '\'' then if QuoteClose(t, i + 1, t[i]) >= 0 then Literal else Plain
    else if SlashThen(t, i, '/') then Comment
    else if SlashThen(t, i, '*') && BlockClose(t, i + 2) >= 0 then Comment
    else Plain
  }

  /** Where the token at i ends; a character that starts no match stands for itself. */
  function TokenEnd(t: string, i: nat): (r: nat)
    requires i < |t|
    ensures i < r <= |t|
  {
    if KindOf(t, i) == Plain then i + 1
    else if KindOf(t, i) == Literal then QuoteClose(t, i + 1, t[i])
    else if SlashThen(t, i, '/') then LineEnd(t, i + 2)
    else BlockClose(t, i + 2)
  }

  // ----- the substitution -----

  function BlankChar(c: char): char { if c == '\n' then c else ' ' }

  function Blank(s: string): string {
    seq(|s|, k requires 0 <= k < |s| => BlankChar(s[k]))
  }

  function Replacement(t: string, i: nat): (r: string)
    requires i < |t|
    ensures |r| == TokenEnd(t, i) - i
  {
    var s := t[i..TokenEnd(t, i)];
    if KindOf(t, i) == Comment then Blank(s) else s
  }

  function StripFrom(t: string, i: nat): (r: string)
    requires i <= |t|
    ensures |r| == |t| - i
    decreases |t| - i
  {
    if i == |t| then "" else Replacement(t, i) + StripFrom(t, TokenEnd(t, i))
  }

  /** The text with its comments blanked. */
  function Strip(t: string): string { StripFrom(t, 0) }

  // ----- the pattern, said independently of the lexer -----

  /** The inside of a literal: escape pairs and characters other than the quote and the backslash. */
  predicate QuotedBody(s: string, quote: char) {
    if s == "" then true
    else if s[0] == '\\' then |s| >= 2 && QuotedBody(s[2..], quote)
    else s[0] != quote && QuotedBody(s[1..], quote)
  }

  ghost predicate IsLiteral(s: string) {
    && |s| >= 2 && (s[0] == '"' || s[0] == '\'') && s[|s| - 1] == s[0]
    && QuotedBody(s[1..|s| - 1], s[0])
  }

  ghost predicate IsBlockComment(s: string) {
    && |s| >= 4 && s[0] == '/' && s[1] == '*' && s[|s| - 2] == '*' && s[|s| - 1] == '/'
    && forall k | 2 <= k < |s| - 2 :: !(s[k] == '*' && s[k + 1] == '/')
  }

  ghost predicate IsLineComment(s: string) {
    |s| >= 2 && s[0] == '/' && s[1] == '/' && '\n' !in s
  }

  /** The stretch from i to e is what the pattern matches at i: a literal, a block comment up to its first
      close, or a line comment up to the end of its line. */
  ghost predicate Matches(t: string, i: nat, e: nat, kind: Kind) {
    && i < e <= |t|
    && match kind
       case Plain => false
       case Literal => IsLiteral(t[i..e])
       case Comment => IsBlockComment(t[i..e]) || (IsLineComment(t[i..e]) && (e == |t| || t[e] == '\n'))
  }

  lemma {:induction false} QuoteCloseIsBody(t: string, i: nat, quote: char, e: nat)
    requires i < e <= |t| && quote != '\\'
    ensures QuoteClose(t, i, quote) == e <==> t[e - 1] == quote && QuotedBody(t[i..e - 1], quote)
    decreases e - i
  {
    var s := t[i..e - 1];
    if t[i] == '\\' {
      if i + 2 < e {
        QuoteCloseIsBody(t, i + 2, quote, e);
        assert s[2..] == t[i + 2..e - 1];
      }
    } else if i + 1 < e {
      QuoteCloseIsBody(t, i + 1, quote, e);
      assert s[1..] == t[i + 1..e - 1];
    }
  }

  lemma {:induction false} LineEndIsFirst(t: string, i: nat, e: nat)
    requires i <= e <= |t|
    ensures LineEnd(t, i) == e <==> (e == |t| || t[e] == '\n') && forall k | i <= k < e :: t[k] != '\n'
    decreases |t| - i
  {
    if i < |t| && t[i] != '\n' && i < e {
      LineEndIsFirst(t, i + 1, e);
    }
  }

  lemma {:induction false} BlockCloseIsFirst(t: string, i: nat, e: nat)
    requires i + 2 <= e <= |t|
    ensures BlockClose(t, i) == e <==>
            StarSlash(t, e - 2) && forall k | i <= k < e - 2 :: !StarSlash(t, k)
    decreases |t| - i
  {
    if !StarSlash(t, i) && i + 2 < e {
      BlockCloseIsFirst(t, i + 1, e);
    }
  }

  lemma LiteralMatch(t: string, i: nat, e: nat)
    requires i + 2 <= e <= |t| && (t[i] == '"' || t[i] == '\'')
    ensures IsLiteral(t[i..e]) <==> QuoteClose(t, i + 1, t[i]) == e
  {
    hide QuoteClose, QuotedBody;
    QuoteCloseIsBody(t, i + 1, t[i], e);
    var s, inner := t[i..e], t[i + 1..e - 1];
    assert |s[1..|s| - 1]| == |inner|;
    assert forall k | 0 <= k < |inner| :: s[1..|s| - 1][k] == s[k + 1] == t[i + 1 + k] == inner[k];
    assert s[1..|s| - 1] == inner;
  }

  lemma LineMatch(t: string, i: nat, e: nat)
    requires i + 2 <= e <= |t| && SlashThen(t, i, '/')
    ensures IsLineComment(t[i..e]) && (e == |t| || t[e] == '\n') <==> LineEnd(t, i + 2) == e
  {
    hide LineEnd;
    LineEndIsFirst(t, i + 2, e);
    var s := t[i..e];
    assert forall k | i <= k < e :: t[k] == s[k - i];
  }

  lemma BlockMatch(t: string, i: nat, e: nat)
    requires i + 4 <= e <= |t| && SlashThen(t, i, '*')
    ensures IsBlockComment(t[i..e]) <==> BlockClose(t, i + 2) == e
  {
    hide BlockClose;
    BlockCloseIsFirst(t, i + 2, e);
    var s := t[i..e];
    forall k | 2 <= k < |s| - 1 ensures StarSlash(t, i + k) <==> s[k] == '*' && s[k + 1] == '/' {
      assert t[i + k] == s[k] && t[i + k + 1] == s[k + 1];
    }
    forall k | i + 2 <= k < e - 1 ensures StarSlash(t, k) <==> s[k - i] == '*' && s[k - i + 1] == '/' {
      assert t[k] == s[k - i] && t[k + 1] == s[k - i + 1];
    }
  }

  /** The lexer finds exactly the matches of the pattern, and where it finds none there is none. */
  lemma LexerIsPattern(t: string, i: nat, e: nat, kind: Kind)
    requires i < |t| && kind != Plain
    ensures Matches(t, i, e, kind) <==> KindOf(t, i) == kind && TokenEnd(t, i) == e
  {
    hide QuoteClose, LineEnd, BlockClose, QuotedBody;
    if i + 2 <= e <= |t| {
      var s := t[i..e];
      assert s[0] == t[i] && s[1] == t[i + 1];
      if t[i] == '"' || t[i] == '\'' {
        LiteralMatch(t, i, e);
      } else if SlashThen(t, i, '/') {
        LineMatch(t, i, e);
      } else if SlashThen(t, i, '*') && i + 4 <= e {
        BlockMatch(t, i, e);
      }
    }
  }

  // ----- what the substitution changes -----

  /** The start of the token that holds position k, for tokens counted from i. */
  function TokenOf(t: string, i: nat, k: nat): (r: nat)
    requires i <= k < |t|
    ensures i <= r <= k < TokenEnd(t, r)
    decreases |t| - i
  {
    if k < TokenEnd(t, i) then i else TokenOf(t, TokenEnd(t, i), k)
  }

  predicate InComment(t: string, k: nat)
    requires k < |t|
  {
    KindOf(t, TokenOf(t, 0, k)) == Comment
  }

  lemma {:induction false} StripFromAt(t: string, i: nat, k: nat)
    requires i <= k < |t|
    ensures StripFrom(t, i)[k - i] == if KindOf(t, TokenOf(t, i, k)) == Comment then BlankChar(t[k]) else t[k]
    decreases |t| - i
  {
    hide KindOf, Replacement, TokenEnd;
    if k < TokenEnd(t, i) {
      ReplacementAt(t, i, k);
    } else {
      StripFromAt(t, TokenEnd(t, i), k);
    }
  }

  lemma ReplacementAt(t: string, i: nat, k: nat)
    requires i <= k < |t| && k < TokenEnd(t, i)
    ensures Replacement(t, i)[k - i] == if KindOf(t, i) == Comment then BlankChar(t[k]) else t[k]
  {
    hide KindOf, TokenEnd;
  }

  /** The length and the line breaks stay; a character changes exactly if it stands in a comment and is
      neither a line break nor already a space, and then it becomes a space. */
  lemma OnlyCommentsChange(t: string)
    ensures |Strip(t)| == |t|
    ensures forall k | 0 <= k < |t| ::
              && (Strip(t)[k] == '\n' <==> t[k] == '\n')
              && (Strip(t)[k] != t[k] <==> InComment(t, k) && t[k] != '\n' && t[k] != ' ')
              && (Strip(t)[k] != t[k] ==> Strip(t)[k] == ' ')
  {
    hide KindOf, StripFrom;
    forall k | 0 <= k < |t|
      ensures Strip(t)[k] == if InComment(t, k) then BlankChar(t[k]) else t[k]
    {
      StripFromAt(t, 0, k);
    }
  }

  // ----- blanking a second time -----

  lemma StripFromParts(t: string, i: nat, t': string)
    requires i < |t| == |t'| && t'[i..] == StripFrom(t, i)
    ensures t'[i..TokenEnd(t, i)] == Replacement(t, i)
    ensures t'[TokenEnd(t, i)..] == StripFrom(t, TokenEnd(t, i))
  {
    hide KindOf, TokenEnd, Replacement;
    var e := TokenEnd(t, i);
    assert t'[i..e] == t'[i..][..e - i];
    assert t'[e..] == t'[i..][e - i..];
  }

  ghost predicate BlankBetween(t: string, i: nat, j: nat) {
    i <= j <= |t| && forall k | i <= k < j :: t[k] == ' ' || t[k] == '\n'
  }

  lemma ReplacementIs(t: string, i: nat, t': string)
    requires i < |t| == |t'| && t'[i..TokenEnd(t, i)] == Replacement(t, i)
    ensures KindOf(t, i) == Comment ==> BlankBetween(t', i, TokenEnd(t, i))
    ensures KindOf(t, i) != Comment ==> forall k | i <= k < TokenEnd(t, i) :: t'[k] == t[k]
  {
    hide KindOf, TokenEnd;
    var e := TokenEnd(t, i);
    forall k | i <= k < e ensures t'[k] == Replacement(t, i)[k - i] {
      assert t'[i..e][k - i] == t'[k];
    }
  }

  lemma {:induction false} BlanksPass(t: string, i: nat, j: nat)
    requires BlankBetween(t, i, j) && StripFrom(t, j) == t[j..]
    ensures StripFrom(t, i) == t[i..]
    decreases j - i
  {
    hide KindOf, TokenEnd, Replacement;
    if i < j {
      BlankIsPlain(t, i);
      BlanksPass(t, i + 1, j);
      assert t[i..] == t[i..i + 1] + t[i + 1..];
    }
  }

  lemma BlankIsPlain(t: string, i: nat)
    requires i < |t| && (t[i] == ' ' || t[i] == '\n')
    ensures KindOf(t, i) == Plain && TokenEnd(t, i) == i + 1 && Replacement(t, i) == t[i..i + 1]
  {
  }

  /** Stars and slashes are never written, so a block comment without an end gets none. */
  lemma {:induction false} NoNewClose(t: string, i: nat, t': string)
    requires i <= |t| == |t'| && BlockClose(t, i) == -1
    requires forall k | i <= k < |t| :: t'[k] == t[k] || t'[k] == ' '
    ensures BlockClose(t', i) == -1
    decreases |t| - i
  {
    if i < |t| {
      NoNewClose(t, i + 1, t');
    }
  }

  lemma KeptOrBlank(t: string, i: nat, t': string)
    requires i <= |t| == |t'| && t'[i..] == StripFrom(t, i)
    ensures forall k | i <= k < |t| :: t'[k] == t[k] || t'[k] == ' '
  {
    hide StripFrom, KindOf, TokenEnd;
    forall k | i <= k < |t| ensures t'[k] == t[k] || t'[k] == ' ' {
      StripFromAt(t, i, k);
      assert t'[i..][k - i] == t'[k];
    }
  }

  /** From i on no quote closes a literal; `esc` says that a backslash stands just before. */
  predicate Unclosed(t: string, i: nat, quote: char, esc: bool)
    decreases |t| - i
  {
    i >= |t| || (if esc then Unclosed(t, i + 1, quote, false)
                 else t[i] != quote && Unclosed(t, i + 1, quote, t[i] == '\\'))
  }

  lemma {:induction false} UnclosedIsNoClose(t: string, i: nat, quote: char)
    requires quote != '\\'
    ensures Unclosed(t, i, quote, false) <==> QuoteClose(t, i, quote) == -1
    decreases |t| - i
  {
    if i < |t| {
      UnclosedIsNoClose(t, i + 1, quote);
      if i + 1 < |t| {
        UnclosedIsNoClose(t, i + 2, quote);
      }
    }
  }

  /** Whether position j is escaped, for a walk that starts at i in state `esc`. */
  predicate EscapedAt(t: string, i: nat, j: nat, esc: bool)
    requires i <= j <= |t|
  {
    if i == j then esc else !EscapedAt(t, i, j - 1, esc) && t[j - 1] == '\\'
  }

  lemma {:induction false} UnclosedLater(t: string, i: nat, j: nat, quote: char, esc: bool)
    requires i <= j <= |t| && Unclosed(t, i, quote, esc) && quote != '\\'
    ensures Unclosed(t, j, quote, EscapedAt(t, i, j, esc))
  {
    if i < j {
      UnclosedLater(t, i, j - 1, quote, esc);
    }
  }

  lemma {:induction false} UnclosedCopied(t: string, i: nat, j: nat, quote: char, esc: bool, t': string)
    requires i <= j <= |t| == |t'| && Unclosed(t, i, quote, esc) && quote != '\\'
    requires forall k | i <= k < j :: t'[k] == t[k]
    requires Unclosed(t', j, quote, EscapedAt(t, i, j, esc))
    ensures Unclosed(t', i, quote, esc)
    decreases j
  {
    if i < j {
      UnclosedLater(t, i, j - 1, quote, esc);
      UnclosedCopied(t, i, j - 1, quote, esc, t');
    }
  }

  lemma {:induction false} UnclosedBlank(t: string, i: nat, j: nat, quote: char, esc: bool)
    requires i < j && BlankBetween(t, i, j) && quote != ' ' && quote != '\n' && Unclosed(t, j, quote, false)
    ensures Unclosed(t, i, quote, esc)
    decreases j - i
  {
    if i + 1 < j {
      UnclosedBlank(t, i + 1, j, quote, false);
    }
  }

  /** Behind a comment nothing is escaped, or the line ends there. */
  lemma CommentEndsUnescaped(t: string, i: nat, esc: bool)
    requires i < |t| && KindOf(t, i) == Comment
    ensures var e := TokenEnd(t, i); EscapedAt(t, i, e, esc) ==> e == |t| || t[e] == '\n'
  {
    hide QuoteClose, BlockClose, LineEnd;
    var e := TokenEnd(t, i);
    if SlashThen(t, i, '/') {
      LineEndIsFirst(t, i + 2, e);
    } else {
      BlockCloseIsFirst(t, i + 2, e);
      assert e - 1 > i && t[e - 1] == '/';
    }
  }

  /** Blanking comments closes no literal: a quote that finds no partner still finds none. The escapes of the
      two walks may differ only where a line ends. */
  lemma {:induction false} StillUnclosed(t: string, i: nat, t': string, quote: char, esc: bool, esc': bool)
    requires i <= |t| == |t'| && t'[i..] == StripFrom(t, i) && (quote == '"' || quote == '\'')
    requires Unclosed(t, i, quote, esc) && (esc' == esc || i == |t| || t[i] == '\n')
    ensures Unclosed(t', i, quote, esc')
    decreases |t| - i
  {
    hide KindOf, TokenEnd, StripFrom, Replacement, EscapedAt;
    if i < |t| {
      var e := TokenEnd(t, i);
      var escEnd := EscapedAt(t, i, e, esc);
      StripFromParts(t, i, t');
      ReplacementIs(t, i, t');
      UnclosedLater(t, i, e, quote, esc);
      if t[i] == '\n' {
        BlankIsPlain(t, i);
        StillUnclosed(t, i + 1, t', quote, false, false);
      } else if KindOf(t, i) == Comment {
        CommentEndsUnescaped(t, i, esc);
        StillUnclosed(t, e, t', quote, escEnd, false);
        UnclosedBlank(t', i, e, quote, esc);
      } else {
        StillUnclosed(t, e, t', quote, escEnd, escEnd);
        UnclosedCopied(t, i, e, quote, esc, t');
      }
    }
  }

  lemma PlainStaysPlain(t: string, i: nat, t': string)
    requires i < |t| == |t'| && t'[i..] == StripFrom(t, i) && KindOf(t, i) == Plain
    ensures t'[i] == t[i] && KindOf(t', i) == Plain && TokenEnd(t, i) == TokenEnd(t', i) == i + 1
  {
    hide QuoteClose, BlockClose, LineEnd, StripFrom, Replacement;
    StripFromParts(t, i, t');
    ReplacementIs(t, i, t');
    KeptOrBlank(t, i, t');
    if t[i] == '"' || t[i] == '\'' {
      UnclosedIsNoClose(t, i + 1, t[i]);
      StillUnclosed(t, i + 1, t', t[i], false, false);
      UnclosedIsNoClose(t', i + 1, t[i]);
    } else if SlashThen(t, i, '*') {
      NoNewClose(t, i + 2, t');
    }
  }

  lemma LiteralStaysLiteral(t: string, i: nat, t': string)
    requires i < |t| == |t'| && t'[i..] == StripFrom(t, i) && KindOf(t, i) == Literal
    ensures KindOf(t', i) == Literal && TokenEnd(t', i) == TokenEnd(t, i)
    ensures t'[i..TokenEnd(t, i)] == t[i..TokenEnd(t, i)]
  {
    hide KindOf, TokenEnd, StripFrom;
    StripFromParts(t, i, t');
    LexerIsPattern(t, i, TokenEnd(t, i), Literal);
    LexerIsPattern(t', i, TokenEnd(t, i), Literal);
  }

  lemma {:induction false} StripAgain(t: string, i: nat, t': string)
    requires i <= |t| == |t'| && t'[i..] == StripFrom(t, i)
    ensures StripFrom(t', i) == t'[i..]
    decreases |t| - i
  {
    hide KindOf, TokenEnd;
    if i < |t| {
      var e := TokenEnd(t, i);
      StripFromParts(t, i, t');
      StripAgain(t, e, t');
      assert t'[i..] == t'[i..e] + t'[e..];
      if KindOf(t, i) == Comment {
        ReplacementIs(t, i, t');
        BlanksPass(t', i, e);
      } else if KindOf(t, i) == Literal {
        LiteralStaysLiteral(t, i, t');
      } else {
        PlainStaysPlain(t, i, t');
      }
    }
  }

  /** Blanking is idempotent on every text, with unterminated quotes and block comments too. */
  lemma StripIsIdempotent(t: string)
    ensures Strip(Strip(t)) == Strip(t)
  {
    hide StripFrom;
    StripAgain(t, 0, Strip(t));
    assert Strip(t)[0..] == Strip(t);
  }

  /** A digit separator opens a character literal, so a comment behind it can stay: with a second separator
      on the line the pattern takes what lies between them for one literal. */
  lemma DigitSeparatorShieldsComment()
    ensures var t := "1'0//2'3"; !InComment(t, 3) && Strip(t)[3] == '/'
  {
    var t := "1'0//2'3";
    hide StripFrom;
    assert QuoteClose(t, 6, '\'') == 7;
    assert QuoteClose(t, 4, '\'') == 7;
    assert QuoteClose(t, 2, '\'') == 7;
    assert TokenEnd(t, 0) == 1 && TokenOf(t, 1, 3) == 1;
    StripFromAt(t, 0, 3);
  }
}
