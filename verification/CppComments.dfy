/** Comments as C++ reads them, where a quote inside a number is a digit separator, a raw string is one literal
    and other literals end on their line, and when the comment blanker, whose pattern knows none of this, blanks
    exactly those. */
module CppComments {
  import opened CommentBlanker
  import opened CppText

  // ----- the lexer of C++ -----

  /** Where a number that goes on at i ends; a quote before a word character separates digits. */
  function NumberEnd(t: string, i: nat): (r: nat)
    requires i <= |t|
    ensures i <= r <= |t|
    decreases |t| - i
  {
    if i == |t| then i
    else if IsWordChar(t[i]) || t[i] == '.' then NumberEnd(t, i + 1)
    else if t[i] == '\'' && i + 1 < |t| && IsWordChar(t[i + 1]) then NumberEnd(t, i + 2)
    else if (t[i] == '+' || t[i] == '-') && i > 0 && t[i - 1] in "eEpP" then NumberEnd(t, i + 1)
    else i
  }

  function WordEnd(t: string, i: nat): (r: nat)
    requires i <= |t|
    ensures i <= r <= |t| && forall k | i <= k < r :: IsWordChar(t[k])
    decreases |t| - i
  {
    if i < |t| && IsWordChar(t[i]) then WordEnd(t, i + 1) else i
  }

  /** The parenthesis behind the delimiter of a raw string that goes on at i; -1 if there is none. */
  function DelimiterEnd(t: string, i: nat, left: nat): (r: int)
    ensures r == -1 || i <= r < |t|
    decreases left
  {
    if i >= |t| || t[i] in " )\\\t\n\"" then -1
    else if t[i] == '(' then i
    else if left == 0 then -1
    else DelimiterEnd(t, i + 1, left - 1)
  }

  /** The position behind the first occurrence of `end` at or behind i; -1 if there is none. */
  function Behind(t: string, i: nat, end: string): (r: int)
    ensures r == -1 || i + |end| <= r <= |t|
    decreases |t| - i
  {
    if i + |end| > |t| then -1
    else if t[i..i + |end|] == end then i + |end|
    else Behind(t, i + 1, end)
  }

  /** The position behind a raw string whose opening quote is just before i; -1 if it does not close. */
  function RawClose(t: string, i: nat): (r: int)
    ensures r == -1 || i < r <= |t|
  {
    var open := DelimiterEnd(t, i, 16);
    if open < 0 then -1 else Behind(t, open + 1, ")" + t[i..open] + "\"")
  }

  predicate IsRaw(t: string, i: nat, e: nat)
    requires i <= e <= |t|
  {
    t[i..e] in ["R", "LR", "uR", "UR", "u8R"] && e < |t| && t[e] == '"' && RawClose(t, e + 1) >= 0
  }

  datatype Token = Token(kind: Kind, end: nat)

  /** A word, or the raw string it is the prefix of. */
  function WordToken(t: string, i: nat): (r: Token)
    requires i < |t|
    ensures i < r.end <= |t|
  {
    var e := WordEnd(t, i + 1);
    if IsRaw(t, i, e) then Token(Literal, RawClose(t, e + 1)) else Token(Plain, e)
  }

  predicate StartsNumber(t: string, i: nat)
    requires i < |t|
  {
    IsDigit(t[i]) || (t[i] == '.' && i + 1 < |t| && IsDigit(t[i + 1]))
  }

  /** The position behind the quote that closes a literal whose inside goes on at i, on the same line; -1 if none
      does. */
  function QuoteCloseOnLine(t: string, i: nat, quote: char): (r: int)
    ensures r == -1 || i < r <= |t|
    decreases |t| - i
  {
    if i >= |t| || t[i] == '\n' then -1
    else if t[i] == '\\' then if i + 1 < |t| then QuoteCloseOnLine(t, i + 2, quote) else -1
    else if t[i] == quote then i + 1
    else QuoteCloseOnLine(t, i + 1, quote)
  }

  /** A quote left open on its line is a token of its own. */
  predicate LeftOpen(t: string, i: nat)
    requires i < |t|
  {
    (t[i] == '"' || t[i] == '\'') && QuoteCloseOnLine(t, i + 1, t[i]) < 0
  }

  function CppToken(t: string, i: nat): (r: Token)
    requires i < |t|
    ensures i < r.end <= |t|
  {
    if StartsNumber(t, i) then Token(Plain, NumberEnd(t, i + 1))
    else if IsWordChar(t[i]) then WordToken(t, i)
    else if LeftOpen(t, i) then Token(Plain, i + 1)
    else if t[i] == '"' || t[i] == '\'' then Token(Literal, QuoteCloseOnLine(t, i + 1, t[i]))
    else Token(KindOf(t, i), TokenEnd(t, i))
  }

  /** A literal that closes on its line is one for the pattern too. */
  lemma {:induction false} ClosesAlike(t: string, i: nat, quote: char)
    requires QuoteCloseOnLine(t, i, quote) >= 0
    ensures QuoteClose(t, i, quote) == QuoteCloseOnLine(t, i, quote)
    decreases |t| - i
  {
    if t[i] == '\\' {
      ClosesAlike(t, i + 2, quote);
    } else if t[i] != quote {
      ClosesAlike(t, i + 1, quote);
    }
  }

  lemma LiteralAlike(t: string, i: nat)
    requires i < |t| && (t[i] == '"' || t[i] == '\'') && !LeftOpen(t, i)
    ensures CppToken(t, i) == Token(KindOf(t, i), TokenEnd(t, i)) && KindOf(t, i) == Literal
  {
    hide QuoteClose, QuoteCloseOnLine;
    ClosesAlike(t, i + 1, t[i]);
  }

  lemma OpenAlike(t: string, i: nat)
    requires i < |t| && LeftOpen(t, i) && QuoteClose(t, i + 1, t[i]) < 0
    ensures CppToken(t, i) == Token(KindOf(t, i), TokenEnd(t, i))
  {
    hide QuoteClose, QuoteCloseOnLine;
  }

  /** The start of the C++ token that holds position k, for tokens counted from i. */
  function CppTokenOf(t: string, i: nat, k: nat): (r: nat)
    requires i <= k < |t|
    ensures i <= r <= k < CppToken(t, r).end
    decreases |t| - i
  {
    if k < CppToken(t, i).end then i else CppTokenOf(t, CppToken(t, i).end, k)
  }

  predicate InCppComment(t: string, k: nat)
    requires k < |t|
  {
    CppToken(t, CppTokenOf(t, 0, k)).kind == Comment
  }

  /** What the blanker is for: the text with its C++ comments blanked. */
  function CppStrip(t: string): string {
    seq(|t|, k requires 0 <= k < |t| => if InCppComment(t, k) then BlankChar(t[k]) else t[k])
  }

  // ----- where comments start -----

  predicate StartsComment(t: string, c: nat) {
    c < |t| && TokenOf(t, 0, c) == c && KindOf(t, c) == Comment
  }

  predicate StartsCppComment(t: string, c: nat) {
    c < |t| && CppTokenOf(t, 0, c) == c && CppToken(t, c).kind == Comment
  }

  lemma {:induction false} TokenHolds(t: string, i: nat, c: nat, k: nat)
    requires i <= c <= k < |t| && TokenOf(t, i, c) == c && k < TokenEnd(t, c)
    ensures TokenOf(t, i, k) == c
    decreases |t| - i
  {
    hide TokenEnd;
    if c >= TokenEnd(t, i) {
      TokenHolds(t, TokenEnd(t, i), c, k);
    }
  }

  lemma {:induction false} TokenStarts(t: string, i: nat, k: nat)
    requires i <= k < |t|
    ensures TokenOf(t, i, TokenOf(t, i, k)) == TokenOf(t, i, k)
    decreases |t| - i
  {
    hide TokenEnd;
    if k >= TokenEnd(t, i) {
      TokenStarts(t, TokenEnd(t, i), k);
    }
  }

  lemma {:induction false} CppTokenHolds(t: string, i: nat, c: nat, k: nat)
    requires i <= c <= k < |t| && CppTokenOf(t, i, c) == c && k < CppToken(t, c).end
    ensures CppTokenOf(t, i, k) == c
    decreases |t| - i
  {
    hide CppToken;
    if c >= CppToken(t, i).end {
      CppTokenHolds(t, CppToken(t, i).end, c, k);
    }
  }

  lemma {:induction false} CppTokenStarts(t: string, i: nat, k: nat)
    requires i <= k < |t|
    ensures CppTokenOf(t, i, CppTokenOf(t, i, k)) == CppTokenOf(t, i, k)
    decreases |t| - i
  {
    hide CppToken;
    if k >= CppToken(t, i).end {
      CppTokenStarts(t, CppToken(t, i).end, k);
    }
  }

  /** A comment starts with a slash and ends alike for both. */
  lemma CommentsEndAlike(t: string, c: nat)
    requires c < |t|
    ensures KindOf(t, c) == Comment ==> t[c] == '/' && CppToken(t, c) == Token(Comment, TokenEnd(t, c))
    ensures CppToken(t, c).kind == Comment ==> t[c] == '/' && CppToken(t, c) == Token(Comment, TokenEnd(t, c)) && KindOf(t, c) == Comment
  {
    hide TokenEnd, NumberEnd, WordEnd, IsRaw, RawClose, QuoteClose, BlockClose;
  }

  lemma InCommentIs(t: string, k: nat)
    requires k < |t|
    ensures InComment(t, k) <==> exists c: nat :: c <= k && StartsComment(t, c) && k < TokenEnd(t, c)
  {
    hide TokenEnd, KindOf;
    var c := TokenOf(t, 0, k);
    TokenStarts(t, 0, k);
    if InComment(t, k) {
      assert StartsComment(t, c);
    }
    forall d: nat | d <= k && StartsComment(t, d) && k < TokenEnd(t, d) ensures InComment(t, k) {
      TokenHolds(t, 0, d, k);
    }
  }

  lemma InCppCommentIs(t: string, k: nat)
    requires k < |t|
    ensures InCppComment(t, k) <==> exists c: nat :: c <= k && StartsCppComment(t, c) && k < TokenEnd(t, c)
  {
    hide TokenEnd, KindOf, CppToken;
    var c := CppTokenOf(t, 0, k);
    CppTokenStarts(t, 0, k);
    CommentsEndAlike(t, c);
    if InCppComment(t, k) {
      assert StartsCppComment(t, c);
    }
    forall d: nat | d <= k && StartsCppComment(t, d) && k < TokenEnd(t, d) ensures InCppComment(t, k) {
      CommentsEndAlike(t, d);
      CppTokenHolds(t, 0, d, k);
    }
  }

  /** The two start a comment at the same places. */
  ghost predicate SameStarts(t: string) {
    forall c: nat :: StartsComment(t, c) <==> StartsCppComment(t, c)
  }

  lemma StripAt(t: string, k: nat)
    requires k < |t|
    ensures |Strip(t)| == |CppStrip(t)| == |t|
    ensures Strip(t)[k] == if InComment(t, k) then BlankChar(t[k]) else t[k]
    ensures CppStrip(t)[k] == if InCppComment(t, k) then BlankChar(t[k]) else t[k]
  {
    hide StripFrom, KindOf, CppToken, TokenOf, CppTokenOf;
    StripFromAt(t, 0, k);
  }

  /** If the results agree, so do the comments' starts: the slash of a start tells. */
  lemma {:induction false} StartsFromResult(t: string, c: nat)
    requires Strip(t) == CppStrip(t)
    ensures StartsComment(t, c) <==> StartsCppComment(t, c)
    decreases c
  {
    hide TokenEnd, KindOf, CppToken, InComment, InCppComment, Strip, CppStrip, TokenOf, CppTokenOf;
    if c < |t| {
      StripAt(t, c);
      InCommentIs(t, c);
      InCppCommentIs(t, c);
      StartIsSlash(t, c);
      if StartsComment(t, c) {
        assert InComment(t, c);
        var d: nat :| d <= c && StartsCppComment(t, d) && c < TokenEnd(t, d);
        if d < c {
          StartsFromResult(t, d);
          StartIsOwn(t, d, c);
        }
      }
      if StartsCppComment(t, c) {
        assert InCppComment(t, c);
        var d: nat :| d <= c && StartsComment(t, d) && c < TokenEnd(t, d);
        if d < c {
          StartsFromResult(t, d);
          CppStartIsOwn(t, d, c);
        }
      }
    } else {
      NoStart(t, c);
    }
  }

  lemma NoStart(t: string, c: nat)
    requires c >= |t|
    ensures !StartsComment(t, c) && !StartsCppComment(t, c)
  {
  }

  lemma StartIsSlash(t: string, c: nat)
    requires c < |t|
    ensures StartsComment(t, c) || StartsCppComment(t, c) ==> t[c] == '/' && BlankChar(t[c]) != t[c] && c < TokenEnd(t, c)
  {
    hide TokenEnd, KindOf, CppToken;
    CommentsEndAlike(t, c);
  }

  /** A comment does not start inside another one. */
  lemma StartIsOwn(t: string, d: nat, c: nat)
    requires StartsComment(t, d) && StartsComment(t, c) && d <= c < TokenEnd(t, d)
    ensures d == c
  {
    hide TokenEnd, KindOf;
    TokenHolds(t, 0, d, c);
  }

  lemma CppStartIsOwn(t: string, d: nat, c: nat)
    requires StartsCppComment(t, d) && StartsCppComment(t, c) && d <= c < TokenEnd(t, d)
    ensures d == c
  {
    hide TokenEnd, KindOf, CppToken;
    CommentsEndAlike(t, d);
    CppTokenHolds(t, 0, d, c);
  }

  lemma RightIfSameStarts(t: string)
    ensures Strip(t) == CppStrip(t) <==> SameStarts(t)
  {
    hide TokenEnd, KindOf, CppToken, InComment, InCppComment, Strip, CppStrip, StartsComment, StartsCppComment;
    if SameStarts(t) {
      SizesAgree(t);
      forall k | 0 <= k < |t| ensures Strip(t)[k] == CppStrip(t)[k] {
        StripAt(t, k);
        InCommentIs(t, k);
        InCppCommentIs(t, k);
      }
    }
    if Strip(t) == CppStrip(t) {
      forall c: nat ensures StartsComment(t, c) <==> StartsCppComment(t, c) {
        StartsFromResult(t, c);
      }
    }
  }

  /** A comment of C++ that starts inside a literal of the pattern. */
  predicate Shielded(t: string, c: nat) {
    StartsCppComment(t, c) && KindOf(t, TokenOf(t, 0, c)) == Literal
  }

  /** A comment of the pattern that starts inside a literal of C++. */
  predicate Mistaken(t: string, c: nat) {
    StartsComment(t, c) && CppToken(t, CppTokenOf(t, 0, c)).kind == Literal
  }

  /** No slash stands inside a C++ token that is neither a literal nor a comment. */
  lemma PlainHasNoSlash(t: string, d: nat, c: nat)
    requires d < c < |t| && CppToken(t, d).kind == Plain && c < CppToken(t, d).end
    ensures t[c] != '/'
  {
    hide KindOf, TokenEnd, RawClose, QuoteCloseOnLine;
    if StartsNumber(t, d) {
      NumberIsHarmless(t, d + 1);
    }
    PatternTokens(t, d);
  }

  lemma PatternTokens(t: string, c: nat)
    requires c < |t|
    ensures KindOf(t, c) == Plain ==> TokenEnd(t, c) == c + 1
    ensures KindOf(t, c) == Literal ==> t[c] == '"' || t[c] == '\''
  {
  }

  /** Without such comments the two start theirs at the same places: the first one to differ would be inside a
      literal of the other. */
  lemma {:induction false} StartsAlike(t: string, c: nat)
    requires forall d: nat :: !Shielded(t, d) && !Mistaken(t, d)
    ensures StartsComment(t, c) <==> StartsCppComment(t, c)
    decreases c
  {
    hide TokenEnd, KindOf, CppToken, TokenOf, CppTokenOf;
    assert !Shielded(t, c) && !Mistaken(t, c);
    if StartsCppComment(t, c) {
      var d := TokenOf(t, 0, c);
      TokenStarts(t, 0, c);
      CommentsEndAlike(t, c);
      PatternTokens(t, d);
      if d < c {
        assert KindOf(t, d) == Comment;
        StartsAlike(t, d);
        CppStartIsOwn(t, d, c);
      }
    }
    if StartsComment(t, c) {
      var d := CppTokenOf(t, 0, c);
      CppTokenStarts(t, 0, c);
      CommentsEndAlike(t, c);
      CommentsEndAlike(t, d);
      if d < c {
        if CppToken(t, d).kind == Plain {
          PlainHasNoSlash(t, d, c);
        }
        StartsAlike(t, d);
        StartIsOwn(t, d, c);
      }
    }
  }

  /** The blanker blanks exactly the C++ comments if and only if no C++ comment starts inside what its pattern takes
      for a literal, and none of its own starts inside a C++ literal. */
  lemma BlankingIsRightExactly(t: string)
    ensures Strip(t) == CppStrip(t) <==> forall c: nat :: !Shielded(t, c) && !Mistaken(t, c)
  {
    hide TokenEnd, KindOf, CppToken, TokenOf, CppTokenOf, Strip, CppStrip;
    RightIfSameStarts(t);
    if forall c: nat :: !Shielded(t, c) && !Mistaken(t, c) {
      forall c: nat ensures StartsComment(t, c) <==> StartsCppComment(t, c) {
        StartsAlike(t, c);
      }
    }
  }

  lemma SizesAgree(t: string)
    ensures |Strip(t)| == |CppStrip(t)| == |t|
  {
  }

  /** The family that fails: a C++ comment that starts inside what the pattern takes for a literal stays. */
  lemma StrayLiteralShieldsComment(t: string, k: nat, c: nat)
    requires k < c < |t| && TokenOf(t, 0, k) == k && KindOf(t, k) == Literal && c < TokenEnd(t, k)
    requires StartsCppComment(t, c)
    ensures |Strip(t)| == |CppStrip(t)| == |t| && Strip(t)[c] == '/' && CppStrip(t)[c] == ' '
  {
    hide TokenEnd, KindOf, CppToken, TokenOf, CppTokenOf;
    TokenHolds(t, 0, k, c);
    StripAt(t, c);
    StartIsSlash(t, c);
  }

  // ----- texts on which the pattern is right -----

  /** The pattern goes from i to e in whole tokens and finds no comment on its way. */
  ghost predicate Passes(t: string, i: nat, e: nat)
    decreases |t| - i
  {
    i == e || (i < e <= |t| && KindOf(t, i) != Comment && Passes(t, TokenEnd(t, i), e))
  }

  /** The pattern passes every number, word and raw string of C++ from i on. */
  ghost predicate InStep(t: string, i: nat)
    requires i <= |t|
    decreases |t| - i
  {
    i == |t| ||
    (&& (Passes(t, i, CppToken(t, i).end) || CppToken(t, i) == Token(KindOf(t, i), TokenEnd(t, i)))
     && InStep(t, CppToken(t, i).end))
  }

  lemma {:induction false} PassedTokens(t: string, i: nat, e: nat, k: nat)
    requires Passes(t, i, e) && i <= k < |t|
    ensures k < e ==> KindOf(t, TokenOf(t, i, k)) != Comment
    ensures k >= e ==> TokenOf(t, i, k) == TokenOf(t, e, k)
    decreases |t| - i
  {
    hide KindOf, TokenEnd;
    if i < e && k >= TokenEnd(t, i) {
      PassesBounds(t, TokenEnd(t, i), e);
      PassedTokens(t, TokenEnd(t, i), e, k);
    } else if i < e {
      PassesBounds(t, TokenEnd(t, i), e);
    }
  }

  lemma PassesBounds(t: string, i: nat, e: nat)
    requires Passes(t, i, e)
    ensures i <= e
  {
  }

  lemma {:induction false} InStepAgrees(t: string, i: nat, k: nat)
    requires i <= k < |t| && InStep(t, i)
    ensures KindOf(t, TokenOf(t, i, k)) == Comment <==> CppToken(t, CppTokenOf(t, i, k)).kind == Comment
    decreases |t| - i
  {
    hide KindOf, TokenEnd, CppToken, Passes;
    var e := CppToken(t, i).end;
    if CppToken(t, i) == Token(KindOf(t, i), TokenEnd(t, i)) {
      if k >= e {
        InStepAgrees(t, e, k);
      }
    } else {
      PassedTokens(t, i, e, k);
      NotAComment(t, i);
      if k >= e {
        InStepAgrees(t, e, k);
      }
    }
  }

  lemma NotAComment(t: string, i: nat)
    requires i < |t| && CppToken(t, i) != Token(KindOf(t, i), TokenEnd(t, i))
    ensures CppToken(t, i).kind != Comment
  {
    hide KindOf, TokenEnd;
  }

  /** On a text where the pattern keeps in step with C++ the blanker is right. */
  lemma InStepIsRight(t: string)
    requires InStep(t, 0)
    ensures Strip(t) == CppStrip(t)
  {
    hide KindOf, TokenEnd, CppToken, InStep, TokenOf, CppTokenOf, Strip, CppStrip;
    SizesAgree(t);
    forall k | 0 <= k < |t| ensures Strip(t)[k] == CppStrip(t)[k] {
      StripAt(t, k);
      InStepAgrees(t, 0, k);
    }
  }

  /** Characters of words and numbers, and what the pattern sees in them. */
  ghost predicate Harmless(t: string, i: nat, e: nat) {
    i <= e <= |t| && forall k | i <= k < e :: t[k] != '"' && t[k] != '\\' && t[k] != '/'
  }

  function NextQuote(t: string, i: nat, e: nat): (r: nat)
    requires i <= e <= |t|
    ensures i <= r <= e && (r < e ==> t[r] == '\'') && forall k | i <= k < r :: t[k] != '\''
    decreases e - i
  {
    if i == e || t[i] == '\'' then i else NextQuote(t, i + 1, e)
  }

  /** The quotes between i and e come in pairs. */
  predicate Paired(t: string, i: nat, e: nat)
    requires i <= e <= |t|
    decreases e - i
  {
    var j := NextQuote(t, i, e);
    j == e || (NextQuote(t, j + 1, e) < e && Paired(t, NextQuote(t, j + 1, e) + 1, e))
  }

  lemma {:induction false} PassesRun(t: string, i: nat, j: nat, e: nat)
    requires Harmless(t, i, e) && i <= j <= e && (forall k | i <= k < j :: t[k] != '\'') && Passes(t, j, e)
    ensures Passes(t, i, e)
    decreases j - i
  {
    if i < j {
      assert KindOf(t, i) == Plain && TokenEnd(t, i) == i + 1;
      PassesRun(t, i + 1, j, e);
    }
  }

  lemma {:induction false} ClosesAt(t: string, i: nat, j: nat, quote: char)
    requires i <= j < |t| && t[j] == quote && quote != '\\' && forall k | i <= k < j :: t[k] != '\\' && t[k] != quote
    ensures QuoteClose(t, i, quote) == j + 1
    decreases j - i
  {
    if i < j {
      ClosesAt(t, i + 1, j, quote);
    }
  }

  /** Digit separators that come in pairs do no harm. */
  lemma {:induction false} PairsPass(t: string, i: nat, e: nat)
    requires Harmless(t, i, e) && Paired(t, i, e)
    ensures Passes(t, i, e)
    decreases e - i
  {
    hide KindOf, TokenEnd, QuoteClose;
    var j := NextQuote(t, i, e);
    if j < e {
      var j2 := NextQuote(t, j + 1, e);
      PairsPass(t, j2 + 1, e);
      PairIsLiteral(t, j, j2);
    }
    PassesRun(t, i, j, e);
  }

  lemma PairIsLiteral(t: string, j: nat, j2: nat)
    requires j < j2 < |t| && t[j] == '\'' && t[j2] == '\'' && forall k | j < k < j2 :: t[k] != '\\' && t[k] != '\''
    ensures KindOf(t, j) == Literal && TokenEnd(t, j) == j2 + 1
  {
    ClosesAt(t, j + 1, j2, '\'');
    hide QuoteClose;
  }

  lemma {:induction false} NumberIsHarmless(t: string, i: nat)
    requires i <= |t|
    ensures Harmless(t, i, NumberEnd(t, i))
    decreases |t| - i
  {
    if i < NumberEnd(t, i) {
      NumberIsHarmless(t, if t[i] == '\'' then i + 2 else i + 1);
    }
  }

  /** A raw string without quotes and backslashes inside does no harm. */
  lemma PlainRawPasses(t: string, i: nat, q: nat, e: nat)
    requires i <= q && q + 1 < e <= |t| && (forall k | i <= k < q :: IsWordChar(t[k])) && t[q] == '"' && t[e - 1] == '"'
    requires forall k | q < k < e - 1 :: t[k] != '"' && t[k] != '\\'
    ensures Passes(t, i, e)
  {
    ClosesAt(t, q + 1, e - 1, '"');
    assert KindOf(t, q) == Literal && TokenEnd(t, q) == e;
    assert Passes(t, e, e);
    hide QuoteClose;
    WordsPass(t, i, q, e);
  }

  lemma {:induction false} WordsPass(t: string, i: nat, q: nat, e: nat)
    requires i <= q < |t| && (forall k | i <= k < q :: IsWordChar(t[k])) && Passes(t, q, e) && q <= e
    ensures Passes(t, i, e)
    decreases q - i
  {
    if i < q {
      WordsPass(t, i + 1, q, e);
      assert KindOf(t, i) == Plain && TokenEnd(t, i) == i + 1;
      assert i < e <= |t| by { PassesWithin(t, q, e); }
    }
  }

  lemma {:induction false} PassesWithin(t: string, i: nat, e: nat)
    requires Passes(t, i, e) && i <= |t|
    ensures e <= |t|
    decreases |t| - i
  {
  }

  /** No number of C++ from i on has an unpaired separator, no raw string a quote or backslash inside, and no quote
      left open on its line is closed on a later one. */
  ghost predicate Ordinary(t: string, i: nat)
    requires i <= |t|
    decreases |t| - i
  {
    i < |t| ==>
    var r := CppToken(t, i);
    && (StartsNumber(t, i) ==> Paired(t, i, r.end))
    && (r.kind == Literal && IsWordChar(t[i]) ==>
          && WordEnd(t, i) + 1 < r.end && t[WordEnd(t, i)] == '"'
          && forall k | WordEnd(t, i) < k < r.end - 1 :: t[k] != '"' && t[k] != '\\')
    && (LeftOpen(t, i) ==> QuoteClose(t, i + 1, t[i]) < 0)
    && Ordinary(t, r.end)
  }

  lemma OrdinaryNumber(t: string, i: nat)
    requires i < |t| && StartsNumber(t, i) && Paired(t, i, CppToken(t, i).end)
    ensures Passes(t, i, CppToken(t, i).end)
  {
    hide Passes, Paired, NumberEnd, Harmless;
    NumberIsHarmless(t, i + 1);
    HarmlessFrom(t, i, NumberEnd(t, i + 1));
    PairsPass(t, i, NumberEnd(t, i + 1));
  }

  lemma HarmlessFrom(t: string, i: nat, e: nat)
    requires i < |t| && StartsNumber(t, i) && Harmless(t, i + 1, e)
    ensures Harmless(t, i, e)
  {
  }

  lemma OrdinaryRaw(t: string, i: nat)
    requires i < |t| && !StartsNumber(t, i) && IsWordChar(t[i]) && CppToken(t, i).kind == Literal
    requires var r := CppToken(t, i);
             && WordEnd(t, i) + 1 < r.end && t[WordEnd(t, i)] == '"'
             && forall k | WordEnd(t, i) < k < r.end - 1 :: t[k] != '"' && t[k] != '\\'
    ensures Passes(t, i, CppToken(t, i).end)
  {
    hide Passes, RawClose, IsWordChar, StartsNumber;
    RawEndsInQuote(t, WordEnd(t, i + 1) + 1);
    PlainRawPasses(t, i, WordEnd(t, i), CppToken(t, i).end);
  }

  lemma OrdinaryWord(t: string, i: nat)
    requires i < |t| && !StartsNumber(t, i) && IsWordChar(t[i]) && CppToken(t, i).kind == Plain
    ensures Passes(t, i, CppToken(t, i).end)
  {
    hide Passes, RawClose;
    var e := WordEnd(t, i + 1);
    EmptyPass(t, e);
    assert Harmless(t, i, e);
    PassesRun(t, i, e, e);
  }

  lemma OrdinaryToken(t: string, i: nat)
    requires i < |t| && Ordinary(t, i)
    ensures Passes(t, i, CppToken(t, i).end) || CppToken(t, i) == Token(KindOf(t, i), TokenEnd(t, i))
  {
    hide Passes, Paired, KindOf, TokenEnd, IsWordChar, StartsNumber, WordEnd, IsRaw, RawClose, QuoteClose, QuoteCloseOnLine;
    if StartsNumber(t, i) {
      OrdinaryNumber(t, i);
    } else if IsWordChar(t[i]) {
      if CppToken(t, i).kind == Literal {
        OrdinaryRaw(t, i);
      } else {
        OrdinaryWord(t, i);
      }
    } else if LeftOpen(t, i) {
      OpenAlike(t, i);
    } else if t[i] == '"' || t[i] == '\'' {
      LiteralAlike(t, i);
    }
  }

  lemma EmptyPass(t: string, e: nat)
    ensures Passes(t, e, e)
  {
  }

  lemma {:induction false} BehindIs(t: string, i: nat, end: string)
    requires Behind(t, i, end) >= 0
    ensures var r := Behind(t, i, end); r >= |end| && t[r - |end|..r] == end
    decreases |t| - i
  {
    if t[i..i + |end|] != end {
      BehindIs(t, i + 1, end);
    }
  }

  lemma RawEndsInQuote(t: string, i: nat)
    requires RawClose(t, i) >= 0
    ensures t[RawClose(t, i) - 1] == '"'
  {
    hide Behind, DelimiterEnd;
    var open := DelimiterEnd(t, i, 16);
    var end := ")" + t[i..open] + "\"";
    var r := RawClose(t, i);
    BehindIs(t, open + 1, end);
    LastOfSlice(t, r - |end|, r, end);
  }

  lemma LastOfSlice(t: string, a: nat, b: nat, s: string)
    requires a < b <= |t| && t[a..b] == s
    ensures t[b - 1] == s[|s| - 1]
  {
  }

  lemma {:induction false} OrdinaryIsInStep(t: string, i: nat)
    requires i <= |t| && Ordinary(t, i)
    ensures InStep(t, i)
    decreases |t| - i
  {
    hide KindOf, TokenEnd, CppToken, Passes, Paired;
    if i < |t| {
      OrdinaryToken(t, i);
      OrdinaryIsInStep(t, CppToken(t, i).end);
    }
  }

  /** So the blanker is right on every text whose numbers pair their separators, whose raw strings hold neither
      quotes nor backslashes, and whose quotes close on their line or not at all. */
  lemma OrdinaryIsRight(t: string)
    requires Ordinary(t, 0)
    ensures Strip(t) == CppStrip(t)
  {
    hide InStep, Ordinary, Strip, CppStrip;
    OrdinaryIsInStep(t, 0);
    InStepIsRight(t);
  }

  const RAW := "R\"(\")\"//\""

  lemma RawToken()
    ensures CppToken(RAW, 0) == Token(Literal, 6)
  {
    var t := RAW;
    assert WordEnd(t, 1) == 1;
    assert DelimiterEnd(t, 2, 16) == 2;
    var end := ")" + t[2..2] + "\"";
    assert end == ")\"";
    assert t[3..5] != end by { assert t[3..5][0] == '"'; }
    assert t[4..6] == end;
    assert Behind(t, 4, end) == 6;
    assert Behind(t, 3, end) == 6;
    assert RawClose(t, 2) == 6;
    assert t[0..1] == "R";
  }

  /** For one: behind the raw string that holds a quote the comment stays, because the pattern takes the string's
      last quote and the one in the comment for a literal around the comment's slashes. */
  lemma RawStringShieldsComment()
    ensures StartsCppComment(RAW, 6) && |Strip(RAW)| == 9 && Strip(RAW)[6] == '/' && CppStrip(RAW)[6] == ' '
  {
    hide StripFrom, Behind, DelimiterEnd, RawClose, WordEnd;
    var t := RAW;
    RawToken();
    assert CppToken(t, 6).kind == Comment && CppTokenOf(t, 6, 6) == 6;
    hide CppToken;
    ClosesAt(t, 2, 3, '"');
    ClosesAt(t, 6, 8, '"');
    assert TokenEnd(t, 0) == 1 && TokenEnd(t, 1) == 4 && TokenEnd(t, 4) == 5 && TokenEnd(t, 5) == 9;
    assert KindOf(t, 5) == Literal;
    hide TokenEnd, KindOf;
    assert TokenOf(t, 4, 5) == 5;
    assert TokenOf(t, 1, 5) == 5;
    StrayLiteralShieldsComment(t, 5, 6);
  }

  const APOSTROPHE := "'\n//\n'"

  /** And behind a quote left open on its line: the pattern looks for its partner on later lines. */
  lemma OpenQuoteShieldsComment()
    ensures StartsCppComment(APOSTROPHE, 2) && |Strip(APOSTROPHE)| == 6 && Strip(APOSTROPHE)[2] == '/' && CppStrip(APOSTROPHE)[2] == ' '
  {
    hide StripFrom, WordEnd, RawClose, QuoteClose;
    var t := APOSTROPHE;
    assert QuoteCloseOnLine(t, 1, '\'') == -1;
    assert CppToken(t, 0) == Token(Plain, 1) && CppToken(t, 1) == Token(Plain, 2) && CppToken(t, 2).kind == Comment;
    hide CppToken, QuoteCloseOnLine;
    assert CppTokenOf(t, 2, 2) == 2 && CppTokenOf(t, 1, 2) == 2;
    ClosesAt(t, 1, 5, '\'');
    assert KindOf(t, 0) == Literal && TokenEnd(t, 0) == 6;
    hide KindOf, TokenEnd;
    StrayLiteralShieldsComment(t, 0, 2);
  }
}
