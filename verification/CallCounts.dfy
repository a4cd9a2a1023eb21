/** What the scan of a call finds, said by counting: which positions are code, which brackets stand before them,
    and where literals and comments end. */
module CallCounts {
  import opened CallScanner
  import opened CppText
  import CommentBlanker

  // ----- literals and comments -----

  lemma {:induction false} QuoteEndCloses(t: string, i: nat, quote: char)
    ensures var close := CommentBlanker.QuoteClose(t, i, quote);
            if close >= 0 then QuoteEnd(t, i, quote) == close else QuoteEnd(t, i, quote) > |t|
    decreases |t| - i
  {
    if i < |t| {
      if t[i] == '\\' {
        QuoteEndCloses(t, i + 2, quote);
        if i + 1 >= |t| {
          assert QuoteEnd(t, i + 2, quote) > |t|;
        }
      } else if t[i] != quote {
        QuoteEndCloses(t, i + 1, quote);
      }
    }
  }

  lemma {:induction false} BlockEndCloses(t: string, i: nat)
    ensures var close := CommentBlanker.BlockClose(t, i);
            if close >= 0 then BlockEnd(t, i) == close else BlockEnd(t, i) > |t|
    decreases |t| - i
  {
    if i + 1 < |t| && !CommentBlanker.StarSlash(t, i) {
      BlockEndCloses(t, i + 1);
    }
  }

  /** What is skipped at a position is a literal, from its quote to its closing quote; a line comment, up to the end
      of its line; a block comment, up to its first close; or nothing. What does not close reaches past the end. */
  lemma SkippedIs(t: string, i: nat, e: nat)
    requires i + 2 <= e <= |t|
    ensures t[i] == '"' || t[i] == '\'' ==> (SkipTo(t, i) == e <==> CommentBlanker.IsLiteral(t[i..e]))
    ensures SlashThen(t, i, '/') ==> (SkipTo(t, i) == e <==> CommentBlanker.IsLineComment(t[i..e]) && (e == |t| || t[e] == '\n'))
    ensures SlashThen(t, i, '*') ==> (SkipTo(t, i) == e <==> CommentBlanker.IsBlockComment(t[i..e]))
    ensures t[i] != '"' && t[i] != '\'' && !SlashThen(t, i, '/') && !SlashThen(t, i, '*') ==> SkipTo(t, i) == i
  {
    hide QuoteEnd, BlockEnd, LineEnd;
    hide CommentBlanker.QuoteClose, CommentBlanker.BlockClose, CommentBlanker.QuotedBody;
    if t[i] == '"' || t[i] == '\'' {
      QuoteEndCloses(t, i + 1, t[i]);
      CommentBlanker.LiteralMatch(t, i, e);
    } else if SlashThen(t, i, '/') {
      LineFromSlashes(t, i);
      CommentBlanker.LineMatch(t, i, e);
    } else if SlashThen(t, i, '*') {
      BlockEndCloses(t, i + 2);
      if i + 4 <= e {
        CommentBlanker.BlockMatch(t, i, e);
      }
    }
  }

  lemma LineFromSlashes(t: string, i: nat)
    requires SlashThen(t, i, '/')
    ensures LineEnd(t, i) == LineEnd(t, i + 2)
  {
    assert LineEnd(t, i) == LineEnd(t, i + 1) == LineEnd(t, i + 2);
  }

  // ----- brackets, counted -----

  /** A walk from i comes to position k and finds neither a literal nor a comment there. */
  predicate IsCode(t: string, i: nat, k: nat) {
    k < |t| && Reaches(t, i, k) && SkipTo(t, k) == k
  }

  /** Where c stands as code from i on before k, and how often. */
  ghost function CodePlaces(t: string, i: nat, k: nat, c: char): set<nat> {
    set j: nat | i <= j < k && IsCode(t, i, j) && t[j] == c
  }

  ghost function CodeCount(t: string, i: nat, k: nat, c: char): nat { |CodePlaces(t, i, k, c)| }

  /** Parentheses, braces and brackets opened and not closed before k. */
  ghost function OpenParens(t: string, i: nat, k: nat): int { CodeCount(t, i, k, '(') - CodeCount(t, i, k, ')') }

  ghost function OpenBraces(t: string, i: nat, k: nat): int { CodeCount(t, i, k, '{') - CodeCount(t, i, k, '}') }

  ghost function OpenBrackets(t: string, i: nat, k: nat): int { CodeCount(t, i, k, '[') - CodeCount(t, i, k, ']') }

  lemma CodeFromHere(t: string, i: nat, k: nat)
    requires i < |t|
    ensures SkipTo(t, i) > i ==> (IsCode(t, i, k) <==> IsCode(t, SkipTo(t, i), k))
    ensures SkipTo(t, i) == i ==> (IsCode(t, i, k) <==> k == i || IsCode(t, i + 1, k))
    ensures IsCode(t, i, k) ==> k >= i
    ensures IsCode(t, i + 1, k) ==> k > i
  {
    hide SkipTo;
  }

  lemma CountSkips(t: string, i: nat, k: nat, c: char)
    requires i < |t| && SkipTo(t, i) > i
    ensures CodeCount(t, i, k, c) == CodeCount(t, SkipTo(t, i), k, c)
  {
    hide SkipTo, IsCode;
    var j := SkipTo(t, i);
    forall n: nat ensures IsCode(t, i, n) <==> IsCode(t, j, n) && n >= j {
      CodeFromHere(t, i, n);
      CodeNotBefore(t, j, n);
    }
    assert CodePlaces(t, i, k, c) == CodePlaces(t, j, k, c);
  }

  lemma CodeNotBefore(t: string, i: nat, k: nat)
    ensures IsCode(t, i, k) ==> k >= i
  {
    hide SkipTo;
  }

  lemma CountSteps(t: string, i: nat, k: nat, c: char)
    requires i < |t| && SkipTo(t, i) == i && i < k
    ensures CodeCount(t, i, k, c) == CodeCount(t, i + 1, k, c) + if t[i] == c then 1 else 0
  {
    hide SkipTo, IsCode;
    forall n: nat
      ensures IsCode(t, i, n) <==> n == i || IsCode(t, i + 1, n)
      ensures IsCode(t, i + 1, n) ==> n > i
    {
      CodeFromHere(t, i, n);
    }
    var later := CodePlaces(t, i + 1, k, c);
    if t[i] == c {
      assert CodePlaces(t, i, k, c) == later + {i};
    } else {
      assert CodePlaces(t, i, k, c) == later;
    }
  }

  lemma CountNothing(t: string, k: nat, c: char)
    ensures CodeCount(t, k, k, c) == 0
  {
    assert CodePlaces(t, k, k, c) == {};
  }

  /** The depths a scan that starts at i with depths d has before k. */
  ghost function CountedDepth(t: string, i: nat, d: Depth, k: nat): Depth {
    Depth(d.paren + OpenParens(t, i, k), d.brace + OpenBraces(t, i, k), d.brack + OpenBrackets(t, i, k))
  }

  lemma DepthSkips(t: string, i: nat, d: Depth, k: nat)
    requires i < |t| && SkipTo(t, i) > i
    ensures CountedDepth(t, i, d, k) == CountedDepth(t, SkipTo(t, i), d, k)
  {
    hide CodeCount, SkipTo;
    forall c ensures CodeCount(t, i, k, c) == CodeCount(t, SkipTo(t, i), k, c) {
      CountSkips(t, i, k, c);
    }
  }

  lemma DepthSteps(t: string, i: nat, d: Depth, k: nat)
    requires i < |t| && SkipTo(t, i) == i && i < k
    ensures CountedDepth(t, i, d, k) == CountedDepth(t, i + 1, Move(d, t[i]), k)
  {
    hide CodeCount, SkipTo;
    forall c ensures CodeCount(t, i, k, c) == CodeCount(t, i + 1, k, c) + if t[i] == c then 1 else 0 {
      CountSteps(t, i, k, c);
    }
  }

  lemma DepthHere(t: string, d: Depth, k: nat)
    ensures CountedDepth(t, k, d, k) == d
  {
    hide CodeCount;
    forall c ensures CodeCount(t, k, k, c) == 0 {
      CountNothing(t, k, c);
    }
  }

  /** Where the scan from i with depths d closes: at code, a closing parenthesis with one open. */
  ghost predicate Closes(t: string, i: nat, d: Depth, k: nat) {
    IsCode(t, i, k) && t[k] == ')' && d.paren + OpenParens(t, i, k) == 1
  }

  /** Where an argument ends at a comma: at code, with one parenthesis open and no brace or bracket. */
  ghost predicate Separates(t: string, i: nat, d: Depth, k: nat) {
    && IsCode(t, i, k) && t[k] == ','
    && d.paren + OpenParens(t, i, k) == 1 && d.brace + OpenBraces(t, i, k) == 0 && d.brack + OpenBrackets(t, i, k) == 0
  }

  /** The scan finds exactly the commas that separate by the count, before the first parenthesis that closes by it;
      and its depths there are the counts. */
  lemma {:induction false} ScanCounts(t: string, i: nat, d: Depth, k: nat)
    ensures var r := ScanFrom(t, i, d);
            && (k in r.commas <==> Separates(t, i, d, k) && (r.end >= 0 ==> k < r.end))
            && (r.end == k ==> Closes(t, i, d, k) && r.exit == CountedDepth(t, i, d, k))
            && (Closes(t, i, d, k) ==> 0 <= r.end <= k)
    decreases |t| - i
  {
    hide ScanFrom, SkipTo, CodeCount, Move, Reaches, IsCode;
    if i >= |t| {
      NoCode(t, i, d, k);
    } else if SkipTo(t, i) > i {
      ScanSkips(t, i, d);
      CodeFromHere(t, i, k);
      DepthSkips(t, i, d, k);
      ScanCounts(t, SkipTo(t, i), d, k);
    } else {
      CodeFromHere(t, i, k);
      DepthHere(t, d, i);
      if t[i] == ')' && d.paren == 1 {
        ScanEnds(t, i, d);
        hide CountedDepth;
        EndsHere(t, i, d, k);
      } else {
        ScanStep(t, i, d);
        ScanCounts(t, i + 1, Move(d, t[i]), k);
        CommasInOrder(t, i + 1, Move(d, t[i]));
        if k > i {
          DepthSteps(t, i, d, k);
        }
      }
    }
  }

  lemma NoCode(t: string, i: nat, d: Depth, k: nat)
    requires i >= |t|
    ensures ScanFrom(t, i, d) == Scan([], -1, d) && !IsCode(t, i, k)
  {
  }

  lemma EndsHere(t: string, i: nat, d: Depth, k: nat)
    requires i < |t| && SkipTo(t, i) == i && t[i] == ')' && d.paren == 1 && CountedDepth(t, i, d, i) == d
    ensures IsCode(t, i, i) && d.paren + OpenParens(t, i, i) == 1
    ensures Separates(t, i, d, k) ==> k > i
    ensures Closes(t, i, d, k) ==> k >= i
  {
    hide SkipTo, CodeCount;
    CodeFromHere(t, i, k);
    CodeFromHere(t, i, i);
  }

  /** For a call whose arguments begin at p: a comma is one of its own exactly if it stands there as code, before the
      end, behind as many closing as opening parentheses, braces and brackets; and the call ends at the first
      parenthesis that closes more than were opened, or nowhere. */
  lemma CallByCounting(t: string, p: nat)
    ensures var r := ScanFrom(t, p, TOP);
            && (forall k: nat ::
                  k in r.commas <==>
                    && IsCode(t, p, k) && t[k] == ',' && (r.end >= 0 ==> k < r.end)
                    && CodeCount(t, p, k, '(') == CodeCount(t, p, k, ')')
                    && CodeCount(t, p, k, '{') == CodeCount(t, p, k, '}')
                    && CodeCount(t, p, k, '[') == CodeCount(t, p, k, ']'))
            && (forall k: nat ::
                  r.end == k <==>
                    && IsCode(t, p, k) && t[k] == ')' && CodeCount(t, p, k, '(') == CodeCount(t, p, k, ')')
                    && forall j: nat | j < k && IsCode(t, p, j) && t[j] == ')' ::
                         CodeCount(t, p, j, '(') != CodeCount(t, p, j, ')'))
  {
    hide ScanFrom, IsCode, CodeCount;
    var r := ScanFrom(t, p, TOP);
    forall k: nat
      ensures k in r.commas <==> Separates(t, p, TOP, k) && (r.end >= 0 ==> k < r.end)
      ensures r.end == k ==> Closes(t, p, TOP, k)
      ensures Closes(t, p, TOP, k) ==> 0 <= r.end <= k
    {
      ScanCounts(t, p, TOP, k);
    }
  }
}
