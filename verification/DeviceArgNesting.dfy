/** What rewriting one call does to a call around it. If the inner call stands in the outer one as code, the
    outer one keeps its argument count; inside a comment it need not. */
module DeviceArgNesting {
  import opened CallScanner
  import opened CppText
  import opened DeviceArg
  import opened DeviceArgProofs
  import opened DeviceArgRescan

  /** The scan from position i at depth d comes to position j, outside literals and comments, at depth dj,
      having found n separating commas on its way. */
  ghost predicate Leads(t: string, i: nat, d: Depth, j: nat, dj: Depth, n: nat)
    decreases |t| - i
  {
    if i == j then d == dj && n == 0
    else
      && i < j <= |t|
      && if SkipTo(t, i) > i then Leads(t, SkipTo(t, i), d, j, dj, n)
         else
           && !(t[i] == ')' && d.paren == 1)
           && var k := if t[i] == ',' && d == TOP then 1 else 0;
              n >= k && Leads(t, i + 1, Move(d, t[i]), j, dj, n - k)
  }

  lemma {:induction false} LeadsScans(t: string, i: nat, d: Depth, j: nat, dj: Depth, n: nat)
    requires Leads(t, i, d, j, dj, n)
    ensures var r, s := ScanFrom(t, i, d), ScanFrom(t, j, dj);
            |r.commas| == n + |s.commas| && r.end == s.end
    decreases |t| - i
  {
    hide SkipTo, Move;
    if i != j {
      if SkipTo(t, i) > i {
        ScanSkips(t, i, d);
        LeadsScans(t, SkipTo(t, i), d, j, dj, n);
      } else {
        var k := if t[i] == ',' && d == TOP then 1 else 0;
        ScanStep(t, i, d);
        LeadsScans(t, i + 1, Move(d, t[i]), j, dj, n - k);
      }
    }
  }

  /** A scan that started inside a call stays inside it. */
  lemma {:induction false} LeadsStaysInside(t: string, i: nat, d: Depth, j: nat, dj: Depth, n: nat)
    requires Leads(t, i, d, j, dj, n) && d.paren >= 1
    ensures dj.paren >= 1 && i <= j
    decreases |t| - i
  {
    hide SkipTo;
    if i != j {
      if SkipTo(t, i) > i {
        LeadsStaysInside(t, SkipTo(t, i), d, j, dj, n);
      } else {
        var k := if t[i] == ',' && d == TOP then 1 else 0;
        LeadsStaysInside(t, i + 1, Move(d, t[i]), j, dj, n - k);
      }
    }
  }

  /** The same way leads through any text that agrees up to j, if a word character follows in both. */
  lemma {:induction false} LeadsReplays(t: string, i: nat, d: Depth, j: nat, dj: Depth, n: nat, t': string)
    requires Leads(t, i, d, j, dj, n) && i <= j < |t| && j < |t'| && t[..j] == t'[..j]
    requires IsWordChar(t[j]) && IsWordChar(t'[j])
    ensures Leads(t', i, d, j, dj, n)
    decreases |t| - i
  {
    hide SkipTo, Move, IsWordChar;
    if i != j {
      SkipReplays(t, i, j, t');
      assert t[..j][i] == t'[..j][i];
      if SkipTo(t, i) > i {
        LeadsBounds(t, SkipTo(t, i), d, j, dj, n);
        LeadsReplays(t, SkipTo(t, i), d, j, dj, n, t');
      } else {
        var k := if t[i] == ',' && d == TOP then 1 else 0;
        LeadsReplays(t, i + 1, Move(d, t[i]), j, dj, n - k, t');
      }
    }
  }

  lemma LeadsBounds(t: string, i: nat, d: Depth, j: nat, dj: Depth, n: nat)
    requires Leads(t, i, d, j, dj, n)
    ensures i <= j
  {
  }

  lemma SkipReplays(t: string, i: nat, j: nat, t': string)
    requires i < j < |t| && j < |t'| && t[..j] == t'[..j] && SkipTo(t, i) <= j
    requires IsWordChar(t[j]) && IsWordChar(t'[j])
    ensures SkipTo(t', i) == SkipTo(t, i)
  {
    assert forall k | 0 <= k < j :: t[k] == t[..j][k] == t'[..j][k] == t'[k];
    if t[i] == '"' || t[i] == '\'' {
      QuoteEndMoves(t, i + 1, t[i], t', i + 1);
    } else if SlashThen(t, i, '/') {
      LineEndStays(t, i, j, t');
    } else if SlashThen(t, i, '*') {
      BlockEndMoves(t, i + 2, t', i + 2);
    }
  }

  lemma {:induction false} LineEndStays(t: string, i: nat, j: nat, t': string)
    requires i < |t| && j < |t| && j < |t'| && LineEnd(t, i) <= j && forall k | 0 <= k < j :: t[k] == t'[k]
    ensures LineEnd(t, i) < j ==> LineEnd(t', i) == LineEnd(t, i)
    ensures LineEnd(t, i) == j ==> t[j] == '\n'
    decreases |t| - i
  {
    if t[i] != '\n' {
      LineEndStays(t, i + 1, j, t');
    }
  }

  function Plus(d: Depth, off: Depth): Depth {
    Depth(d.paren + off.paren, d.brace + off.brace, d.brack + off.brack)
  }

  lemma MovePlus(d: Depth, off: Depth, c: char)
    ensures Move(Plus(d, off), c) == Plus(Move(d, c), off)
  {
  }

  /** Scanned from inside an outer call, an inner call separates nothing: the outer scan passes from its
      parenthesis to behind its end without a comma. */
  lemma {:induction false} InnerCallIsOneStretch(t: string, i: nat, d: Depth, off: Depth)
    requires d.paren >= 1 && off.paren >= 1 && ScanFrom(t, i, d).end >= 0
    ensures var r := ScanFrom(t, i, d);
            ScanFrom(t, i, Plus(d, off)) == ScanFrom(t, r.end + 1, Plus(r.exit, off).(paren := off.paren))
    decreases |t| - i
  {
    hide SkipTo, Move, ScanFrom;
    ScanInside(t, i, d);
    if SkipTo(t, i) > i {
      ScanSkips(t, i, d);
      ScanSkips(t, i, Plus(d, off));
      InnerCallIsOneStretch(t, SkipTo(t, i), d, off);
    } else if t[i] == ')' && d.paren == 1 {
      ScanEnds(t, i, d);
      ScanStep(t, i, Plus(d, off));
      CloseParen(Plus(d, off));
    } else {
      ScanStep(t, i, d);
      ScanStep(t, i, Plus(d, off));
      MovePlus(d, off, t[i]);
      MoveStaysInside(d, t[i]);
      InnerCallIsOneStretch(t, i + 1, Move(d, t[i]), off);
    }
  }

  lemma ScanInside(t: string, i: nat, d: Depth)
    requires ScanFrom(t, i, d).end >= 0
    ensures i < |t|
  {
  }

  lemma CloseParen(d: Depth)
    ensures Move(d, ')') == d.(paren := d.paren - 1)
  {
  }

  lemma MoveStaysInside(d: Depth, c: char)
    requires d.paren >= 1 && !(c == ')' && d.paren == 1)
    ensures Move(d, c).paren >= 1
  {
  }

  lemma {:induction false} PlainRun(t: string, i: nat, j: nat, d: Depth)
    requires i <= j <= |t| && forall k | i <= k < j :: IsPlain(t[k])
    ensures ScanFrom(t, i, d) == ScanFrom(t, j, d)
    decreases j - i
  {
    hide IsPlain, ScanFrom;
    if i < j {
      PlainStep(t, i, d);
      PlainRun(t, i + 1, j, d);
    }
  }

  /** From the head of an inner call to behind its end. */
  lemma HeadAndCall(t: string, start: nat, open: nat, d: Depth)
    requires start < open <= |t| && t[open - 1] == '(' && forall k | start <= k < open - 1 :: IsPlain(t[k])
    requires d.paren >= 1 && ScanFrom(t, open, TOP).end >= 0
    ensures var r := ScanFrom(t, open, TOP);
            ScanFrom(t, start, d)
            == ScanFrom(t, r.end + 1, Depth(d.paren, r.exit.brace + d.brace, r.exit.brack + d.brack))
  {
    hide ScanFrom, IsPlain;
    PlainRun(t, start, open - 1, d);
    OpenParen(t, open - 1, d);
    InnerCallIsOneStretch(t, open, TOP, d);
  }

  lemma OpenParen(t: string, i: nat, d: Depth)
    requires i < |t| && t[i] == '('
    ensures ScanFrom(t, i, d) == ScanFrom(t, i + 1, Plus(TOP, d))
  {
  }

  /** The text after one inner call, opened at `open` by a head that starts at `start`, was rewritten in
      insert mode. */
  function RewriteOne(u: string, start: nat, open: nat, newName: string): string
    requires start < open <= |u| && Qualifies(u, open, false)
  {
    var r := ScanFrom(u, open, TOP);
    ScanPositions(u, open);
    var p, e := r.commas[1] + 1, r.end + 1;
    u[..start] + newName + "(" + (u[open..p] + DEVICE + u[p..e]) + u[e..]
  }

  lemma RewriteOneIs(u: string, start: nat, open: nat, newName: string)
    requires start < open <= |u| && Qualifies(u, open, false)
    ensures var r := ScanFrom(u, open, TOP);
            var p, e := r.commas[1] + 1, r.end + 1;
            && open < p < e <= |u|
            && RewriteOne(u, start, open, newName) == u[..start] + newName + "(" + (u[open..p] + DEVICE + u[p..e]) + u[e..]
  {
    hide ScanFrom, SkipTo, Move;
    ScanPositions(u, open);
  }

  lemma RewrittenParts(u: string, start: nat, open: nat, newName: string)
    requires start < open <= |u| && Qualifies(u, open, false) && newName != ""
    ensures var r := ScanFrom(u, open, TOP);
            var p, e := r.commas[1] + 1, r.end + 1;
            var u' := RewriteOne(u, start, open, newName);
            var open' := start + |newName| + 1;
            && open <= p <= r.end < |u|
            && u' == (u[..start] + newName + "(") + (u[open..p] + DEVICE + u[p..e]) + u[e..]
            && open' <= |u'| && start < |u'| && u'[..start] == u[..start] && u'[start] == newName[0]
            && u'[start..open'] == newName + "("
            && (var e' := open' + (p - open) + 8 + (e - p); e' <= |u'| && u'[e'..] == u[e..])
  {
    RewriteOneIs(u, start, open, newName);
    hide ScanFrom, RewriteOne, Qualifies;
    var r := ScanFrom(u, open, TOP);
    var p, e := r.commas[1] + 1, r.end + 1;
    Assemble(u[..start], newName + "(", u[open..p] + DEVICE + u[p..e], u[e..]);
    assert u[..start] + newName + "(" == u[..start] + (newName + "(");
    assert (newName + "(")[0] == newName[0];
  }

  lemma Assemble(a: string, h: string, b: string, c: string)
    requires h != ""
    ensures var t := (a + h) + b + c;
            && t[..|a|] == a && t[|a|] == h[0] && t[|a|..|a| + |h|] == h && t[|a| + |h| + |b|..] == c
  {
  }

  /** An outer scan that reaches the head of an inner call finds n commas before it and the rest behind its
      end. */
  lemma OuterScan(t: string, s: nat, start: nat, open: nat, d: Depth, n: nat)
    requires Leads(t, s, TOP, start, d, n)
    requires start < open <= |t| && t[open - 1] == '(' && forall k | start <= k < open - 1 :: IsPlain(t[k])
    requires ScanFrom(t, open, TOP).end >= 0
    ensures var inner, outer := ScanFrom(t, open, TOP), ScanFrom(t, s, TOP);
            var rest := ScanFrom(t, inner.end + 1, Depth(d.paren, inner.exit.brace + d.brace, inner.exit.brack + d.brack));
            |outer.commas| == n + |rest.commas| && outer.end == rest.end
  {
    hide ScanFrom, Leads, IsPlain;
    LeadsStaysInside(t, s, TOP, start, d, n);
    LeadsScans(t, s, TOP, start, d, n);
    HeadAndCall(t, start, open, d);
  }

  /** The inner call after its rewriting. */
  lemma InnerAfter(u: string, start: nat, open: nat, newName: string)
    requires start < open <= |u| && Qualifies(u, open, false) && IsIdentifier(newName)
    ensures var r := ScanFrom(u, open, TOP);
            var u' := RewriteOne(u, start, open, newName);
            var open' := start + |newName| + 1;
            && 0 <= r.end < |u| && open' <= |u'| && start < |u'|
            && u'[..start] == u[..start] && IsWordChar(u'[start]) && u'[open' - 1] == '('
            && (forall k | start <= k < open' - 1 :: IsPlain(u'[k]))
            && (var r' := ScanFrom(u', open', TOP);
                && 0 <= r'.end < |u'| && r'.exit == r.exit && u'[r'.end + 1..] == u[r.end + 1..])
  {
    hide ScanFrom, SkipTo, RewriteOne, IsPlain, IsWordChar, Arguments, WithDevice;
    RewrittenParts(u, start, open, newName);
    var u' := RewriteOne(u, start, open, newName);
    NewHeadIsPlain(u', start, newName);
    RescanInPlace(u, open, false, u[..start] + newName + "(", u[ScanFrom(u, open, TOP).end + 1..]);
  }

  /** Rewriting an inner call that the outer scan reaches as code leaves the outer call its argument count:
      the inner `device` never becomes an argument of the outer call. */
  lemma OuterCallKeepsItsArguments(u: string, s: nat, start: nat, name: string, newName: string, d: Depth, n: nat)
    requires IsIdentifier(name) && IsIdentifier(newName)
    requires CallOpen(u, start, name) != 0 && Qualifies(u, CallOpen(u, start, name), false)
    requires Leads(u, s, TOP, start, d, n) && ScanFrom(u, s, TOP).end >= 0
    ensures var u' := RewriteOne(u, start, CallOpen(u, start, name), newName);
            ScanFrom(u', s, TOP).end >= 0 && |Arguments(u', s)| == |Arguments(u, s)|
  {
    hide ScanFrom, CallOpen, Leads, RewriteOne, Pieces, IsPlain, Qualifies, IsIdentifier, IsWordChar;
    var open := CallOpen(u, start, name);
    var u' := RewriteOne(u, start, open, newName);
    OldHeadIsPlain(u, start, name);
    InnerAfter(u, start, open, newName);
    OuterScan(u, s, start, open, d, n);
    LeadsBounds(u, s, TOP, start, d, n);
    LeadsReplays(u, s, TOP, start, d, n, u');
    OuterScan(u', s, start, start + |newName| + 1, d, n);
    var r, r' := ScanFrom(u, open, TOP), ScanFrom(u', start + |newName| + 1, TOP);
    var exit := Depth(d.paren, r.exit.brace + d.brace, r.exit.brack + d.brack);
    SameRest(u, r.end + 1, u', r'.end + 1, exit);
    PiecesCount(u, s, ScanFrom(u, s, TOP).commas, ScanFrom(u, s, TOP).end);
    PiecesCount(u', s, ScanFrom(u', s, TOP).commas, ScanFrom(u', s, TOP).end);
  }

  lemma SameRest(u: string, e: nat, u': string, e': nat, d: Depth)
    requires e <= |u| && e' <= |u'| && u'[e'..] == u[e..] && ScanFrom(u, e, d).end >= 0
    ensures ScanFrom(u', e', d).end >= 0 && |ScanFrom(u', e', d).commas| == |ScanFrom(u, e, d).commas|
  {
    hide ScanFrom, Copied;
    SameEnding(u, e, u', e');
    ReplayToEnd(u, e, d, u', e');
  }

  lemma SameEnding(u: string, e: nat, u': string, e': nat)
    requires e <= |u| && e' <= |u'| && u'[e'..] == u[e..]
    ensures forall hi | e <= hi <= |u| :: Copied(u, e, hi, u', e')
  {
    forall k | e <= k < |u| ensures u[k] == u'[k - e + e'] {
      assert u[e..][k - e] == u'[e'..][k - e];
    }
  }

  lemma OldHeadIsPlain(u: string, start: nat, name: string)
    requires IsIdentifier(name) && CallOpen(u, start, name) != 0
    ensures var open := CallOpen(u, start, name);
            && start < open <= |u| && u[open - 1] == '(' && IsWordChar(u[start])
            && forall k | start <= k < open - 1 :: IsPlain(u[k])
  {
    var open := CallOpen(u, start, name);
    forall k | start <= k < open - 1 ensures IsPlain(u[k]) {
      if k < start + |name| {
        assert u[k] == u[start..start + |name|][k - start];
      }
    }
    assert u[start] == u[start..start + |name|][0];
  }

  lemma NewHeadIsPlain(u: string, start: nat, newName: string)
    requires IsIdentifier(newName)
    requires start + |newName| + 1 <= |u| && u[start..start + |newName| + 1] == newName + "("
    ensures u[start + |newName|] == '(' && IsWordChar(u[start])
    ensures forall k | start <= k < start + |newName| :: IsPlain(u[k])
  {
    forall k | start <= k <= start + |newName| ensures u[k] == (newName + "(")[k - start] {
      assert u[k] == u[start..start + |newName| + 1][k - start];
    }
  }

  const OUTER := "s(/*k(*/p,q,r)"

  /** A scan that comes to the first argument of `p,q,r)` finds two commas. */
  lemma ScanThreeLetters(t: string, i: nat)
    requires i + 6 <= |t| && t[i] == 'p' && t[i + 1] == ',' && t[i + 2] == 'q' && t[i + 3] == ',' && t[i + 4] == 'r'
    requires t[i + 5] == ')'
    ensures ScanFrom(t, i, TOP) == Scan([i + 1, i + 3], i + 5, TOP)
  {
    ScanEnds(t, i + 5, TOP);
    hide ScanFrom;
    PlainStep(t, i + 4, TOP);
    CommaStep(t, i + 3);
    PlainStep(t, i + 2, TOP);
    CommaStep(t, i + 1);
    PlainStep(t, i, TOP);
  }

  /** A scan skips the comment around the name and its parenthesis. */
  lemma ScanSkipsComment(t: string)
    requires |t| > 8 && t[2] == '/' && t[3] == '*' && t[4] == 'k' && t[5] == '(' && t[6] == '*' && t[7] == '/'
    ensures ScanFrom(t, 2, TOP) == ScanFrom(t, 8, TOP)
  {
    hide ScanFrom;
    assert BlockEnd(t, 6) == 8;
    assert BlockEnd(t, 4) == BlockEnd(t, 5) == 8;
    ScanSkips(t, 2, TOP);
  }

  /** The scan of the name in the comment starts behind its parenthesis. */
  lemma ScanLeavesComment(t: string)
    requires |t| > 8 && t[6] == '*' && t[7] == '/' && t[8] == 'p'
    ensures ScanFrom(t, 6, TOP) == ScanFrom(t, 8, TOP)
  {
    hide ScanFrom, BlockEnd, LineEnd, QuoteEnd;
    ScanStep(t, 7, TOP);
    ScanStep(t, 6, TOP);
  }

  lemma ScansOfOuter()
    ensures ScanFrom(OUTER, 2, TOP) == Scan([9, 11], 13, TOP) && ScanFrom(OUTER, 6, TOP) == Scan([9, 11], 13, TOP)
  {
    hide ScanFrom;
    ScanThreeLetters(OUTER, 8);
    ScanSkipsComment(OUTER);
    ScanLeavesComment(OUTER);
  }

  /** The text after the splice in the comment. */
  lemma SplicedOuter(t: string)
    requires Qualifies(OUTER, 6, false) && t == RewriteOne(OUTER, 4, 6, "k")
    ensures |t| == 22 && t[2] == '/' && t[3] == '*' && t[4] == 'k' && t[5] == '(' && t[6] == '*' && t[7] == '/'
    ensures t[8] == 'p' && t[9] == ',' && t[10] == 'q' && t[11] == ',' && t[12..20] == DEVICE && t[20] == 'r' && t[21] == ')'
  {
    ScansOfOuter();
    hide ScanFrom;
    assert t == OUTER[..4] + "k" + "(" + (OUTER[6..12] + DEVICE + OUTER[12..14]) + OUTER[14..];
  }

  lemma ScanSplicedOuter(t: string)
    requires |t| == 22 && t[2] == '/' && t[3] == '*' && t[4] == 'k' && t[5] == '(' && t[6] == '*' && t[7] == '/'
    requires t[8] == 'p' && t[9] == ',' && t[10] == 'q' && t[11] == ',' && t[12..20] == DEVICE && t[20] == 'r' && t[21] == ')'
    ensures ScanFrom(t, 2, TOP) == Scan([9, 11, 19], 21, TOP)
  {
    ScanEnds(t, 21, TOP);
    hide ScanFrom;
    PlainStep(t, 20, TOP);
    ScanDevice(t, 12);
    CommaStep(t, 11);
    PlainStep(t, 10, TOP);
    CommaStep(t, 9);
    PlainStep(t, 8, TOP);
    ScanSkipsComment(t);
  }

  /** Where the name stands in a comment of the outer call, that call gains an argument: its three become
      four, and the new one is `device`. */
  lemma CommentedNameAddsAnArgument()
    ensures CallOpen(OUTER, 4, "k") == 6 && Qualifies(OUTER, 6, false)
    ensures var u := RewriteOne(OUTER, 4, 6, "k");
            |Arguments(OUTER, 2)| == 3 && |Arguments(u, 2)| == 4 && Arguments(u, 2)[2] == " device"
  {
    hide ScanFrom, RewriteOne;
    ScansOfOuter();
    assert OUTER[4..5] == "k" && AfterSpaces(OUTER, 5) == 5;
    var u := RewriteOne(OUTER, 4, 6, "k");
    SplicedOuter(u);
    ScanSplicedOuter(u);
    PiecesCount(OUTER, 2, [9, 11], 13);
    PiecesCount(u, 2, [9, 11, 19], 21);
    assert [9, 11, 19] == [9, 11] + [19] + [];
    PiecesSplit(u, 2, [9, 11], 19, [], 21);
    PiecesCount(u, 2, [9, 11], 19);
    LastPiece(u, 2, [9, 11], 19);
    assert u[12..19] == u[12..20][..7] == " device";
  }

  lemma {:induction false} LastPiece(t: string, from: int, commas: seq<nat>, end: int)
    requires commas != []
    ensures |Pieces(t, from, commas, end)| == |commas| + 1
    ensures Pieces(t, from, commas, end)[|commas|] == Between(t, commas[|commas| - 1] + 1, end)
    decreases |commas|
  {
    PiecesCount(t, from, commas, end);
    if |commas| > 1 {
      LastPiece(t, commas[0] + 1, commas[1..], end);
    }
  }
}
