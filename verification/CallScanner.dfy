/** The scanner that walks a C++ call from its opening parenthesis: which commas separate its own
    arguments, and where it closes. Literals and comments are skipped; parentheses, braces and brackets
    nest. The angle-bracket depth of the original never changes, so a comma in `vector<T, U>` separates. */
module CallScanner {
  import opened CppText

  /** Nesting depths; a scan starts just inside the call. */
  datatype Depth = Depth(paren: int, brace: int, brack: int)

  const TOP := Depth(1, 0, 0)

  /** The separating commas, the position of the closing parenthesis or -1, and the depths there. */
  datatype Scan = Scan(commas: seq<nat>, end: int, exit: Depth)

  // ----- literals and comments -----

  /** The position after a quoted literal whose opening quote is just before i; past the end of the text
      if the literal does not close. */
  function QuoteEnd(t: string, i: nat, quote: char): (r: nat)
    ensures r > i
    decreases |t| - i
  {
    if i >= |t| then i + 1
    else if t[i] == '\\' then QuoteEnd(t, i + 2, quote)
    else if t[i] == quote then i + 1
    else QuoteEnd(t, i + 1, quote)
  }

  function BlockEnd(t: string, i: nat): (r: nat)
    ensures r >= i + 2
    decreases |t| - i
  {
    if i + 1 < |t| && !(t[i] == '*' && t[i + 1] == '/') then BlockEnd(t, i + 1) else i + 2
  }

  /** Where scanning goes on when a literal or comment starts at i; i itself when none does. */
  function SkipTo(t: string, i: nat): (r: nat)
    requires i < |t|
    ensures r >= i
  {
    if t[i] == '"' || t[i] == '\'' then QuoteEnd(t, i + 1, t[i])
    else if SlashThen(t, i, '/') then LineEnd(t, i)
    else if SlashThen(t, i, '*') then BlockEnd(t, i + 2)
    else i
  }

  function Move(d: Depth, c: char): Depth {
    match c
    case '(' => d.(paren := d.paren + 1)
    case ')' => d.(paren := d.paren - 1)
    case '{' => d.(brace := d.brace + 1)
    case '}' => d.(brace := d.brace - 1)
    case '[' => d.(brack := d.brack + 1)
    case ']' => d.(brack := d.brack - 1)
    case _ => d
  }

  function ScanFrom(t: string, i: nat, d: Depth): (r: Scan)
    ensures r.end == -1 || (i <= r.end < |t| && t[r.end] == ')')
    decreases |t| - i
  {
    if i >= |t| then Scan([], -1, d)
    else if SkipTo(t, i) > i then ScanFrom(t, SkipTo(t, i), d)
    else if t[i] == ')' && d.paren == 1 then Scan([], i, d)
    else
      var r := ScanFrom(t, i + 1, Move(d, t[i]));
      if t[i] == ',' && d == TOP then Then([i], r) else r
  }

  /** A walk from i comes to position j outside literals and comments. */
  predicate Reaches(t: string, i: nat, j: nat)
    decreases |t| - i
  {
    i == j || (i < j <= |t| && if SkipTo(t, i) > i then Reaches(t, SkipTo(t, i), j) else Reaches(t, i + 1, j))
  }

  // ----- the loops of the original -----

  /** One walk over the arguments, from just after the opening parenthesis. */
  method ScanArguments(text: string, start: nat) returns (commas: seq<nat>, end_pos: int)
    ensures commas == ScanFrom(text, start, TOP).commas && end_pos == ScanFrom(text, start, TOP).end
  {
    var i := start;
    var depth_paren, depth_brace, depth_brack, depth_angle := 1, 0, 0, 0;
    commas := [];
    end_pos := -1;
    ghost var goal := ScanFrom(text, start, TOP);
    while i < |text|
      invariant depth_angle == 0 && end_pos == -1
      invariant goal == Then(commas, ScanFrom(text, i, Depth(depth_paren, depth_brace, depth_brack)))
      decreases |text| - i
    {
      var ch := text[i];
      ghost var d := Depth(depth_paren, depth_brace, depth_brack);
      var next := SkipLiteralOrComment(text, i);
      if next > i {
        i := next;
        continue;
      }
      if ch == '(' {
        depth_paren := depth_paren + 1;
      } else if ch == ')' {
        depth_paren := depth_paren - 1;
        if depth_paren == 0 {
          end_pos := i;
          return;
        }
      } else if ch == '{' {
        depth_brace := depth_brace + 1;
      } else if ch == '}' {
        depth_brace := depth_brace - 1;
      } else if ch == '[' {
        depth_brack := depth_brack + 1;
      } else if ch == ']' {
        depth_brack := depth_brack - 1;
      } else if ch == ',' {
        if depth_paren == 1 && depth_brace == 0 && depth_brack == 0 && depth_angle == 0 {
          ThenComma(commas, i, ScanFrom(text, i + 1, d));
          commas := commas + [i];
        }
      }
      assert Depth(depth_paren, depth_brace, depth_brack) == Move(d, ch);
      i := i + 1;
    }
  }

  /** The commas found so far, before the rest of the scan. */
  function Then(found: seq<nat>, rest: Scan): Scan {
    rest.(commas := found + rest.commas)
  }

  lemma ThenComma(found: seq<nat>, i: nat, rest: Scan)
    ensures Then(found, Then([i], rest)) == Then(found + [i], rest)
  {
    assert found + ([i] + rest.commas) == (found + [i]) + rest.commas;
  }

  /** The three skipping loops: string and character literals, line comments, block comments. */
  method SkipLiteralOrComment(text: string, start: nat) returns (i: nat)
    requires start < |text|
    ensures i == SkipTo(text, start)
  {
    i := start;
    var ch := text[i];
    if ch == '"' || ch == '\'' {
      i := i + 1;
      while i < |text|
        invariant QuoteEnd(text, i, ch) == QuoteEnd(text, start + 1, ch)
        decreases |text| - i
      {
        if text[i] == '\\' {
          i := i + 2;
          continue;
        }
        if text[i] == ch {
          break;
        }
        i := i + 1;
      }
      i := i + 1;
      return;
    }
    if ch == '/' && i + 1 < |text| && text[i + 1] == '/' {
      while i < |text| && text[i] != '\n'
        invariant i <= |text| && LineEnd(text, i) == LineEnd(text, start)
      {
        i := i + 1;
      }
      return;
    }
    if ch == '/' && i + 1 < |text| && text[i + 1] == '*' {
      i := i + 2;
      while i + 1 < |text| && !(text[i] == '*' && text[i + 1] == '/')
        invariant BlockEnd(text, i) == BlockEnd(text, start + 2)
      {
        i := i + 1;
      }
      i := i + 2;
      return;
    }
  }

  // ----- a scan depends only on the text it walks -----

  /** The stretch of t from lo to hi stands in t' from lo' on. */
  ghost predicate Copied(t: string, lo: nat, hi: nat, t': string, lo': nat) {
    && lo <= hi <= |t| && lo' + (hi - lo) <= |t'|
    && forall k | lo <= k < hi :: t[k] == t'[k - lo + lo']
  }

  /** Positions counted from `from` on, counted from `to` on. */
  ghost function Moved(commas: seq<nat>, from: nat, to: nat): seq<nat> {
    seq(|commas|, n requires 0 <= n < |commas| =>
      if commas[n] - from + to >= 0 then commas[n] - from + to else 0)
  }

  lemma {:induction false} QuoteEndMoves(t: string, i: nat, quote: char, t': string, i': nat)
    requires i <= QuoteEnd(t, i, quote) <= |t| && Copied(t, i, QuoteEnd(t, i, quote), t', i')
    ensures QuoteEnd(t', i', quote) == QuoteEnd(t, i, quote) - i + i'
    decreases |t| - i
  {
    if t[i] == '\\' {
      QuoteEndMoves(t, i + 2, quote, t', i' + 2);
    } else if t[i] != quote {
      QuoteEndMoves(t, i + 1, quote, t', i' + 1);
    }
  }

  lemma {:induction false} LineEndMoves(t: string, i: nat, t': string, i': nat)
    requires LineEnd(t, i) < |t| && Copied(t, i, LineEnd(t, i) + 1, t', i')
    ensures LineEnd(t', i') == LineEnd(t, i) - i + i'
    decreases |t| - i
  {
    if t[i] != '\n' {
      LineEndMoves(t, i + 1, t', i' + 1);
    }
  }

  lemma {:induction false} BlockEndMoves(t: string, i: nat, t': string, i': nat)
    requires BlockEnd(t, i) <= |t| && Copied(t, i, BlockEnd(t, i), t', i')
    ensures BlockEnd(t', i') == BlockEnd(t, i) - i + i'
    decreases |t| - i
  {
    if !(t[i] == '*' && t[i + 1] == '/') {
      BlockEndMoves(t, i + 1, t', i' + 1);
    }
  }

  lemma SkipMoves(t: string, i: nat, last: nat, t': string, i': nat)
    requires i <= last < |t| && SkipTo(t, i) <= last && (i == last ==> t[i] != '/')
    requires Copied(t, i, last + 1, t', i')
    ensures SkipTo(t', i') == SkipTo(t, i) - i + i'
  {
    assert t[i] == t'[i'];
    if t[i] == '"' || t[i] == '\'' {
      QuoteEndMoves(t, i + 1, t[i], t', i' + 1);
    } else if i < last {
      assert t[i + 1] == t'[i' + 1];
      if SlashThen(t, i, '/') {
        LineEndMoves(t, i, t', i');
      } else if SlashThen(t, i, '*') {
        BlockEndMoves(t, i + 2, t', i' + 2);
      }
    }
  }

  /** Commas come in order, between the start and the end. */
  ghost predicate InOrder(t: string, i: nat, r: Scan) {
    && (forall n | 0 <= n < |r.commas| ::
          i <= r.commas[n] < |t| && t[r.commas[n]] == ',' && (r.end >= 0 ==> r.commas[n] < r.end))
    && (forall m, n | 0 <= m < n < |r.commas| :: r.commas[m] < r.commas[n])
  }

  lemma OneMoreInOrder(t: string, i: nat, rest: Scan)
    requires InOrder(t, i + 1, rest) && i < |t| && t[i] == ',' && (rest.end >= 0 ==> i < rest.end)
    ensures InOrder(t, i, Then([i], rest))
  {
    var r := Then([i], rest);
    assert forall n | 0 < n < |r.commas| :: r.commas[n] == rest.commas[n - 1];
  }

  lemma {:induction false} CommasInOrder(t: string, i: nat, d: Depth)
    ensures InOrder(t, i, ScanFrom(t, i, d))
    decreases |t| - i
  {
    hide SkipTo;
    if i >= |t| {
    } else if SkipTo(t, i) > i {
      assert ScanFrom(t, i, d) == ScanFrom(t, SkipTo(t, i), d);
      CommasInOrder(t, SkipTo(t, i), d);
    } else if !(t[i] == ')' && d.paren == 1) {
      var rest := ScanFrom(t, i + 1, Move(d, t[i]));
      CommasInOrder(t, i + 1, Move(d, t[i]));
      if t[i] == ',' && d == TOP {
        OneMoreInOrder(t, i, rest);
      }
    }
  }

  /** One step of a scan that is not yet at its end. */
  lemma ScanStep(t: string, i: nat, d: Depth)
    requires i < |t| && SkipTo(t, i) == i && !(t[i] == ')' && d.paren == 1)
    ensures var rest := ScanFrom(t, i + 1, Move(d, t[i]));
            ScanFrom(t, i, d) == if t[i] == ',' && d == TOP then Then([i], rest) else rest
  {
  }

  lemma MovedCons(i: nat, rest: seq<nat>, i': nat)
    ensures Moved([i] + rest, i, i') == [i'] + Moved(rest, i + 1, i' + 1)
  {
  }

  lemma MovedNone(i: nat, i': nat)
    ensures Moved([], i, i') == []
  {
  }

  lemma MovedSame(c: seq<nat>, i: nat, i': nat, j: nat, j': nat)
    requires j - i == j' - i'
    ensures Moved(c, j, j') == Moved(c, i, i')
  {
  }

  /** Up to and including its n-th comma a scan replays on any text that copies that stretch; after the
      comma it stands at the top level again. */
  lemma {:induction false} ReplayToComma(t: string, i: nat, d: Depth, n: nat, t': string, i': nat)
    requires n < |ScanFrom(t, i, d).commas|
    requires Copied(t, i, ScanFrom(t, i, d).commas[n] + 1, t', i')
    ensures ScanFrom(t, i, d).commas[n] >= i
    ensures var r := ScanFrom(t, i, d);
            ScanFrom(t', i', d)
            == Then(Moved(r.commas[..n + 1], i, i'), ScanFrom(t', r.commas[n] + 1 - i + i', TOP))
    decreases |t| - i
  {
    hide SkipTo, Move, Moved, ScanFrom, Copied, InOrder;
    CommaPosition(t, i, d, n);
    var r := ScanFrom(t, i, d);
    var stop := r.commas[n];
    var after := stop + 1 - i + i';
    CopiedHead(t, i, stop + 1, t', i');
    if SkipTo(t, i) > i {
      var j := SkipTo(t, i);
      ScanSkips(t, i, d);
      CommaPosition(t, j, d, n);
      SkipMoves(t, i, stop, t', i');
      ScanSkips(t', i', d);
      CopiedTail(t, i, stop + 1, t', i', j);
      ReplayToComma(t, j, d, n, t', j - i + i');
      MovedSame(r.commas[..n + 1], i, i', j, j - i + i');
    } else {
      NotAtEnd(t, i, d);
      SkipMoves(t, i, stop, t', i');
      ScanStep(t, i, d);
      ScanStep(t', i', d);
      CopiedTail(t, i, stop + 1, t', i', i + 1);
      var next := Move(d, t[i]);
      var rest := ScanFrom(t, i + 1, next);
      if t[i] == ',' && d == TOP {
        CommaStaysOnTop();
        MovedCons(i, rest.commas[..n], i');
        assert r.commas[..n + 1] == [i] + rest.commas[..n];
        if n == 0 {
          MovedNone(i + 1, i' + 1);
        } else {
          assert rest.commas[n - 1] == stop;
          CommaPosition(t, i + 1, next, n - 1);
          ReplayToComma(t, i + 1, next, n - 1, t', i' + 1);
          ThenThen(i', Moved(rest.commas[..n], i + 1, i' + 1), ScanFrom(t', after, TOP));
        }
      } else {
        CommaPosition(t, i + 1, next, n);
        ReplayToComma(t, i + 1, next, n, t', i' + 1);
        MovedSame(r.commas[..n + 1], i, i', i + 1, i' + 1);
      }
    }
  }

  lemma CommaPosition(t: string, i: nat, d: Depth, n: nat)
    requires n < |ScanFrom(t, i, d).commas|
    ensures i <= ScanFrom(t, i, d).commas[n] < |t| && t[ScanFrom(t, i, d).commas[n]] == ','
  {
    CommasInOrder(t, i, d);
  }

  lemma CopiedHead(t: string, lo: nat, hi: nat, t': string, lo': nat)
    requires Copied(t, lo, hi, t', lo') && lo < hi
    ensures hi <= |t| && lo' + (hi - lo) <= |t'| && t[lo] == t'[lo']
  {
  }

  lemma CopiedTail(t: string, lo: nat, hi: nat, t': string, lo': nat, j: nat)
    requires Copied(t, lo, hi, t', lo') && lo <= j <= hi
    ensures Copied(t, j, hi, t', j - lo + lo')
  {
  }

  lemma CommaStaysOnTop()
    ensures Move(TOP, ',') == TOP
  {
  }

  lemma ThenThen(x: nat, found: seq<nat>, rest: Scan)
    ensures Then([x], Then(found, rest)) == Then([x] + found, rest)
  {
    assert [x] + (found + rest.commas) == ([x] + found) + rest.commas;
  }

  lemma ScanSkips(t: string, i: nat, d: Depth)
    requires i < |t| && SkipTo(t, i) > i
    ensures ScanFrom(t, i, d) == ScanFrom(t, SkipTo(t, i), d)
  {
  }

  lemma NotAtEnd(t: string, i: nat, d: Depth)
    requires i < |t| && SkipTo(t, i) == i && ScanFrom(t, i, d).commas != []
    ensures !(t[i] == ')' && d.paren == 1)
  {
  }

  /** A scan that closes replays as a whole on any text that copies it to its closing parenthesis,
      whatever stands before and behind. */
  lemma {:induction false} ReplayToEnd(t: string, i: nat, d: Depth, t': string, i': nat)
    requires ScanFrom(t, i, d).end >= 0
    requires Copied(t, i, ScanFrom(t, i, d).end + 1, t', i')
    ensures var r := ScanFrom(t, i, d);
            ScanFrom(t', i', d) == Scan(Moved(r.commas, i, i'), r.end - i + i', r.exit)
    decreases |t| - i
  {
    hide SkipTo, Move, Moved, ScanFrom, Copied, InOrder;
    var r := ScanFrom(t, i, d);
    CopiedHead(t, i, r.end + 1, t', i');
    if SkipTo(t, i) > i {
      var j := SkipTo(t, i);
      ScanSkips(t, i, d);
      SkipMoves(t, i, r.end, t', i');
      ScanSkips(t', i', d);
      CopiedTail(t, i, r.end + 1, t', i', j);
      ReplayToEnd(t, j, d, t', j - i + i');
      MovedSame(r.commas, i, i', j, j - i + i');
    } else {
      SkipMoves(t, i, r.end, t', i');
      if t[i] == ')' && d.paren == 1 {
        ScanEnds(t, i, d);
        ScanEnds(t', i', d);
        MovedNone(i, i');
      } else {
        ScanStep(t, i, d);
        ScanStep(t', i', d);
        var next := Move(d, t[i]);
        var rest := ScanFrom(t, i + 1, next);
        CopiedTail(t, i, r.end + 1, t', i', i + 1);
        ReplayToEnd(t, i + 1, next, t', i' + 1);
        MovedCons(i, rest.commas, i');
        MovedSame(r.commas, i, i', i + 1, i' + 1);
      }
    }
  }

  lemma ScanEnds(t: string, i: nat, d: Depth)
    requires i < |t| && SkipTo(t, i) == i && t[i] == ')' && d.paren == 1
    ensures ScanFrom(t, i, d) == Scan([], i, d)
  {
  }
}
