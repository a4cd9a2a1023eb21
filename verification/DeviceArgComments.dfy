/** A name inside a comment is taken for a call. For all names, a call with such a comment gets its `device`
    twice from the two passes. */
module DeviceArgComments {
  import opened CallScanner
  import opened CppText
  import opened DeviceArg
  import opened PythonText
  import opened DeviceArgRescan

  // ----- scanning -----

  lemma {:induction false} BlockEndRun(t: string, i: nat, j: nat)
    requires i <= j < |t| && forall k | i <= k < j :: t[k] != '*'
    ensures BlockEnd(t, i) == BlockEnd(t, j)
    decreases j - i
  {
    if i < j {
      BlockEndRun(t, i + 1, j);
    }
  }

  /** The stretch of t from i on is s. */
  ghost predicate Holds(t: string, i: nat, s: string) {
    i + |s| <= |t| && forall k | 0 <= k < |s| :: t[i + k] == s[k]
  }

  lemma HoldsParts(t: string, i: nat, a: string, b: string)
    requires Holds(t, i, a + b)
    ensures Holds(t, i, a) && Holds(t, i + |a|, b)
  {
    forall k | 0 <= k < |a| ensures t[i + k] == a[k] {
      assert (a + b)[k] == a[k];
    }
    forall k | 0 <= k < |b| ensures t[i + |a| + k] == b[k] {
      assert (a + b)[|a| + k] == b[k];
    }
  }

  lemma HoldsAt(t: string, i: nat, s: string, k: nat)
    requires Holds(t, i, s) && k < |s|
    ensures i + k < |t| && t[i + k] == s[k]
  {
  }

  lemma HoldsSlice(t: string, i: nat, s: string)
    requires Holds(t, i, s)
    ensures t[i..i + |s|] == s
  {
  }

  /** A scan passes over a comment with a name and its parenthesis. */
  lemma ScanOverComment(t: string, i: nat, name: string)
    requires IsIdentifier(name) && Holds(t, i, "/*") && Holds(t, i + 2, name) && Holds(t, i + 2 + |name|, "(*/")
    ensures ScanFrom(t, i, TOP) == ScanFrom(t, i + 5 + |name|, TOP)
  {
    var j := i + 2 + |name|;
    HoldsAt(t, i, "/*", 0);
    HoldsAt(t, i, "/*", 1);
    HoldsAt(t, j, "(*/", 0);
    HoldsAt(t, j, "(*/", 1);
    HoldsAt(t, j, "(*/", 2);
    forall k | i + 2 <= k < j + 1 ensures t[k] != '*' {
      if k < j {
        WordAt(t, i + 2, name, k);
      }
    }
    BlockEndRun(t, i + 2, j + 1);
    assert BlockEnd(t, j + 1) == j + 3;
    ScanSkips(t, i, TOP);
  }

  lemma ScanOutOfComment(t: string, i: nat)
    requires i + 2 < |t| && t[i] == '*' && t[i + 1] == '/' && t[i + 2] == 'p'
    ensures ScanFrom(t, i, TOP) == ScanFrom(t, i + 2, TOP)
  {
    hide ScanFrom, LineEnd, QuoteEnd, BlockEnd;
    ScanStep(t, i + 1, TOP);
    ScanStep(t, i, TOP);
  }

  lemma ScanLetter(t: string, i: nat, c: char)
    requires Holds(t, i, [c] + ",") && IsPlain(c)
    ensures ScanFrom(t, i, TOP) == Then([i + 1], ScanFrom(t, i + 2, TOP))
  {
    hide ScanFrom;
    HoldsAt(t, i, [c] + ",", 0);
    HoldsAt(t, i, [c] + ",", 1);
    PlainStep(t, i, TOP);
    CommaStep(t, i + 1);
  }

  lemma ScanClose(t: string, i: nat)
    requires Holds(t, i, "w)")
    ensures ScanFrom(t, i, TOP) == Scan([], i + 1, TOP)
  {
    HoldsAt(t, i, "w)", 0);
    HoldsAt(t, i, "w)", 1);
    ScanEnds(t, i + 1, TOP);
    hide ScanFrom;
    PlainStep(t, i, TOP);
  }

  lemma ScanOneDevice(t: string, i: nat)
    requires Holds(t, i, DEVICE)
    ensures ScanFrom(t, i, TOP) == Then([i + 7], ScanFrom(t, i + 8, TOP))
  {
    HoldsSlice(t, i, DEVICE);
    ScanDevice(t, i);
  }

  function Opening(): string { "(/*" }

  function Closing(): string { "(*/" }

  function Three(): string { "p," + ("q," + ("r," + "w)")) }

  function Once(): string { "p," + ("q," + (DEVICE + "w)")) }

  function Twice(): string { "p," + ("q," + (DEVICE + (DEVICE + "w)"))) }

  /** The three argument lists that occur: before, after the first pass and after the second. */
  lemma ScanOriginal(t: string, i: nat)
    requires Holds(t, i, Three())
    ensures ScanFrom(t, i, TOP) == Scan([i + 1, i + 3, i + 5], i + 7, TOP)
  {
    hide ScanFrom, Holds;
    HoldsParts(t, i, "p,", "q," + ("r," + "w)"));
    HoldsParts(t, i + 2, "q,", "r," + "w)");
    HoldsParts(t, i + 4, "r,", "w)");
    LetterComma();
    ScanLetter(t, i, 'p');
    ScanLetter(t, i + 2, 'q');
    ScanLetter(t, i + 4, 'r');
    ScanClose(t, i + 6);
  }

  lemma LetterComma()
    ensures "p," == ['p'] + "," && "q," == ['q'] + "," && "r," == ['r'] + ","
  {
  }

  lemma ScanOnce(t: string, i: nat)
    requires Holds(t, i, Once())
    ensures ScanFrom(t, i, TOP) == Scan([i + 1, i + 3, i + 11], i + 13, TOP) && Holds(t, i + 4, DEVICE)
  {
    hide ScanFrom, Holds;
    HoldsParts(t, i, "p,", "q," + (DEVICE + "w)"));
    HoldsParts(t, i + 2, "q,", DEVICE + "w)");
    HoldsParts(t, i + 4, DEVICE, "w)");
    LetterComma();
    ScanLetter(t, i, 'p');
    ScanLetter(t, i + 2, 'q');
    ScanOneDevice(t, i + 4);
    ScanClose(t, i + 12);
  }

  lemma ScanTwice(t: string, i: nat)
    requires Holds(t, i, Twice())
    ensures ScanFrom(t, i, TOP) == Scan([i + 1, i + 3, i + 11, i + 19], i + 21, TOP)
    ensures Holds(t, i + 4, DEVICE) && Holds(t, i + 12, DEVICE)
  {
    hide ScanFrom, Holds;
    HoldsParts(t, i, "p,", "q," + (DEVICE + (DEVICE + "w)")));
    HoldsParts(t, i + 2, "q,", DEVICE + (DEVICE + "w)"));
    HoldsParts(t, i + 4, DEVICE, DEVICE + "w)");
    HoldsParts(t, i + 12, DEVICE, "w)");
    LetterComma();
    ScanLetter(t, i, 'p');
    ScanLetter(t, i + 2, 'q');
    ScanOneDevice(t, i + 4);
    ScanOneDevice(t, i + 12);
    ScanClose(t, i + 20);
  }

  // ----- rewriting a text that is one call -----

  lemma RewriteLastCall(t: string, start: nat, open: nat, name: string, newName: string, replace: bool)
    requires Search(t, 0, name) == Match(start, open) && start < open <= |t| && Qualifies(t, open, replace)
    requires ScanFrom(t, open, TOP).end == |t| - 1
    ensures var r := ScanFrom(t, open, TOP);
            && open <= r.commas[1] + 1 <= ResumeComma(r, replace) + 1 <= |t|
            && Rewrite(t, name, newName, replace)
               == t[..start] + newName + "(" + (t[open..r.commas[1] + 1] + DEVICE + t[ResumeComma(r, replace) + 1..])
  {
    hide ScanFrom, Search, CallOpen, CutCall, Segments, Output, NewText;
    ScanPositions(t, open);
    var r := ScanFrom(t, open, TOP);
    var p, q := r.commas[1] + 1, ResumeComma(r, replace) + 1;
    var seg := CutCall(t, 0, start, open, p, q, |t|);
    OneTurn(t, start, open, name, replace);
    OutputOfTurn(t, 0, name, newName, replace);
    OutputOfTurn(t, |t|, name, newName, replace);
    NothingAtEnd(t, name, replace);
    hide TurnAt, Qualifies;
    CallText(t, start, open, p, q, newName);
    NoText(newName);
    var text := NewText(seg, newName);
    assert text + "" == text && ("" + "") == "";
  }

  lemma OneTurn(t: string, start: nat, open: nat, name: string, replace: bool)
    requires Search(t, 0, name) == Match(start, open) && start < open <= |t| && Qualifies(t, open, replace)
    requires ScanFrom(t, open, TOP).end == |t| - 1
    ensures var r := ScanFrom(t, open, TOP);
            && open <= r.commas[1] + 1 <= ResumeComma(r, replace) + 1 <= |t|
            && TurnAt(t, 0, name, replace)
               == Turn(CutCall(t, 0, start, open, r.commas[1] + 1, ResumeComma(r, replace) + 1, |t|), |t|, false)
  {
    hide ScanFrom, Search, CallOpen, CutCall;
    ScanPositions(t, open);
  }

  lemma CallText(t: string, start: nat, open: nat, p: nat, q: nat, newName: string)
    requires start < open <= p <= q <= |t|
    ensures NewText(CutCall(t, 0, start, open, p, q, |t|), newName)
            == t[..start] + newName + "(" + (t[open..p] + DEVICE + t[q..])
  {
  }

  lemma NoText(newName: string)
    ensures NewText(Plain(""), newName) == ""
  {
  }

  lemma NothingAtEnd(t: string, name: string, replace: bool)
    ensures TurnAt(t, |t|, name, replace) == Turn(Plain(""), |t|, true)
  {
    assert t[|t|..] == "";
  }

  /** The only call of the name starts at `start`. */
  lemma SearchFinds(t: string, start: nat, open: nat, name: string)
    requires start < |t| && CallOpen(t, start, name) == open && open != 0
    requires forall i | 0 <= i < start :: CallOpen(t, i, name) == 0
    ensures Search(t, 0, name) == Match(start, open)
  {
    hide CallOpen;
  }

  lemma CallHere(t: string, start: nat, name: string)
    requires IsIdentifier(name) && Holds(t, start, name) && Holds(t, start + |name|, "(")
    requires start > 0 ==> !IsWordChar(t[start - 1])
    ensures CallOpen(t, start, name) == start + |name| + 1
  {
    HoldsSlice(t, start, name);
    HoldsAt(t, start + |name|, "(", 0);
  }

  lemma WordAt(u: string, i: nat, name: string, e: nat)
    requires Holds(u, i, name) && IsIdentifier(name) && i <= e < i + |name|
    ensures IsWordChar(u[e])
  {
    HoldsAt(u, i, name, e - i);
  }

  lemma HeldNameFits(u: string, i: nat, name: string, e: nat)
    requires Holds(u, i, name) && IsIdentifier(name) && i <= e < |u| && !IsWordChar(u[e])
    ensures i + |name| <= e
  {
    if e < i + |name| {
      WordAt(u, i, name, e);
    }
  }

  /** Another name that stands at the start of the text, and a comment behind it, hold no call of the name. */
  lemma NoCallBefore(u: string, newName: string, name: string, i: nat)
    requires IsIdentifier(name) && IsIdentifier(newName) && name != newName
    requires Holds(u, 0, newName) && Holds(u, |newName|, "(/*") && i < |newName| + 3
    ensures CallOpen(u, i, name) == 0
  {
    hide IsSpace, Holds, CallOpen, IsWordChar;
    var n := |newName|;
    if i == 0 {
      NameOnlyPrefix(u, newName, name);
    } else if i <= n {
      HoldsAt(u, n, "(/*", 0);
      WordAt(u, 0, newName, i - 1);
      BehindWord(u, i, name);
    } else {
      HoldsAt(u, n, "(/*", i - n);
      SlashStar();
      NotAtSign(u, i, name);
    }
  }

  lemma SlashStar()
    ensures !IsWordChar("(/*"[0]) && !IsWordChar("(/*"[1]) && !IsWordChar("(/*"[2])
  {
  }

  lemma BehindWord(u: string, i: nat, name: string)
    requires 0 < i <= |u| && IsWordChar(u[i - 1])
    ensures CallOpen(u, i, name) == 0
  {
  }

  lemma NotAtSign(u: string, i: nat, name: string)
    requires i < |u| && !IsWordChar(u[i]) && IsIdentifier(name)
    ensures CallOpen(u, i, name) == 0
  {
    if i + |name| <= |u| {
      assert u[i..i + |name|][0] == u[i];
      assert IsWordChar(name[0]);
    }
  }

  lemma HoldsOfSlice(u: string, i: nat, name: string)
    requires i + |name| <= |u| && u[i..i + |name|] == name
    ensures Holds(u, i, name)
  {
    forall k | 0 <= k < |name| ensures u[i + k] == name[k] {
      assert u[i..i + |name|][k] == u[i + k];
    }
  }

  lemma NameOnlyPrefix(u: string, newName: string, name: string)
    requires IsIdentifier(name) && IsIdentifier(newName) && name != newName
    requires Holds(u, 0, newName) && Holds(u, |newName|, "(/*")
    ensures CallOpen(u, 0, name) == 0
  {
    hide IsWordChar, IsSpace, Holds;
    var n := |newName|;
    HoldsAt(u, n, "(/*", 0);
    SlashStar();
    if NameAt(u, 0, name) {
      HoldsOfSlice(u, 0, name);
      HeldNameFits(u, 0, name, n);
      HoldsSlice(u, 0, newName);
      assert |name| == n ==> name == newName;
      WordAt(u, 0, newName, |name|);
      WordIsNoSpace(u[|name|]);
    }
  }

  lemma WordIsNoSpace(c: char)
    requires IsWordChar(c)
    ensures !IsSpace(c) && c != '('
  {
  }

  // ----- the two passes over a call with a commented name -----

  function Commented(outer: string, inner: string, args: string): string {
    outer + (Opening() + (inner + (Closing() + args)))
  }

  lemma CommentedHolds(outer: string, inner: string, args: string)
    ensures var t := Commented(outer, inner, args);
            && |t| == |outer| + |inner| + 6 + |args|
            && Holds(t, 0, outer) && Holds(t, |outer|, Opening()) && Holds(t, |outer|, "(") && Holds(t, |outer| + 1, "/*")
            && Holds(t, |outer| + 3, inner)
            && Holds(t, |outer| + 3 + |inner|, Closing()) && Holds(t, |outer| + 3 + |inner|, "(")
            && Holds(t, |outer| + 6 + |inner|, args)
  {
    hide Holds, Opening, Closing;
    BracketSizes();
    FiveParts(Commented(outer, inner, args), outer, Opening(), inner, Closing(), args);
    hide Commented;
    BracketParts(Commented(outer, inner, args), |outer|, |outer| + 3 + |inner|);
  }

  lemma BracketSizes()
    ensures |Opening()| == 3 && |Closing()| == 3
  {
  }

  lemma FiveParts(t: string, a: string, b: string, c: string, d: string, e: string)
    requires t == a + (b + (c + (d + e)))
    ensures |t| == |a| + |b| + |c| + |d| + |e| && Holds(t, 0, a) && Holds(t, |a|, b) && Holds(t, |a| + |b|, c)
    ensures Holds(t, |a| + |b| + |c|, d) && Holds(t, |a| + |b| + |c| + |d|, e)
  {
    hide Holds;
    HoldsItself(t);
    HoldsParts(t, 0, a, b + (c + (d + e)));
    LastParts(t, |a|, b, c, d, e);
  }

  lemma LastParts(t: string, i: nat, b: string, c: string, d: string, e: string)
    requires Holds(t, i, b + (c + (d + e)))
    ensures Holds(t, i, b) && Holds(t, i + |b|, c) && Holds(t, i + |b| + |c|, d) && Holds(t, i + |b| + |c| + |d|, e)
  {
    hide Holds;
    HoldsParts(t, i, b, c + (d + e));
    HoldsParts(t, i + |b|, c, d + e);
    HoldsParts(t, i + |b| + |c|, d, e);
  }

  lemma HoldsItself(t: string)
    ensures Holds(t, 0, t)
  {
  }

  lemma BracketParts(t: string, i: nat, j: nat)
    requires Holds(t, i, Opening()) && Holds(t, j, Closing())
    ensures Holds(t, i, "(") && Holds(t, i + 1, "/*") && Holds(t, j, "(")
  {
    hide Holds;
    assert Opening() == "(" + "/*" && Closing() == "(" + "*/";
    HoldsParts(t, i, "(", "/*");
    HoldsParts(t, j, "(", "*/");
  }

  /** The call around the comment reads past it. */
  lemma OuterScan(outer: string, inner: string, args: string)
    requires IsIdentifier(inner)
    ensures var t := Commented(outer, inner, args);
            ScanFrom(t, |outer| + 1, TOP) == ScanFrom(t, |outer| + 6 + |inner|, TOP)
  {
    hide ScanFrom, Holds, IsIdentifier;
    CommentedHolds(outer, inner, args);
    ScanOverComment(Commented(outer, inner, args), |outer| + 1, inner);
  }

  lemma ClosingChars(t: string, j: nat)
    requires Holds(t, j, Closing())
    ensures j + 2 < |t| && t[j + 1] == '*' && t[j + 2] == '/'
  {
    HoldsAt(t, j, Closing(), 1);
    HoldsAt(t, j, Closing(), 2);
  }

  /** The call in the comment reads out of it. */
  lemma InnerScan(outer: string, inner: string, args: string)
    requires |args| > 0 && args[0] == 'p'
    ensures var t := Commented(outer, inner, args);
            ScanFrom(t, |outer| + 4 + |inner|, TOP) == ScanFrom(t, |outer| + 6 + |inner|, TOP)
  {
    hide ScanFrom, Holds;
    var t, j := Commented(outer, inner, args), |outer| + 3 + |inner|;
    CommentedHolds(outer, inner, args);
    hide Commented;
    ClosingChars(t, j);
    HoldsAt(t, j + 3, args, 0);
    ScanOutOfComment(t, j + 1);
  }

  /** The first pass finds the call in front and scans its arguments behind the comment. */
  lemma FirstCall(first: string, second: string)
    requires IsIdentifier(first) && IsIdentifier(second)
    ensures var t, i := Commented(first, second, Three()), |first| + 6 + |second|;
            && |t| == i + |Three()| && Search(t, 0, first) == Match(0, |first| + 1)
            && ScanFrom(t, |first| + 1, TOP) == ScanFrom(t, i, TOP) && Holds(t, i, Three())
  {
    hide ScanFrom, SkipTo, IsIdentifier, IsWordChar, Search, CallOpen, Holds, Opening, Closing, Three;
    var t := Commented(first, second, Three());
    CommentedHolds(first, second, Three());
    OuterScan(first, second, Three());
    hide Commented;
    CallHere(t, 0, first);
    SearchFinds(t, 0, |first| + 1, first);
  }

  /** The first pass. */
  lemma FirstPass(first: string, second: string, newName: string)
    requires IsIdentifier(first) && IsIdentifier(second)
    ensures Rewrite(Commented(first, second, Three()), first, newName, true) == Commented(newName, second, Once())
  {
    hide ScanFrom, SkipTo, IsIdentifier, IsWordChar, Search, CallOpen, Holds, Opening, Closing, Rewrite, Commented;
    var t, i := Commented(first, second, Three()), |first| + 6 + |second|;
    FirstCall(first, second);
    ScanOriginal(t, i);
    RewriteLastCall(t, 0, |first| + 1, first, newName, true);
    FirstPieces(t, first, second);
    CommentedFromParts(newName, second);
  }

  lemma FirstPieces(t: string, first: string, second: string)
    requires t == Commented(first, second, Three())
    ensures var i := |first| + 6 + |second|;
            t[..0] == "" && t[|first| + 1..i + 4] == "/*" + second + Closing() + "p,q," && t[i + 6..] == "w)"
  {
    var front := first + "(";
    assert t == front + (("/*" + second + Closing() + "p,q,") + ("r," + "w)"));
  }

  lemma CommentedFromParts(newName: string, second: string)
    ensures "" + newName + "(" + (("/*" + second + Closing() + "p,q,") + DEVICE + "w)") == Commented(newName, second, Once())
  {
    assert "p,q," + DEVICE + "w)" == Once();
    assert "(" + "/*" == Opening();
  }

  lemma OnlyTheInnerName(u: string, newName: string, name: string)
    requires IsIdentifier(name) && IsIdentifier(newName) && name != newName
    requires Holds(u, 0, newName) && Holds(u, |newName|, Opening())
    requires Holds(u, |newName| + 3, name) && Holds(u, |newName| + 3 + |name|, "(")
    ensures Search(u, 0, name) == Match(|newName| + 3, |newName| + 3 + |name| + 1)
  {
    hide IsIdentifier, Search, CallOpen, Holds, IsWordChar;
    var start := |newName| + 3;
    StarBefore(u, newName);
    CallHere(u, start, name);
    forall i | 0 <= i < start ensures CallOpen(u, i, name) == 0 {
      NoCallBefore(u, newName, name, i);
    }
    SearchFinds(u, start, start + |name| + 1, name);
  }

  lemma SecondSearch(second: string, newName: string, args: string)
    requires IsIdentifier(second) && IsIdentifier(newName) && second != newName
    ensures var start := |newName| + 3;
            Search(Commented(newName, second, args), 0, second) == Match(start, start + |second| + 1)
  {
    hide IsIdentifier, Search, Holds, Opening, Closing;
    CommentedHolds(newName, second, args);
    hide Commented;
    OnlyTheInnerName(Commented(newName, second, args), newName, second);
  }

  lemma OnceShape()
    ensures |Once()| == 14 && Once()[0] == 'p'
  {
  }

  lemma SecondScan(second: string, newName: string)
    ensures var open := |newName| + 4 + |second|;
            ScanFrom(Commented(newName, second, Once()), open, TOP) == Scan([open + 3, open + 5, open + 13], open + 15, TOP)
    ensures |Commented(newName, second, Once())| == |newName| + |second| + 20
  {
    hide ScanFrom, Holds;
    CommentedHolds(newName, second, Once());
    hide Commented;
    OnceShape();
    hide Once;
    InnerScan(newName, second, Once());
    ScanOnce(Commented(newName, second, Once()), |newName| + 6 + |second|);
  }

  /** The second pass. */
  lemma SecondPass(second: string, newName: string)
    requires IsIdentifier(second) && IsIdentifier(newName) && second != newName
    ensures Rewrite(Commented(newName, second, Once()), second, newName, false) == Commented(newName, newName, Twice())
  {
    hide ScanFrom, IsIdentifier, Search, Commented, Rewrite, Opening, Closing;
    var u, start := Commented(newName, second, Once()), |newName| + 3;
    var open := start + |second| + 1;
    SecondSearch(second, newName, Once());
    SecondScan(second, newName);
    RewriteLastCall(u, start, open, second, newName, false);
    SecondPieces(u, second, newName);
    CommentedTwice(newName);
  }

  lemma StarBefore(u: string, newName: string)
    requires Holds(u, |newName|, Opening())
    ensures |newName| + 3 <= |u| && !IsWordChar(u[|newName| + 2])
  {
    HoldsAt(u, |newName|, Opening(), 2);
  }

  lemma SecondPieces(u: string, second: string, newName: string)
    requires u == Commented(newName, second, Once())
    ensures var start, open := |newName| + 3, |newName| + 4 + |second|;
            u[..start] == newName + Opening() && u[open..open + 6] == "*/" + "p,q," && u[open + 6..] == DEVICE + "w)"
  {
    var front := newName + Opening() + second + "(";
    assert u == front + (("*/" + "p,q,") + (DEVICE + "w)"));
    assert |front| == |newName| + 4 + |second|;
  }

  lemma CommentedTwice(newName: string)
    ensures (newName + Opening()) + newName + "(" + (("*/" + "p,q,") + DEVICE + (DEVICE + "w)"))
            == Commented(newName, newName, Twice())
  {
    assert "p,q," + DEVICE + (DEVICE + "w)") == Twice();
    assert "(" + "*/" == Closing();
  }

  lemma ArgumentsOnce(outer: string, inner: string)
    requires IsIdentifier(inner)
    ensures var t, p := Commented(outer, inner, Once()), |outer| + 1;
            |Arguments(t, p)| == 4 && Arguments(t, p)[2] == " device"
  {
    hide ScanFrom, IsIdentifier, Holds, Arguments, Opening, Closing, Once;
    CommentedHolds(outer, inner, Once());
    OuterScan(outer, inner, Once());
    hide Commented;
    ScanOnce(Commented(outer, inner, Once()), |outer| + 6 + |inner|);
    FourArguments(Commented(outer, inner, Once()), |outer| + 1, |outer| + 6 + |inner|);
  }

  lemma ArgumentsTwice(outer: string, inner: string)
    requires IsIdentifier(inner)
    ensures var t, p := Commented(outer, inner, Twice()), |outer| + 1;
            |Arguments(t, p)| == 5 && Arguments(t, p)[2] == Arguments(t, p)[3] == " device"
  {
    hide ScanFrom, IsIdentifier, Holds, Arguments, Opening, Closing, Twice;
    CommentedHolds(outer, inner, Twice());
    OuterScan(outer, inner, Twice());
    hide Commented;
    ScanTwice(Commented(outer, inner, Twice()), |outer| + 6 + |inner|);
    FiveArguments(Commented(outer, inner, Twice()), |outer| + 1, |outer| + 6 + |inner|);
  }

  /** For all names: the first pass gives the outer call one `device`, the second one adds another, because it
      takes the name in the comment for a call. */
  lemma CommentedNameSplicesTwice(first: string, second: string, newName: string)
    requires IsIdentifier(first) && IsIdentifier(second) && IsIdentifier(newName) && second != newName
    ensures var u := Rewrite(Commented(first, second, Three()), first, newName, true);
            var v := Rewrite(u, second, newName, false);
            && u == Commented(newName, second, Once()) && v == Commented(newName, newName, Twice())
            && |Arguments(u, |newName| + 1)| == 4 && Arguments(u, |newName| + 1)[2] == " device"
            && |Arguments(v, |newName| + 1)| == 5
            && Arguments(v, |newName| + 1)[2] == Arguments(v, |newName| + 1)[3] == " device"
  {
    hide Arguments, Commented, IsIdentifier, Rewrite, Once, Twice, Three;
    FirstPass(first, second, newName);
    SecondPass(second, newName);
    ArgumentsOnce(newName, second);
    ArgumentsTwice(newName, newName);
  }

  lemma DevicePiece(t: string, i: nat)
    requires Holds(t, i, DEVICE)
    ensures Between(t, i, i + 7) == " device"
  {
    HoldsSlice(t, i, DEVICE);
    assert t[i..i + 7] == t[i..i + 8][..7];
  }

  lemma FourArguments(t: string, p: nat, i: nat)
    requires ScanFrom(t, p, TOP) == Scan([i + 1, i + 3, i + 11], i + 13, TOP) && Holds(t, i + 4, DEVICE)
    ensures |Arguments(t, p)| == 4 && Arguments(t, p)[2] == " device"
  {
    hide ScanFrom, Holds;
    DevicePiece(t, i + 4);
    assert [i + 1, i + 3, i + 11] == [i + 1] + ([i + 3] + ([i + 11] + []));
    PiecesCons(t, p, i + 1, [i + 3] + ([i + 11] + []), i + 13);
    PiecesCons(t, i + 2, i + 3, [i + 11] + [], i + 13);
    PiecesCons(t, i + 4, i + 11, [], i + 13);
    OnePiece(t, i + 12, i + 13);
  }

  lemma FiveArguments(t: string, p: nat, i: nat)
    requires ScanFrom(t, p, TOP) == Scan([i + 1, i + 3, i + 11, i + 19], i + 21, TOP)
    requires Holds(t, i + 4, DEVICE) && Holds(t, i + 12, DEVICE)
    ensures |Arguments(t, p)| == 5 && Arguments(t, p)[2] == Arguments(t, p)[3] == " device"
  {
    hide ScanFrom, Holds;
    DevicePiece(t, i + 4);
    DevicePiece(t, i + 12);
    assert [i + 1, i + 3, i + 11, i + 19] == [i + 1] + ([i + 3] + ([i + 11] + ([i + 19] + [])));
    PiecesCons(t, p, i + 1, [i + 3] + ([i + 11] + ([i + 19] + [])), i + 21);
    PiecesCons(t, i + 2, i + 3, [i + 11] + ([i + 19] + []), i + 21);
    PiecesCons(t, i + 4, i + 11, [i + 19] + [], i + 21);
    PiecesCons(t, i + 12, i + 19, [], i + 21);
    OnePiece(t, i + 20, i + 21);
  }
}
