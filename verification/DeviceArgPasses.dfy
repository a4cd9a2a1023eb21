/** The device-argument rewriter over a whole file and over its two passes. */
module DeviceArgPasses {
  import opened CallScanner
  import opened CppText
  import opened DeviceArg
  import opened PythonText
  import opened DeviceArgProofs
  import opened DeviceArgRescan

  /** A rewritten call: where its arguments began in the input, and where they begin in the output. */
  datatype Site = Site(open: nat, at: nat)

  function Sites(t: string, cursor: nat, name: string, newName: string, replace: bool, base: nat): seq<Site>
    requires cursor <= |t|
    decreases |t| - cursor
  {
    var turn := TurnAt(t, cursor, name, replace);
    var here := if turn.seg.Call?
                then [Site(cursor + |turn.seg.before| + |turn.seg.head| + 1, base + |turn.seg.before| + |newName| + 1)]
                else [];
    if turn.last then here
    else here + Sites(t, turn.next, name, newName, replace, base + |NewText(turn.seg, newName)|)
  }

  /** What a rewritten call is in the output. */
  ghost predicate SiteIsRewritten(t: string, out: string, newName: string, replace: bool, s: Site) {
    && s.open <= |t| && Qualifies(t, s.open, replace) && |Arguments(t, s.open)| >= 3
    && |newName| + 1 <= s.at <= |out| && out[s.at - |newName| - 1..s.at] == newName + "("
    && ScanFrom(out, s.at, TOP).end >= 0
    && Arguments(out, s.at) == WithDevice(Arguments(t, s.open), replace)
  }

  lemma SiteOfTurn(t: string, cursor: nat, name: string, newName: string, replace: bool, pre: string, post: string)
    requires cursor <= |t| && TurnAt(t, cursor, name, replace).seg.Call?
    ensures var seg := TurnAt(t, cursor, name, replace).seg;
            SiteIsRewritten(t, pre + NewText(seg, newName) + post, newName, replace,
                            Site(cursor + |seg.before| + |seg.head| + 1, |pre| + |seg.before| + |newName| + 1))
  {
    hide TurnAt, ScanFrom, SkipTo, Arguments, CallOpen, CutCall, Qualifies, NewText, IsWordChar, SiteIsRewritten;
    var start, open, p, q := TurnCases(t, cursor, name, replace);
    var turn := TurnAt(t, cursor, name, replace);
    TextOfCall(turn.seg, newName);
    CutCallSizes(t, cursor, start, open, p, q, turn.next);
    SiteOfCall(t, open, replace, pre, turn.seg.before, newName, SplicedArgs(turn.seg), post);
  }

  lemma SiteOfCall(t: string, open: nat, replace: bool, pre: string, before: string, newName: string, args: string, post: string)
    requires open <= |t| && Qualifies(t, open, replace)
    requires var r := ScanFrom(t, open, TOP);
             var p, q := r.commas[1] + 1, ResumeComma(r, replace) + 1;
             open <= p <= q <= r.end + 1 <= |t| && args == t[open..p] + DEVICE + t[q..r.end + 1]
    ensures SiteIsRewritten(t, pre + (before + newName + "(" + args) + post, newName, replace,
                            Site(open, |pre| + |before| + |newName| + 1))
  {
    hide ScanFrom, SkipTo, Arguments, WithDevice;
    RescanInPlace(t, open, replace, pre + before + newName + "(", post);
    Regroup(pre, before, newName, args, post);
  }

  lemma TextOfCall(seg: Segment, newName: string)
    requires seg.Call?
    ensures NewText(seg, newName) == seg.before + newName + "(" + SplicedArgs(seg)
  {
  }

  lemma CutCallSizes(t: string, cursor: nat, start: nat, open: nat, p: nat, q: nat, e: nat)
    requires cursor <= start < open <= p <= q <= e <= |t|
    ensures var seg := CutCall(t, cursor, start, open, p, q, e);
            && cursor + |seg.before| + |seg.head| + 1 == open
            && SplicedArgs(seg) == t[open..p] + DEVICE + t[q..e]
  {
  }

  lemma Regroup(pre: string, before: string, newName: string, args: string, post: string)
    ensures var front := pre + before + newName + "(";
            var out := pre + (before + newName + "(" + args) + post;
            && out == front + args + post
            && |newName| + 1 <= |front| <= |out|
            && out[|front| - |newName| - 1..|front|] == newName + "("
  {
    var front := pre + before + newName + "(";
    var out := pre + (before + newName + "(" + args) + post;
    assert out == front + args + post;
    assert front == (pre + before) + (newName + "(");
    assert out[..|front|] == front;
    assert out[|front| - |newName| - 1..|front|] == front[|front| - |newName| - 1..];
  }

  /** Every rewritten call of a file, found again in the output, has the argument list it should have. */
  lemma {:induction false} EveryRewrittenCallRescans(t: string, cursor: nat, name: string, newName: string, replace: bool,
                                                     pre: string)
    requires cursor <= |t|
    ensures forall s <- Sites(t, cursor, name, newName, replace, |pre|) ::
              SiteIsRewritten(t, pre + Output(Segments(t, cursor, name, replace), newName), newName, replace, s)
    decreases |t| - cursor
  {
    hide TurnAt, SiteIsRewritten, NewText, Output, Segments;
    var turn := TurnAt(t, cursor, name, replace);
    var text := NewText(turn.seg, newName);
    OutputOfTurn(t, cursor, name, newName, replace);
    var rest := if turn.last then "" else Output(Segments(t, turn.next, name, replace), newName);
    assert pre + (text + rest) == pre + text + rest;
    if turn.seg.Call? {
      SiteOfTurn(t, cursor, name, newName, replace, pre, rest);
    }
    if !turn.last {
      EveryRewrittenCallRescans(t, turn.next, name, newName, replace, pre + text);
    }
  }

  ghost predicate IsCallOpen(t: string, name: string, open: nat) {
    exists i :: 0 <= i < open && CallOpen(t, i, name) == open
  }

  /** Rewritten calls are calls of the name. */
  lemma {:induction false} SitesAreCalls(t: string, cursor: nat, name: string, newName: string, replace: bool, base: nat)
    requires cursor <= |t|
    ensures forall s <- Sites(t, cursor, name, newName, replace, base) :: IsCallOpen(t, name, s.open)
    decreases |t| - cursor
  {
    hide TurnAt, ScanFrom, CallOpen, Qualifies, NewText, CutCall;
    var turn := TurnAt(t, cursor, name, replace);
    var start, open, p, q := TurnCases(t, cursor, name, replace);
    if turn.seg.Call? {
      CutCallSizes(t, cursor, start, open, p, q, turn.next);
      assert IsCallOpen(t, name, open);
    }
    if !turn.last {
      SitesAreCalls(t, turn.next, name, newName, replace, base + |NewText(turn.seg, newName)|);
    }
  }

  /** No call is rewritten twice in one pass: rewritten calls follow one another, in the input and in the
      output. */
  ghost predicate Ordered(sites: seq<Site>, cursor: nat, base: nat) {
    && (forall s <- sites :: s.open > cursor && s.at > base)
    && (forall m, n | 0 <= m < n < |sites| :: sites[m].open < sites[n].open && sites[m].at < sites[n].at)
  }

  lemma OrderedMore(s: Site, rest: seq<Site>, cursor: nat, base: nat, next: nat, nextBase: nat)
    requires Ordered(rest, next, nextBase) && cursor < s.open <= next && base < s.at <= nextBase
    ensures Ordered([s] + rest, cursor, base)
  {
  }

  lemma OrderedLess(rest: seq<Site>, cursor: nat, base: nat, next: nat, nextBase: nat)
    requires Ordered(rest, next, nextBase) && cursor <= next && base <= nextBase
    ensures Ordered(rest, cursor, base)
  {
  }

  lemma {:induction false} SitesInOrder(t: string, cursor: nat, name: string, newName: string, replace: bool, base: nat)
    requires cursor <= |t|
    ensures Ordered(Sites(t, cursor, name, newName, replace, base), cursor, base)
    decreases |t| - cursor
  {
    hide TurnAt, ScanFrom, CallOpen, Qualifies, NewText, CutCall, Ordered, SplicedArgs, ResumeComma;
    var start, open, p, q := TurnCases(t, cursor, name, replace);
    var turn := TurnAt(t, cursor, name, replace);
    var rest, nextBase := [], base + |NewText(turn.seg, newName)|;
    if turn.last {
      NoSites(cursor, base);
    } else {
      SitesInOrder(t, turn.next, name, newName, replace, nextBase);
      rest := Sites(t, turn.next, name, newName, replace, nextBase);
    }
    if turn.seg.Call? {
      CutCallSizes(t, cursor, start, open, p, q, turn.next);
      NewTextSize(turn.seg, newName);
      OrderedMore(Site(open, base + |turn.seg.before| + |newName| + 1), rest, cursor, base, turn.next, nextBase);
    } else if !turn.last {
      assert [] + rest == rest;
      OrderedLess(rest, cursor, base, turn.next, nextBase);
    }
  }

  lemma NoSites(cursor: nat, base: nat)
    ensures Ordered([], cursor, base)
  {
  }

  lemma NewTextSize(seg: Segment, newName: string)
    requires seg.Call?
    ensures |NewText(seg, newName)| >= |seg.before| + |newName| + 1
  {
  }

  // ----- the two passes of refactor_file -----

  const PLAIN := "test_operation_parity"
  const BACKENDS := "test_operation_parity_backends"
  const SINGLE := "test_operation_parity_single"

  method StrictPasses(text: string) returns (out: string)
    ensures out == Rewrite(Rewrite(text, BACKENDS, SINGLE, true), PLAIN, SINGLE, false)
  {
    var new_text := InsertDeviceArg(text, BACKENDS, SINGLE, true);
    out := InsertDeviceArg(new_text, PLAIN, SINGLE, false);
  }

  // ----- the new name stands alone -----

  /** Before the name written for the call stands no word character. */
  ghost predicate Bounded(out: string, newName: string, s: Site) {
    |newName| + 1 <= s.at <= |out| && (s.at > |newName| + 1 ==> !IsWordChar(out[s.at - |newName| - 2]))
  }

  /** What was written so far ends as the input did up to the cursor. */
  ghost predicate EndsAlike(pre: string, t: string, cursor: nat)
    requires cursor <= |t|
  {
    pre != "" ==> cursor > 0 && pre[|pre| - 1] == t[cursor - 1]
  }

  lemma EndsWith(pre: string, s: string, t: string, next: nat)
    requires s != "" && 0 < next <= |t| && s[|s| - 1] == t[next - 1]
    ensures EndsAlike(pre + s, t, next)
  {
  }

  lemma EndOfTurn(t: string, cursor: nat, name: string, newName: string, replace: bool, pre: string)
    requires cursor <= |t| && EndsAlike(pre, t, cursor)
    ensures EndsAlike(pre + NewText(TurnAt(t, cursor, name, replace).seg, newName), t, TurnAt(t, cursor, name, replace).next)
  {
    hide TurnAt, ScanFrom, CallOpen, Qualifies, EndsAlike, CutCall, NewText;
    var start, open, p, q := TurnCases(t, cursor, name, replace);
    var turn := TurnAt(t, cursor, name, replace);
    if turn.seg.Call? {
      QualifiedEnds(t, open, p, q, replace);
      CallTextEnds(t, cursor, start, open, p, q, turn.next, newName);
      EndsWith(pre, NewText(turn.seg, newName), t, turn.next);
    } else {
      PlainTextIs(turn.seg, newName);
      if cursor < turn.next {
        EndsWith(pre, t[cursor..turn.next], t, turn.next);
      } else {
        assert pre + t[cursor..turn.next] == pre;
      }
    }
  }

  lemma PlainTextIs(seg: Segment, newName: string)
    requires seg.Plain?
    ensures NewText(seg, newName) == seg.text
  {
  }

  lemma CallTextEnds(t: string, cursor: nat, start: nat, open: nat, p: nat, q: nat, e: nat, newName: string)
    requires cursor <= start < open <= p <= q < e <= |t|
    ensures var s := NewText(CutCall(t, cursor, start, open, p, q, e), newName); s != "" && s[|s| - 1] == t[e - 1]
  {
    hide NewText, SplicedArgs, CutCall;
    var seg := CutCall(t, cursor, start, open, p, q, e);
    CutCallSizes(t, cursor, start, open, p, q, e);
    TextOfCall(seg, newName);
    LastOfSum(t[open..p] + DEVICE, t[q..e]);
    LastOfSum(seg.before + newName + "(", SplicedArgs(seg));
  }

  lemma LastOfSum(a: string, b: string)
    requires b != ""
    ensures a + b != "" && (a + b)[|a + b| - 1] == b[|b| - 1]
  {
  }

  lemma QualifiedEnds(t: string, open: nat, p: nat, q: nat, replace: bool)
    requires Qualifies(t, open, replace) && q == ResumeComma(ScanFrom(t, open, TOP), replace) + 1
    ensures q <= ScanFrom(t, open, TOP).end < |t|
  {
    hide ScanFrom;
    ScanPositions(t, open);
  }

  lemma BoundedHere(t: string, cursor: nat, start: nat, name: string, newName: string, pre: string, rest: string)
    requires cursor <= start < |t| && EndsAlike(pre, t, cursor) && (start > 0 ==> !IsWordChar(t[start - 1]))
    ensures Bounded(pre + t[cursor..start] + newName + "(" + rest, newName,
                    Site(start, |pre| + (start - cursor) + |newName| + 1))
  {
    var front := pre + t[cursor..start];
    var out := front + newName + "(" + rest;
    if front != "" {
      assert out[|front| - 1] == front[|front| - 1];
    }
  }

  lemma CallIsBounded(t: string, start: nat, name: string)
    requires CallOpen(t, start, name) != 0
    ensures start > 0 ==> !IsWordChar(t[start - 1])
  {
  }

  lemma BoundedTurn(t: string, cursor: nat, name: string, newName: string, replace: bool, pre: string, rest: string)
    requires cursor <= |t| && EndsAlike(pre, t, cursor) && TurnAt(t, cursor, name, replace).seg.Call?
    ensures var seg := TurnAt(t, cursor, name, replace).seg;
            Bounded(pre + NewText(seg, newName) + rest, newName,
                    Site(cursor + |seg.before| + |seg.head| + 1, |pre| + |seg.before| + |newName| + 1))
  {
    hide TurnAt, ScanFrom, CallOpen, Qualifies, EndsAlike, SplicedArgs, CutCall, Bounded, IsWordChar, IsSpace, NewText;
    var start, open, p, q := TurnCases(t, cursor, name, replace);
    var turn := TurnAt(t, cursor, name, replace);
    CallIsBounded(t, start, name);
    CutCallBefore(t, cursor, start, open, p, q, turn.next);
    BoundedHere(t, cursor, start, name, newName, pre, SplicedArgs(turn.seg) + rest);
    Reassociate(pre, t[cursor..start], newName, SplicedArgs(turn.seg), rest);
    TextOfCall(turn.seg, newName);
    OnlyPositionCounts(pre + NewText(turn.seg, newName) + rest, newName, |pre| + (start - cursor) + |newName| + 1,
                       start, cursor + |turn.seg.before| + |turn.seg.head| + 1);
  }

  lemma Reassociate(pre: string, before: string, newName: string, args: string, rest: string)
    ensures pre + (before + newName + "(" + args) + rest == pre + before + newName + "(" + (args + rest)
  {
  }

  lemma OnlyPositionCounts(out: string, newName: string, at: nat, open: nat, open': nat)
    requires Bounded(out, newName, Site(open, at))
    ensures Bounded(out, newName, Site(open', at))
  {
  }

  lemma {:induction false} SitesAreBounded(t: string, cursor: nat, name: string, newName: string, replace: bool, pre: string)
    requires cursor <= |t| && EndsAlike(pre, t, cursor)
    ensures forall s <- Sites(t, cursor, name, newName, replace, |pre|) ::
              Bounded(pre + Output(Segments(t, cursor, name, replace), newName), newName, s)
    decreases |t| - cursor
  {
    hide TurnAt, Output, Segments, EndsAlike, NewText, Bounded;
    var turn := TurnAt(t, cursor, name, replace);
    var text := NewText(turn.seg, newName);
    OutputOfTurn(t, cursor, name, newName, replace);
    var rest := if turn.last then "" else Output(Segments(t, turn.next, name, replace), newName);
    assert pre + (text + rest) == pre + text + rest;
    if turn.seg.Call? {
      BoundedTurn(t, cursor, name, newName, replace, pre, rest);
    }
    if !turn.last {
      EndOfTurn(t, cursor, name, newName, replace, pre);
      SitesAreBounded(t, turn.next, name, newName, replace, pre + text);
    }
  }

  lemma CutCallBefore(t: string, cursor: nat, start: nat, open: nat, p: nat, q: nat, e: nat)
    requires cursor <= start < open <= p <= q <= e <= |t|
    ensures CutCall(t, cursor, start, open, p, q, e).before == t[cursor..start]
  {
  }

  /** Two words that end at the same place and stand alone start at the same place. */
  lemma SameWord(u: string, i: nat, j: nat, e: nat)
    requires i < e <= |u| && j < e
    requires (forall k | i <= k < e :: IsWordChar(u[k])) && (forall k | j <= k < e :: IsWordChar(u[k]))
    requires (i > 0 ==> !IsWordChar(u[i - 1])) && (j > 0 ==> !IsWordChar(u[j - 1]))
    ensures i == j
  {
    hide IsWordChar;
  }

  /** A call under a name that stands alone is no call of another name. */
  lemma CallHasOneName(u: string, newName: string, s: Site, i: nat, other: string)
    requires IsIdentifier(newName) && IsIdentifier(other)
    requires Bounded(u, newName, s) && u[s.at - |newName| - 1..s.at] == newName + "("
    requires CallOpen(u, i, other) == s.at
    ensures other == newName
  {
    hide IsWordChar, IsSpace;
    var start := s.at - |newName| - 1;
    NameChars(u, start, newName + "(");
    assert forall k | start <= k < s.at - 1 :: u[k] == (newName + "(")[k - start] == newName[k - start];
    CallName(u, i, other);
    LastOfName(u, i, other, s.at);
    assert forall k | i <= k < s.at - 1 :: u[k] == other[k - i];
    SameWord(u, i, start, s.at - 1);
    assert u[start..s.at - 1] == (newName + "(")[..|newName|] == newName;
  }

  lemma CallName(u: string, i: nat, name: string)
    requires CallOpen(u, i, name) != 0
    ensures i + |name| <= |u| && u[i..i + |name|] == name && (i > 0 ==> !IsWordChar(u[i - 1]))
    ensures forall k | 0 <= k < |name| :: u[i + k] == name[k]
  {
    NameChars(u, i, name);
  }

  lemma NameChars(u: string, i: nat, name: string)
    requires i + |name| <= |u| && u[i..i + |name|] == name
    ensures forall k | 0 <= k < |name| :: u[i + k] == name[k]
  {
    forall k | 0 <= k < |name| ensures u[i + k] == name[k] {
      assert u[i..i + |name|][k] == u[i + k];
    }
  }

  /** If a word character stands before the parenthesis of a call, its name ends there. */
  lemma LastOfName(u: string, i: nat, name: string, at: nat)
    requires at != 0 && CallOpen(u, i, name) == at
    requires at >= 2 && IsWordChar(u[at - 2])
    ensures i + |name| == at - 1
  {
  }

  /** A second pass for another name never takes a call of the first pass for one of its own. */
  lemma NoCallSplicedTwice(t: string, first: string, second: string, newName: string)
    requires IsIdentifier(second) && IsIdentifier(newName) && second != newName
    ensures forall s1, s2 | s1 in Sites(t, 0, first, newName, true, 0)
                            && s2 in Sites(Rewrite(t, first, newName, true), 0, second, newName, false, 0) ::
              s1.at != s2.open
  {
    hide Sites, Output, Segments, Bounded, CallOpen, SiteIsRewritten, IsIdentifier;
    var u := Rewrite(t, first, newName, true);
    assert "" + Output(Segments(t, 0, first, true), newName) == u;
    SitesAreBounded(t, 0, first, newName, true, "");
    EveryRewrittenCallRescans(t, 0, first, newName, true, "");
    SitesAreCalls(u, 0, second, newName, false, 0);
    forall s1, s2 | s1 in Sites(t, 0, first, newName, true, 0) && s2 in Sites(u, 0, second, newName, false, 0)
      ensures s1.at != s2.open
    {
      NewNameAtSite(u, newName, true, s1, t);
      var i :| 0 <= i < s2.open && CallOpen(u, i, second) == s2.open;
      if s1.at == s2.open {
        CallHasOneName(u, newName, s1, i, second);
      }
    }
  }

  lemma NewNameAtSite(u: string, newName: string, replace: bool, s: Site, t: string)
    requires SiteIsRewritten(t, u, newName, replace, s)
    ensures |newName| + 1 <= s.at <= |u| && u[s.at - |newName| - 1..s.at] == newName + "("
  {
  }
}
