/** The second pass over what the first one wrote. How many arguments a call has after it is known exactly: as
    many as before, and one more for every rewritten call whose second comma separates its own arguments. */
module DeviceArgSecondPass {
  import opened CallScanner
  import opened CppText
  import opened DeviceArg
  import opened PythonText
  import opened DeviceArgProofs
  import opened DeviceArgRescan
  import opened DeviceArgEdits
  import opened DeviceArgNesting

  // ----- one rewritten call, seen from any call -----

  /** A name and the space behind it. */
  ghost predicate IsHead(t: string, start: nat, open: nat) {
    && start + 1 < open <= |t| && t[open - 1] == '(' && IsWordChar(t[start])
    && forall k | start <= k < open - 1 :: IsWordChar(t[k]) || IsSpace(t[k])
  }

  /** The head does not disturb a scan from p: it is on one line, or the scan comes to it as code, or it is not
      inside the call at all. */
  ghost predicate HeadFine(t: string, p: nat, start: nat, open: nat)
    requires start < open <= |t|
  {
    OneLine(t, start, open - 1) || Reaches(t, p, start) || p >= open || ScanFrom(t, p, TOP).end < start
  }

  lemma HeadIsQuiet(t: string, start: nat, open: nat)
    requires IsHead(t, start, open)
    ensures forall k | start <= k < open - 1 :: IsQuiet(t[k]) && t[k] != ','
    ensures t[start] != '\n' && t[start] != '/'
  {
  }

  lemma NameIsQuiet(name: string)
    requires IsIdentifier(name)
    ensures forall k | 0 <= k < |name| :: IsQuiet(name[k]) && name[k] != ',' && name[k] != '\n'
  {
  }

  /** The new head in place of the old one. */
  lemma NewHead(w: string, start: nat, open: nat, newName: string)
    requires IsHead(w, start, open) && IsIdentifier(newName)
    ensures var w' := w[..start] + newName + w[open - 1..];
            && Replaced(w, start, open - 1, w', start + |newName|)
            && OneLine(w', start, start + |newName|)
            && (forall k | start <= k < start + |newName| :: w'[k] != ',')
  {
    hide IsQuiet, IsWordChar, IsSpace;
    var w' := w[..start] + newName + w[open - 1..];
    HeadIsQuiet(w, start, open);
    NameIsQuiet(newName);
    forall k | start <= k < start + |newName| ensures w'[k] == newName[k - start] {
    }
    forall k | open - 1 <= k < |w| ensures w[k] == w'[k - (open - 1) + (start + |newName|)] {
    }
  }

  /** Where a call that opens at p opens after the call that starts at `start` was rewritten. */
  function After(p: nat, start: nat, open: nat, q: nat, newName: string): int {
    p + (if p >= open then |newName| - (open - 1 - start) else 0) + (if p > q then 8 else 0)
  }

  /** From w to w' the call at p moved to p' and gained that many separating commas. */
  ghost predicate Effect(w: string, p: nat, w': string, p': int, gained: nat) {
    && p' >= 0 && ScanFrom(w', p', TOP).end >= 0
    && |ScanFrom(w', p', TOP).commas| == |ScanFrom(w, p, TOP).commas| + gained
    && (DeviceThird(w, p) && gained == 0 ==> DeviceThird(w', p'))
  }

  lemma InsertEffect(w: string, q: nat, p: nat)
    requires q + 1 < |w| && w[q] == ',' && ScanFrom(w, p, TOP).end >= 0
    ensures Effect(w, p, w[..q + 1] + DEVICE + w[q + 1..], if p <= q then p else p + 8,
                   if q in ScanFrom(w, p, TOP).commas then 1 else 0)
  {
    hide ScanFrom, DeviceThird;
    DeviceInserted(w, q, p);
  }

  lemma HeadEffect(w: string, start: nat, open: nat, newName: string, p: nat)
    requires IsHead(w, start, open) && IsIdentifier(newName)
    requires ScanFrom(w, p, TOP).end >= 0 && (p <= start || p >= open - 1)
    requires OneLine(w, start, open - 1) || Reaches(w, p, start) || p >= open - 1 || ScanFrom(w, p, TOP).end < start
    ensures Effect(w, p, w[..start] + newName + w[open - 1..], if p < open - 1 then p else p + |newName| - (open - 1 - start), 0)
  {
    hide ScanFrom, DeviceThird, IsQuiet, IsWordChar, IsSpace, Reaches, Replaced, IsIdentifier;
    HeadIsQuiet(w, start, open);
    NewHead(w, start, open, newName);
    HeadReplaced(w, start, open - 1, w[..start] + newName + w[open - 1..], start + |newName|, p);
  }

  lemma EffectsAddUp(w: string, p: nat, w1: string, p1: nat, g1: nat, w2: string, p2: int)
    requires Effect(w, p, w1, p1, g1) && Effect(w1, p1, w2, p2, 0)
    ensures Effect(w, p, w2, p2, g1)
  {
    hide ScanFrom, DeviceThird;
  }

  /** Rewriting one call adds an argument to another one, or to itself, exactly if its second comma is a
      separating comma there. */
  lemma OneRewrite(w: string, start: nat, open: nat, newName: string, p: nat)
    requires IsHead(w, start, open) && IsIdentifier(newName) && Qualifies(w, open, false)
    requires ScanFrom(w, p, TOP).end >= 0 && (p <= start || p >= open) && HeadFine(w, p, start, open)
    ensures var q := ScanFrom(w, open, TOP).commas[1];
            Effect(w, p, RewriteOne(w, start, open, newName), After(p, start, open, q, newName),
                   if q in ScanFrom(w, p, TOP).commas then 1 else 0)
  {
    hide ScanFrom, IsWordChar, IsSpace, Reaches, IsIdentifier, Qualifies, RewriteOne, HeadFine;
    var q := SecondComma(w, open);
    var w1 := w[..q + 1] + DEVICE + w[q + 1..];
    var p1 := if p <= q then p else p + 8;
    InsertEffect(w, q, p);
    InsertedKeepsHead(w, start, open, q, p);
    RewriteInTwoSteps(w, start, open, newName);
    assert start + 1 < open;
    hide IsHead;
    HeadEffect(w1, start, open, newName, p1);
    var gained := if q in ScanFrom(w, p, TOP).commas then 1 else 0;
    var p2 := if p1 < open - 1 then p1 else p1 + |newName| - (open - 1 - start);
    EffectsAddUp(w, p, w1, p1, gained, w1[..start] + newName + w1[open - 1..], p2);
    AfterIs(p, start, open, q, newName);
  }

  lemma AfterIs(p: nat, start: nat, open: nat, q: nat, newName: string)
    requires start + 1 < open <= q && (p <= start || p >= open)
    ensures var p1 := if p <= q then p else p + 8;
            After(p, start, open, q, newName) == if p1 < open - 1 then p1 else p1 + |newName| - (open - 1 - start)
  {
  }

  lemma SecondComma(w: string, open: nat) returns (q: nat)
    requires Qualifies(w, open, false)
    ensures |ScanFrom(w, open, TOP).commas| >= 2 && q == ScanFrom(w, open, TOP).commas[1]
    ensures open <= q && q + 1 < |w| && w[q] == ','
  {
    hide ScanFrom;
    ScanPositions(w, open);
    CommasInOrder(w, open, TOP);
    q := ScanFrom(w, open, TOP).commas[1];
  }

  lemma RewriteInTwoSteps(w: string, start: nat, open: nat, newName: string)
    requires start < open <= |w| && w[open - 1] == '(' && Qualifies(w, open, false)
    ensures var q := ScanFrom(w, open, TOP).commas[1];
            && open <= q < |w|
            && (var w1 := w[..q + 1] + DEVICE + w[q + 1..];
                RewriteOne(w, start, open, newName) == w1[..start] + newName + w1[open - 1..])
  {
    hide ScanFrom, Qualifies, RewriteOne, Between, Move, SkipTo;
    var q := SecondComma(w, open);
    RewriteOneIs(w, start, open, newName);
    TwoSteps(w, start, open, q, ScanFrom(w, open, TOP).end + 1, newName);
  }

  lemma TwoSteps(w: string, start: nat, open: nat, q: nat, e: nat, newName: string)
    requires start < open <= q < e <= |w| && w[open - 1] == '('
    ensures var w1 := w[..q + 1] + DEVICE + w[q + 1..];
            w1[..start] + newName + w1[open - 1..]
            == w[..start] + newName + "(" + (w[open..q + 1] + DEVICE + w[q + 1..e]) + w[e..]
  {
    var w1 := w[..q + 1] + DEVICE + w[q + 1..];
    assert w1[..start] == w[..start];
    assert w1[open - 1..] == "(" + (w[open..q + 1] + DEVICE + w[q + 1..e]) + w[e..];
  }

  lemma InsertedKeepsHead(w: string, start: nat, open: nat, q: nat, p: nat)
    requires IsHead(w, start, open) && open <= q && q + 1 < |w| && w[q] == ','
    requires ScanFrom(w, p, TOP).end >= 0 && (p <= start || p >= open) && HeadFine(w, p, start, open)
    ensures var w1 := w[..q + 1] + DEVICE + w[q + 1..];
            var p1 := if p <= q then p else p + 8;
            && IsHead(w1, start, open) && (p1 <= start || p1 >= open)
            && (OneLine(w1, start, open - 1) || Reaches(w1, p1, start) || p1 >= open - 1 || ScanFrom(w1, p1, TOP).end < start)
            && (forall k | start <= k < open - 1 :: w1[k] != ',')
  {
    hide ScanFrom, IsQuiet, IsWordChar, IsSpace, Reaches;
    var w1 := w[..q + 1] + DEVICE + w[q + 1..];
    assert forall k | 0 <= k <= q :: w1[k] == w[k];
    HeadIsQuiet(w1, start, open);
    if p <= start {
      if Reaches(w, p, start) {
        ReachesCopied(w, p, start, w1);
      }
      DeviceInserted(w, q, p);
    }
  }

  /** A walk comes to a position as code in every text that agrees up to and including it. */
  lemma {:induction false} ReachesCopied(t: string, i: nat, j: nat, t': string)
    requires Reaches(t, i, j) && j < |t| && t[j] != '/' && Copied(t, 0, j + 1, t', 0)
    ensures Reaches(t', i, j)
    decreases |t| - i
  {
    hide SkipTo;
    if i < j {
      assert Copied(t, i, j + 1, t', i);
      SkipMoves(t, i, j, t', i);
      ReachesCopied(t, if SkipTo(t, i) > i then SkipTo(t, i) else i + 1, j, t');
    }
  }

  // ----- the whole pass, from its last call to its first -----

  /** The text with only the calls behind the cursor rewritten. */
  function Partly(u: string, cursor: nat, name: string, newName: string): string
    requires cursor <= |u|
  {
    u[..cursor] + Output(Segments(u, cursor, name, false), newName)
  }

  function StartOf(cursor: nat, seg: Segment): nat
    requires seg.Call?
  {
    cursor + |seg.before|
  }

  function OpenOf(cursor: nat, seg: Segment): nat
    requires seg.Call?
  {
    cursor + |seg.before| + |seg.head| + 1
  }

  /** Where the second comma of the call stands, behind which the pass inserts. */
  function SecondOf(cursor: nat, seg: Segment): int
    requires seg.Call?
  {
    OpenOf(cursor, seg) + |seg.first| - 1
  }

  function ShiftOf(p: nat, cursor: nat, seg: Segment, newName: string): int {
    if seg.Plain? then 0
    else (if p >= OpenOf(cursor, seg) then |newName| - |seg.head| else 0) + (if p > SecondOf(cursor, seg) then 8 else 0)
  }

  /** Where a call that opens at p opens after the calls from the cursor on were rewritten. */
  function Landing(u: string, cursor: nat, name: string, newName: string, p: nat): int
    requires cursor <= |u|
    decreases |u| - cursor
  {
    var turn := TurnAt(u, cursor, name, false);
    ShiftOf(p, cursor, turn.seg, newName) + if turn.last then p else Landing(u, turn.next, name, newName, p)
  }

  /** How many rewritten calls have their second comma among the given ones. */
  function Intrusions(u: string, cursor: nat, name: string, commas: seq<nat>): nat
    requires cursor <= |u|
    decreases |u| - cursor
  {
    var turn := TurnAt(u, cursor, name, false);
    (if turn.seg.Call? && SecondOf(cursor, turn.seg) in commas then 1 else 0)
    + if turn.last then 0 else Intrusions(u, turn.next, name, commas)
  }

  /** No head of a rewritten call disturbs the scan from p. */
  ghost predicate HeadsFine(u: string, cursor: nat, name: string, p: nat)
    requires cursor <= |u|
    decreases |u| - cursor
  {
    var turn := TurnAt(u, cursor, name, false);
    && (turn.seg.Call? && OpenOf(cursor, turn.seg) <= |u| ==> HeadFine(u, p, StartOf(cursor, turn.seg), OpenOf(cursor, turn.seg)))
    && (!turn.last ==> HeadsFine(u, turn.next, name, p))
  }

  /** One turn that rewrites a call. */
  lemma CallTurn(u: string, cursor: nat, name: string)
    requires cursor <= |u| && IsIdentifier(name) && TurnAt(u, cursor, name, false).seg.Call?
    ensures var turn := TurnAt(u, cursor, name, false);
            var start, open, q := StartOf(cursor, turn.seg), OpenOf(cursor, turn.seg), SecondOf(cursor, turn.seg);
            && !turn.last && cursor <= start && open <= q && q + 1 < turn.next <= |u| && u[q] == ','
            && IsHead(u, start, open) && Qualifies(u, open, false) && open == CallOpen(u, start, name)
            && q == ScanFrom(u, open, TOP).commas[1] && turn.next == ScanFrom(u, open, TOP).end + 1
            && turn.seg == CutCall(u, cursor, start, open, q + 1, q + 1, turn.next) && |turn.seg.head| == open - 1 - start
  {
    hide TurnAt, ScanFrom, CallOpen, Qualifies, IsWordChar, IsSpace;
    var start, open, p, q := TurnCases(u, cursor, name, false);
    var turn := TurnAt(u, cursor, name, false);
    var second := SecondComma(u, open);
    ResumesThere(ScanFrom(u, open, TOP));
    CallIsHead(u, start, name);
    ScanPositions(u, open);
    CutCallShape(u, cursor, start, open, p, q, turn.next);
  }

  lemma ResumesThere(r: Scan)
    requires |r.commas| >= 2
    ensures ResumeComma(r, false) == r.commas[1]
  {
  }

  lemma CutCallShape(t: string, cursor: nat, start: nat, open: nat, p: nat, q: nat, e: nat)
    requires cursor <= start < open <= p <= q <= e <= |t|
    ensures var s := CutCall(t, cursor, start, open, p, q, e);
            && |s.before| == start - cursor && |s.head| == open - 1 - start && |s.first| == p - open
            && s.before == t[cursor..start] && s.first == t[open..p] && s.third == t[p..q] && s.tail == t[q..e]
  {
  }

  lemma CallIsHead(u: string, start: nat, name: string)
    requires IsIdentifier(name) && CallOpen(u, start, name) != 0
    ensures IsHead(u, start, CallOpen(u, start, name))
  {
    hide IsSpace, IsWordChar;
    var open := CallOpen(u, start, name);
    forall k | start <= k < start + |name| ensures u[k] == name[k - start] {
      assert u[start..start + |name|][k - start] == u[k];
    }
  }

  lemma PartlyOfPlain(u: string, cursor: nat, name: string, newName: string)
    requires cursor <= |u| && TurnAt(u, cursor, name, false).seg.Plain?
    ensures var turn := TurnAt(u, cursor, name, false);
            Partly(u, cursor, name, newName) == if turn.last then u else Partly(u, turn.next, name, newName)
  {
    hide TurnAt, Segments, Output, ScanFrom, CallOpen, Qualifies, CutCall;
    var start, open, p, q := TurnCases(u, cursor, name, false);
    var turn := TurnAt(u, cursor, name, false);
    OutputOfTurn(u, cursor, name, newName, false);
    if turn.last {
      assert u[..cursor] + (u[cursor..|u|] + "") == u;
    } else {
      var rest := Output(Segments(u, turn.next, name, false), newName);
      assert u[..cursor] + (u[cursor..turn.next] + rest) == u[..turn.next] + rest;
    }
  }

  lemma PartlyAgrees(u: string, cursor: nat, name: string, newName: string)
    requires cursor <= |u|
    ensures Copied(u, 0, cursor, Partly(u, cursor, name, newName), 0)
  {
    hide Segments, Output;
  }

  lemma EndBehindOpen(u: string, open: nat)
    requires ScanFrom(u, open, TOP).end >= 0
    ensures open <= ScanFrom(u, open, TOP).end < |u|
  {
  }

  lemma SameCall(u: string, w: string, start: nat, open: nat, e: nat)
    requires IsHead(u, start, open) && Qualifies(u, open, false) && e == ScanFrom(u, open, TOP).end + 1
    requires Copied(u, 0, e, w, 0) && open <= e
    ensures start < open <= |w| && IsHead(w, start, open) && Qualifies(w, open, false)
    ensures ScanFrom(w, open, TOP) == ScanFrom(u, open, TOP)
  {
    hide ScanFrom, IsWordChar, IsSpace, Moved;
    assert forall k | 0 <= k < open :: w[k] == u[k];
    CommasInOrder(u, open, TOP);
    EndBehindOpen(u, open);
    ReplayToEnd(u, open, TOP, w, open);
    MovedNowhere(ScanFrom(u, open, TOP).commas, open);
  }

  lemma PartlyText(u: string, cursor: nat, name: string, newName: string)
    requires cursor <= |u| && IsIdentifier(name) && TurnAt(u, cursor, name, false).seg.Call?
    ensures var turn := TurnAt(u, cursor, name, false);
            var start, open, q, e := StartOf(cursor, turn.seg), OpenOf(cursor, turn.seg), SecondOf(cursor, turn.seg), turn.next;
            var w := Partly(u, turn.next, name, newName);
            && cursor <= start < open <= q < e <= |w|
            && Partly(u, cursor, name, newName)
               == w[..start] + newName + "(" + (w[open..q + 1] + DEVICE + w[q + 1..e]) + w[e..]
  {
    hide TurnAt, Segments, Output, ScanFrom, SkipTo, CallOpen, CutCall, Qualifies, IsHead, NewText, IsIdentifier, IsWordChar, IsSpace;
    CallTurn(u, cursor, name);
    var turn := TurnAt(u, cursor, name, false);
    var start, open, q, e := StartOf(cursor, turn.seg), OpenOf(cursor, turn.seg), SecondOf(cursor, turn.seg), turn.next;
    OutputOfTurn(u, cursor, name, newName, false);
    var rest := Output(Segments(u, e, name, false), newName);
    NewTextIs(u, cursor, start, open, q, e, newName);
    NewTextOfCall(u, u[..e] + rest, cursor, start, open, q, e, rest, newName);
  }

  lemma NewTextIs(u: string, cursor: nat, start: nat, open: nat, q: nat, e: nat, newName: string)
    requires cursor <= start < open <= q < e <= |u|
    ensures NewText(CutCall(u, cursor, start, open, q + 1, q + 1, e), newName)
            == u[cursor..start] + newName + "(" + (u[open..q + 1] + DEVICE + u[q + 1..e])
  {
    CutCallShape(u, cursor, start, open, q + 1, q + 1, e);
    hide CutCall;
  }

  lemma PartlyOfCall(u: string, cursor: nat, name: string, newName: string)
    requires cursor <= |u| && IsIdentifier(name) && TurnAt(u, cursor, name, false).seg.Call?
    ensures var turn := TurnAt(u, cursor, name, false);
            var w := Partly(u, turn.next, name, newName);
            var start, open := StartOf(cursor, turn.seg), OpenOf(cursor, turn.seg);
            && start < open <= |w| && IsHead(w, start, open) && Qualifies(w, open, false)
            && ScanFrom(w, open, TOP) == ScanFrom(u, open, TOP)
            && Partly(u, cursor, name, newName) == RewriteOne(w, start, open, newName)
  {
    hide TurnAt, Partly, ScanFrom, CallOpen, CutCall, IsHead, Qualifies, RewriteOne, IsIdentifier, Copied;
    CallTurn(u, cursor, name);
    var turn := TurnAt(u, cursor, name, false);
    var start, open := StartOf(cursor, turn.seg), OpenOf(cursor, turn.seg);
    var w := Partly(u, turn.next, name, newName);
    PartlyAgrees(u, turn.next, name, newName);
    SameCall(u, w, start, open, turn.next);
    PartlyText(u, cursor, name, newName);
    RewriteOneIs(w, start, open, newName);
  }

  lemma NewTextOfCall(u: string, w: string, cursor: nat, start: nat, open: nat, q: nat, e: nat, rest: string, newName: string)
    requires cursor <= start < open <= q < e <= |u| && w == u[..e] + rest
    ensures u[..cursor] + ((u[cursor..start] + newName + "(" + (u[open..q + 1] + DEVICE + u[q + 1..e])) + rest)
            == w[..start] + newName + "(" + (w[open..q + 1] + DEVICE + w[q + 1..e]) + w[e..]
  {
    assert w[..start] == u[..start] == u[..cursor] + u[cursor..start];
    assert w[open..q + 1] == u[open..q + 1] && w[q + 1..e] == u[q + 1..e] && w[e..] == rest;
  }

  /** A comma separates the arguments of a call that opens at p or does not, whatever stands behind it. */
  lemma {:induction false} SeparatesAlike(t: string, i: nat, d: Depth, q: nat, t': string)
    requires Copied(t, 0, q + 1, t', 0) && t[q] == ','
    ensures q in ScanFrom(t, i, d).commas <==> q in ScanFrom(t', i, d).commas
    decreases |t| - i
  {
    hide ScanFrom, SkipTo, Move;
    CommasInOrder(t, i, d);
    CommasInOrder(t', i, d);
    if i <= q {
      assert t[i] == t'[i];
      assert Copied(t, i, q + 1, t', i) && Copied(t', i, q + 1, t, i);
      SkipAlike(t, i, q, t');
      if SkipTo(t, i) > i {
        ScanSkips(t, i, d);
        ScanSkips(t', i, d);
        if SkipTo(t, i) <= q {
          SeparatesAlike(t, SkipTo(t, i), d, q, t');
        } else {
          CommasInOrder(t, SkipTo(t, i), d);
          CommasInOrder(t', SkipTo(t', i), d);
        }
      } else if t[i] == ')' && d.paren == 1 {
        ScanAtEnd(t, i, d);
        ScanAtEnd(t', i, d);
      } else {
        ScanStep(t, i, d);
        ScanStep(t', i, d);
        SeparatesAlike(t, i + 1, Move(d, t[i]), q, t');
      }
    }
  }

  lemma ScanAtEnd(t: string, i: nat, d: Depth)
    requires i < |t| && SkipTo(t, i) == i && t[i] == ')' && d.paren == 1
    ensures ScanFrom(t, i, d).commas == []
  {
  }

  lemma SkipAlike(t: string, i: nat, q: nat, t': string)
    requires i <= q && Copied(t, i, q + 1, t', i) && t[q] == ','
    ensures SkipTo(t, i) <= q <==> SkipTo(t', i) <= q
    ensures SkipTo(t, i) <= q ==> SkipTo(t', i) == SkipTo(t, i)
  {
    hide SkipTo;
    if SkipTo(t, i) <= q {
      SkipMoves(t, i, q, t', i);
    } else if SkipTo(t', i) <= q {
      assert Copied(t', i, q + 1, t, i);
      SkipMoves(t', i, q, t, i);
    }
  }

  /** A call before the cursor stays where it is; one at or behind it stays there. */
  lemma {:induction false} LandingSides(u: string, cursor: nat, name: string, newName: string, p: nat)
    requires cursor <= |u| && IsIdentifier(name)
    ensures p < cursor ==> Landing(u, cursor, name, newName, p) == p
    ensures p >= cursor ==> Landing(u, cursor, name, newName, p) >= cursor
    decreases |u| - cursor
  {
    hide TurnAt, ScanFrom, CallOpen, Qualifies, IsHead, CutCall, IsIdentifier;
    var turn := TurnAt(u, cursor, name, false);
    if turn.seg.Call? {
      CallTurn(u, cursor, name);
      CallSizes(u, cursor, name);
    }
    if !turn.last {
      LandingSides(u, turn.next, name, newName, p);
    }
  }

  lemma CallSizes(u: string, cursor: nat, name: string)
    requires cursor <= |u| && IsIdentifier(name) && TurnAt(u, cursor, name, false).seg.Call?
    ensures var turn := TurnAt(u, cursor, name, false);
            cursor + |turn.seg.head| < OpenOf(cursor, turn.seg) <= SecondOf(cursor, turn.seg) < turn.next
  {
    hide TurnAt, ScanFrom, CallOpen, Qualifies, IsHead, CutCall, IsIdentifier;
    CallTurn(u, cursor, name);
  }

  /** A call that stands in u, seen from the text where the calls behind it were rewritten. */
  lemma CarryOver(u: string, cursor: nat, name: string, newName: string, p: nat)
    requires cursor <= |u| && IsIdentifier(name) && TurnAt(u, cursor, name, false).seg.Call?
    requires p > 0 && p <= |u| && u[p - 1] == '(' && ScanFrom(u, p, TOP).end >= 0
    requires HeadFine(u, p, StartOf(cursor, TurnAt(u, cursor, name, false).seg), OpenOf(cursor, TurnAt(u, cursor, name, false).seg))
    ensures var turn := TurnAt(u, cursor, name, false);
            var start, open, q := StartOf(cursor, turn.seg), OpenOf(cursor, turn.seg), SecondOf(cursor, turn.seg);
            var w, p' := Partly(u, turn.next, name, newName), Landing(u, turn.next, name, newName, p);
            && start < open <= |w| && p' >= 0 && (p' <= start || p' >= open)
            && (ScanFrom(w, p', TOP).end >= 0 ==> HeadFine(w, p', start, open))
            && (q in ScanFrom(w, p', TOP).commas <==> q in ScanFrom(u, p, TOP).commas)
            && After(p', start, open, q, newName) == p' + ShiftOf(p, cursor, turn.seg, newName)
  {
    hide TurnAt, Landing, ScanFrom, Segments, Output, CallOpen, CutCall, Qualifies, IsWordChar, IsSpace, Reaches, IsIdentifier;
    CallTurn(u, cursor, name);
    PartlyOfCall(u, cursor, name, newName);
    var turn := TurnAt(u, cursor, name, false);
    var start, open, q := StartOf(cursor, turn.seg), OpenOf(cursor, turn.seg), SecondOf(cursor, turn.seg);
    var w, p' := Partly(u, turn.next, name, newName), Landing(u, turn.next, name, newName, p);
    PartlyAgrees(u, turn.next, name, newName);
    LandingSides(u, turn.next, name, newName, p);
    if p < turn.next {
      ParenthesisOutsideHead(u, start, open, p);
      SeparatesAlike(u, p, TOP, q, w);
      HeadStaysFine(u, p, start, open, w);
    } else {
      CommasInOrder(u, p, TOP);
      CommasInOrder(w, p', TOP);
    }
  }

  lemma ParenthesisOutsideHead(u: string, start: nat, open: nat, p: nat)
    requires IsHead(u, start, open) && 0 < p <= |u| && u[p - 1] == '('
    ensures p <= start || p >= open
  {
  }

  lemma HeadStaysFine(u: string, p: nat, start: nat, open: nat, w: string)
    requires IsHead(u, start, open) && HeadFine(u, p, start, open) && ScanFrom(u, p, TOP).end >= 0
    requires open <= |w| && Copied(u, 0, open, w, 0)
    ensures HeadFine(w, p, start, open)
  {
    hide ScanFrom, IsWordChar, IsSpace;
    assert forall k | 0 <= k < open :: w[k] == u[k];
    HeadIsQuiet(u, start, open);
    if p < open && ScanFrom(u, p, TOP).end < start {
      CommasInOrder(u, p, TOP);
      EndBehindOpen(u, p);
      ReplayToEnd(u, p, TOP, w, p);
    } else if Reaches(u, p, start) {
      ReachesCopied(u, p, start, w);
    }
  }

  /** What the pass does to a call of u, wherever it stands and whatever contains it: it still closes, it has one
      argument more for each intrusion, and a third argument ` device` stays if there is none. */
  lemma {:induction false} PassCounts(u: string, cursor: nat, name: string, newName: string, p: nat)
    requires cursor <= |u| && IsIdentifier(name) && IsIdentifier(newName)
    requires 0 < p <= |u| && u[p - 1] == '(' && ScanFrom(u, p, TOP).end >= 0 && HeadsFine(u, cursor, name, p)
    ensures Effect(u, p, Partly(u, cursor, name, newName), Landing(u, cursor, name, newName, p),
                   Intrusions(u, cursor, name, ScanFrom(u, p, TOP).commas))
    decreases |u| - cursor
  {
    hide TurnAt, ScanFrom, Partly, CallOpen, CutCall, Qualifies, IsWordChar, IsSpace, IsIdentifier, HeadFine, DeviceThird, After, ShiftOf;
    var turn := TurnAt(u, cursor, name, false);
    if !turn.last {
      PassCounts(u, turn.next, name, newName, p);
    }
    if turn.seg.Call? {
      CallTurn(u, cursor, name);
      CarryOver(u, cursor, name, newName, p);
      PartlyOfCall(u, cursor, name, newName);
      var w, p' := Partly(u, turn.next, name, newName), Landing(u, turn.next, name, newName, p);
      OneRewrite(w, StartOf(cursor, turn.seg), OpenOf(cursor, turn.seg), newName, p');
    } else {
      PartlyOfPlain(u, cursor, name, newName);
      NoShift(p, cursor, turn.seg, newName);
    }
  }

  lemma NoShift(p: nat, cursor: nat, seg: Segment, newName: string)
    requires seg.Plain?
    ensures ShiftOf(p, cursor, seg, newName) == 0
  {
  }

  // ----- a name in a line comment, its parenthesis on the next line -----

  const BROKEN := "(//g\n(\n,,))"

  const JOINED := "(//h(\n,, device,))"

  /** A nested parenthesis, a comma in it and its end. */
  lemma NestedSteps(t: string, i: nat, d: Depth)
    requires i < |t| && (t[i] == '(' || (d.paren > 1 && (t[i] == ',' || t[i] == ')')))
    ensures ScanFrom(t, i, d) == ScanFrom(t, i + 1, Move(d, t[i]))
  {
  }

  lemma InnerOfBroken(t: string)
    requires |t| == 11 && t[6] == '\n' && t[7] == ',' && t[8] == ',' && t[9] == ')'
    ensures ScanFrom(t, 6, TOP) == Scan([7, 8], 9, TOP)
  {
    ScanEnds(t, 9, TOP);
    hide ScanFrom, SkipTo;
    CommaStep(t, 8);
    CommaStep(t, 7);
    PlainStep(t, 6, TOP);
  }

  lemma OuterOfBroken(t: string)
    requires |t| == 11 && t[4] == '\n' && t[5] == '(' && t[6] == '\n' && t[7] == ',' && t[8] == ',' && t[9] == ')' && t[10] == ')'
    requires SkipTo(t, 1) == 4
    ensures ScanFrom(t, 1, TOP) == Scan([], 10, TOP)
  {
    ScanEnds(t, 10, TOP);
    hide ScanFrom, SkipTo;
    var deep := Depth(2, 0, 0);
    NestedSteps(t, 9, deep);
    NestedSteps(t, 8, deep);
    NestedSteps(t, 7, deep);
    PlainStep(t, 6, deep);
    NestedSteps(t, 5, TOP);
    PlainStep(t, 4, TOP);
    ScanSkips(t, 1, TOP);
  }

  lemma BrokenScans()
    ensures ScanFrom(BROKEN, 6, TOP) == Scan([7, 8], 9, TOP)
    ensures ScanFrom(BROKEN, 1, TOP) == Scan([], 10, TOP)
  {
    hide ScanFrom, SkipTo;
    BrokenSkip();
    InnerOfBroken(BROKEN);
    OuterOfBroken(BROKEN);
  }

  lemma JoinedScan()
    ensures ScanFrom(JOINED, 1, TOP) == Scan([6, 7, 15], 16, TOP)
  {
    hide ScanFrom;
    JoinedChars();
    var t := JOINED;
    hide SkipTo;
    ScanEnds(t, 16, TOP);
    ScanDevice(t, 8);
    CommaStep(t, 7);
    CommaStep(t, 6);
    PlainStep(t, 5, TOP);
    ScanSkips(t, 1, TOP);
  }

  lemma JoinedChars()
    ensures |JOINED| == 18 && SkipTo(JOINED, 1) == 5 && JOINED[8..16] == DEVICE
    ensures JOINED[5] == '\n' && JOINED[6] == ',' && JOINED[7] == ',' && JOINED[16] == ')'
    ensures SkipTo(JOINED, 16) == 16
  {
    assert LineEnd(JOINED, 3) == 5;
  }

  /** Dropping such a line break joins the comment with the code behind it: the call around, which had one argument
      and no part in the rewritten call's commas, now has four and closes one parenthesis early. */
  lemma LineBreakJoinsComment()
    ensures IsHead(BROKEN, 3, 6) && Qualifies(BROKEN, 6, false) && !HeadFine(BROKEN, 1, 3, 6)
    ensures RewriteOne(BROKEN, 3, 6, "h") == JOINED && ScanFrom(BROKEN, 6, TOP).commas[1] !in ScanFrom(BROKEN, 1, TOP).commas
    ensures |Arguments(BROKEN, 1)| == 1 && ScanFrom(BROKEN, 1, TOP).end == |BROKEN| - 1
    ensures |Arguments(JOINED, 1)| == 4 && ScanFrom(JOINED, 1, TOP).end == |JOINED| - 2
  {
    hide ScanFrom, LineEnd, SkipTo, RewriteOne, Pieces, IsWordChar, IsSpace;
    BrokenScans();
    JoinedScan();
    BrokenHead(BROKEN);
    RewriteOneIs(BROKEN, 3, 6, "h");
    PiecesCount(BROKEN, 1, [], 10);
    PiecesCount(JOINED, 1, [6, 7, 15], 16);
    JoinedText();
  }

  lemma JoinedText()
    ensures BROKEN[..3] + "h" + "(" + (BROKEN[6..9] + DEVICE + BROKEN[9..10]) + BROKEN[10..] == JOINED
  {
    assert BROKEN == "(//" + "g\n(" + "\n,," + ")" + ")";
    assert JOINED == "(//" + "h" + "(" + ("\n,," + DEVICE + ")") + ")";
  }

  lemma BrokenHead(t: string)
    requires t == BROKEN
    ensures IsHead(t, 3, 6) && !OneLine(t, 3, 5) && !Reaches(t, 1, 3)
  {
    hide SkipTo;
    BrokenSkip();
    assert t[4] == '\n';
  }

  lemma BrokenSkip()
    ensures SkipTo(BROKEN, 1) == 4
  {
    assert LineEnd(BROKEN, 3) == 4;
  }

  // ----- the name of a call -----

  /** The call that opens at p is one by that name. */
  ghost predicate NamedAt(t: string, p: int, name: string) {
    |name| + 1 <= p <= |t| && t[p - |name| - 1..p] == name + "("
  }

  lemma NamedChars(t: string, p: nat, name: string)
    requires NamedAt(t, p, name) && IsIdentifier(name)
    ensures t[p - 1] == '(' && forall k | p - |name| - 1 <= k < p - 1 :: t[k] != '(' && t[k] != ','
  {
    NameIsQuiet(name);
    forall k | p - |name| - 1 <= k < p ensures t[k] == (name + "(")[k - (p - |name| - 1)] {
      assert t[p - |name| - 1..p][k - (p - |name| - 1)] == t[k];
    }
  }

  lemma NamedCopied(t: string, p: nat, name: string, t': string, p': nat)
    requires NamedAt(t, p, name) && p' >= |name| + 1 && Copied(t, p - |name| - 1, p, t', p' - |name| - 1)
    ensures NamedAt(t', p', name)
  {
    assert t'[p' - |name| - 1..p'] == t[p - |name| - 1..p];
  }

  lemma InsertKeepsName(w: string, q: nat, p: nat, name: string)
    requires q + 1 < |w| && w[q] == ',' && NamedAt(w, p, name) && IsIdentifier(name)
    ensures NamedAt(w[..q + 1] + DEVICE + w[q + 1..], if p <= q then p else p + 8, name)
  {
    hide IsIdentifier, NamedAt;
    var w1 := w[..q + 1] + DEVICE + w[q + 1..];
    NamedBounds(w, p, name);
    NamedChars(w, p, name);
    assert forall k | 0 <= k <= q :: w1[k] == w[k];
    assert forall k | q + 1 <= k < |w| :: w1[k + 8] == w[k];
    NamedCopied(w, p, name, w1, if p <= q then p else p + 8);
  }

  lemma NamedBounds(t: string, p: nat, name: string)
    requires NamedAt(t, p, name)
    ensures |name| + 1 <= p <= |t|
  {
  }

  lemma HeadKeepsName(w: string, start: nat, open: nat, newName: string, p: nat)
    requires start + 1 < open <= |w| && w[open - 1] == '(' && NamedAt(w, p, newName) && IsIdentifier(newName)
    requires p <= start || p >= open
    ensures NamedAt(w[..start] + newName + w[open - 1..], if p < open - 1 then p else p + |newName| - (open - 1 - start), newName)
  {
    hide IsIdentifier;
    var w2 := w[..start] + newName + w[open - 1..];
    NamedChars(w, p, newName);
    assert w2[start..start + |newName| + 1] == newName + "(";
    assert forall k | 0 <= k < start :: w2[k] == w[k];
    assert forall k | open - 1 <= k < |w| :: w2[k - (open - 1) + start + |newName|] == w[k];
    if p <= start {
      NamedCopied(w, p, newName, w2, p);
    } else if p > open {
      NamedCopied(w, p, newName, w2, p + |newName| - (open - 1 - start));
    }
  }

  lemma RewriteKeepsName(w: string, start: nat, open: nat, newName: string, p: nat)
    requires IsHead(w, start, open) && IsIdentifier(newName) && Qualifies(w, open, false) && NamedAt(w, p, newName)
    ensures var q := ScanFrom(w, open, TOP).commas[1];
            NamedAt(RewriteOne(w, start, open, newName), After(p, start, open, q, newName), newName)
  {
    hide ScanFrom, IsWordChar, IsSpace, IsIdentifier, Qualifies, RewriteOne, NamedAt;
    var q := SecondComma(w, open);
    var w1 := w[..q + 1] + DEVICE + w[q + 1..];
    NamedBounds(w, p, newName);
    NamedChars(w, p, newName);
    ParenthesisOutsideHead(w, start, open, p);
    InsertKeepsName(w, q, p, newName);
    RewriteInTwoSteps(w, start, open, newName);
    assert start + 1 < open && w1[open - 1] == w[open - 1];
    hide IsHead;
    HeadKeepsName(w1, start, open, newName, if p <= q then p else p + 8);
    AfterIs(p, start, open, q, newName);
  }

  /** A pass that writes newName leaves a call by that name one by that name. */
  lemma {:induction false} PassKeepsName(u: string, cursor: nat, name: string, newName: string, p: nat)
    requires cursor <= |u| && IsIdentifier(name) && IsIdentifier(newName) && NamedAt(u, p, newName)
    ensures NamedAt(Partly(u, cursor, name, newName), Landing(u, cursor, name, newName, p), newName)
    decreases |u| - cursor
  {
    hide TurnAt, ScanFrom, Partly, CallOpen, CutCall, Qualifies, IsHead, IsIdentifier, NamedAt, After, ShiftOf;
    var turn := TurnAt(u, cursor, name, false);
    if !turn.last {
      PassKeepsName(u, turn.next, name, newName, p);
    }
    if turn.seg.Call? {
      CallTurn(u, cursor, name);
      PartlyOfCall(u, cursor, name, newName);
      var w, p' := Partly(u, turn.next, name, newName), Landing(u, turn.next, name, newName, p);
      LandingSides(u, turn.next, name, newName, p);
      RewriteKeepsName(w, StartOf(cursor, turn.seg), OpenOf(cursor, turn.seg), newName, p');
      ShiftIsAfter(u, cursor, name, newName, p, p');
    } else {
      PartlyOfPlain(u, cursor, name, newName);
      NoShift(p, cursor, turn.seg, newName);
    }
  }

  lemma ShiftIsAfter(u: string, cursor: nat, name: string, newName: string, p: nat, p': nat)
    requires cursor <= |u| && IsIdentifier(name) && TurnAt(u, cursor, name, false).seg.Call?
    requires var next := TurnAt(u, cursor, name, false).next; if p < next then p' == p else p' >= next
    ensures var turn := TurnAt(u, cursor, name, false);
            After(p', StartOf(cursor, turn.seg), OpenOf(cursor, turn.seg), SecondOf(cursor, turn.seg), newName)
            == p' + ShiftOf(p, cursor, turn.seg, newName)
  {
    hide TurnAt, ScanFrom, CallOpen, Qualifies, IsHead, CutCall, IsIdentifier;
    CallTurn(u, cursor, name);
  }
}
