/** What the device-argument rewriter promises: its segments tile the input, a rewritten call re-scans to
    the old arguments with `device` among them, and the two passes never splice one call twice. */
module DeviceArgProofs {
  import opened CallScanner
  import opened DeviceArg

  // ----- the segments tile the input -----

  function Was(s: Segment): string {
    if s.Plain? then s.text else s.before + s.head + "(" + s.first + s.third + s.tail
  }

  function Original(segments: seq<Segment>): string {
    if segments == [] then "" else Was(segments[0]) + Original(segments[1..])
  }

  lemma OriginalFirst(s: Segment, rest: seq<Segment>)
    ensures Original([s] + rest) == Was(s) + Original(rest)
  {
    assert ([s] + rest)[1..] == rest;
  }

  /** The positions a turn is cut at. */
  lemma TurnCases(t: string, cursor: nat, name: string, replace: bool)
    returns (start: nat, open: nat, p: nat, q: nat)
    requires cursor <= |t|
    ensures var turn := TurnAt(t, cursor, name, replace);
            && (turn.last ==> turn.next == |t| && turn.seg.Plain?)
            && (turn.seg.Plain? ==> turn.seg.text == t[cursor..turn.next])
            && (turn.seg.Call? ==>
                  && cursor <= start < open <= p <= q <= turn.next <= |t|
                  && turn.seg == CutCall(t, cursor, start, open, p, q, turn.next)
                  && open == CallOpen(t, start, name) && t[open - 1] == '('
                  && Qualifies(t, open, replace)
                  && p == ScanFrom(t, open, TOP).commas[1] + 1
                  && q == ResumeComma(ScanFrom(t, open, TOP), replace) + 1
                  && turn.next == ScanFrom(t, open, TOP).end + 1)
  {
    hide Search, CallOpen, ScanFrom, CutCall;
    start, open, p, q := 0, 0, 0, 0;
    var m := Search(t, cursor, name);
    if m.Match? && Qualifies(t, m.open, replace) {
      var r := ScanFrom(t, m.open, TOP);
      ScanPositions(t, m.open);
      start, open, p, q := m.start, m.open, r.commas[1] + 1, ResumeComma(r, replace) + 1;
    }
  }

  lemma TurnTiles(t: string, cursor: nat, name: string, replace: bool)
    requires cursor <= |t|
    ensures var turn := TurnAt(t, cursor, name, replace);
            Was(turn.seg) == t[cursor..turn.next] && (turn.last ==> turn.next == |t|)
  {
    hide TurnAt, CutCall, CallOpen, ScanFrom;
    var start, open, p, q := TurnCases(t, cursor, name, replace);
    var turn := TurnAt(t, cursor, name, replace);
    if turn.seg.Call? {
      CutTiles(t, cursor, start, open, p, q, turn.next);
    }
  }

  lemma CutTiles(t: string, cursor: nat, start: nat, open: nat, p: nat, q: nat, e: nat)
    requires cursor <= start < open <= p <= q <= e <= |t| && t[open - 1] == '('
    ensures Was(CutCall(t, cursor, start, open, p, q, e)) == t[cursor..e]
  {
    hide Was, CutCall;
    var s := CutCall(t, cursor, start, open, p, q, e);
    CutParts(t, cursor, start, open, p, q, e);
    Glue(t, cursor, start, open - 1);
    Glue(t, cursor, open - 1, open);
    Glue(t, cursor, open, p);
    Glue(t, cursor, p, q);
    Glue(t, cursor, q, e);
  }

  lemma CutParts(t: string, cursor: nat, start: nat, open: nat, p: nat, q: nat, e: nat)
    requires cursor <= start < open <= p <= q <= e <= |t| && t[open - 1] == '('
    ensures Was(CutCall(t, cursor, start, open, p, q, e))
            == ((((t[cursor..start] + t[start..open - 1]) + t[open - 1..open]) + t[open..p]) + t[p..q]) + t[q..e]
  {
    assert t[open - 1..open] == "(";
  }

  lemma Glue(t: string, a: nat, b: nat, c: nat)
    requires a <= b <= c <= |t|
    ensures t[a..b] + t[b..c] == t[a..c]
  {
  }

  /** Undoing every rename and splice gives back the text from the cursor on, verbatim. */
  lemma {:induction false} SegmentsTile(t: string, cursor: nat, name: string, replace: bool)
    requires cursor <= |t|
    ensures Original(Segments(t, cursor, name, replace)) == t[cursor..]
    decreases |t| - cursor
  {
    hide TurnAt, Was;
    var turn := TurnAt(t, cursor, name, replace);
    TurnTiles(t, cursor, name, replace);
    if turn.last {
      OriginalFirst(turn.seg, []);
    } else {
      SegmentsTile(t, turn.next, name, replace);
      OriginalFirst(turn.seg, Segments(t, turn.next, name, replace));
      Glue(t, cursor, turn.next, |t|);
    }
  }

  /** The undo a reader can do in insert mode without the input at hand: put the old name back and drop
      the spliced argument. */
  function UndoOne(s: Segment, name: string): string {
    if s.Plain? then s.text else s.before + name + "(" + s.first + s.tail
  }

  function Undo(segments: seq<Segment>, name: string): string {
    if segments == [] then "" else UndoOne(segments[0], name) + Undo(segments[1..], name)
  }

  /** Every rewritten head was the bare name, with no space before its parenthesis. */
  ghost predicate HeadsAreBare(segments: seq<Segment>, name: string) {
    forall k | 0 <= k < |segments| && segments[k].Call? :: segments[k].head == name
  }

  ghost predicate InsertShape(s: Segment, name: string) {
    s.Call? ==> name <= s.head && s.third == ""
  }

  lemma TurnShape(t: string, cursor: nat, name: string)
    requires cursor <= |t|
    ensures InsertShape(TurnAt(t, cursor, name, false).seg, name)
  {
    hide TurnAt, ScanFrom, CallOpen;
    var start, open, p, q := TurnCases(t, cursor, name, false);
    if TurnAt(t, cursor, name, false).seg.Call? {
      assert NameAt(t, start, name);
      assert t[start..open - 1][..|name|] == t[start..start + |name|];
    }
  }

  lemma UndoneSegment(s: Segment, name: string)
    requires InsertShape(s, name)
    ensures |UndoOne(s, name)| <= |Was(s)|
    ensures |UndoOne(s, name)| == |Was(s)| <==> (s.Call? ==> s.head == name)
    ensures (s.Call? ==> s.head == name) ==> UndoOne(s, name) == Was(s)
  {
  }

  lemma {:induction false} UndoAgainstOriginal(t: string, cursor: nat, name: string)
    requires cursor <= |t|
    ensures var segments := Segments(t, cursor, name, false);
            && |Undo(segments, name)| <= |Original(segments)|
            && (|Undo(segments, name)| == |Original(segments)| <==> HeadsAreBare(segments, name))
            && (HeadsAreBare(segments, name) ==> Undo(segments, name) == Original(segments))
    decreases |t| - cursor
  {
    hide TurnAt, Was, UndoOne, InsertShape;
    var turn := TurnAt(t, cursor, name, false);
    TurnShape(t, cursor, name);
    UndoneSegment(turn.seg, name);
    var rest := if turn.last then [] else Segments(t, turn.next, name, false);
    if !turn.last {
      UndoAgainstOriginal(t, turn.next, name);
    }
    var segments := Segments(t, cursor, name, false);
    assert segments == [turn.seg] + rest;
    assert segments[1..] == rest;
    BareFirst(turn.seg, rest, name);
  }

  lemma BareFirst(s: Segment, rest: seq<Segment>, name: string)
    ensures HeadsAreBare([s] + rest, name) <==> (s.Call? ==> s.head == name) && HeadsAreBare(rest, name)
  {
    var all := [s] + rest;
    if HeadsAreBare(all, name) {
      assert all[0] == s;
      assert forall k | 0 <= k < |rest| :: rest[k] == all[k + 1];
    }
  }

  /** Undoing by name alone gives back the whole file exactly when no rewritten head had space between
      its name and its parenthesis: the rewriter drops that space. */
  lemma UndoByNameExactly(t: string, name: string)
    ensures Undo(Segments(t, 0, name, false), name) == t <==> HeadsAreBare(Segments(t, 0, name, false), name)
  {
    SegmentsTile(t, 0, name, false);
    UndoAgainstOriginal(t, 0, name);
  }

  lemma SmallTurn(t: string)
    requires t == "f (a,b,c)"
    ensures CallOpen(t, 0, "f") == 3
    ensures TurnAt(t, 0, "f", false).seg.Call? && TurnAt(t, 0, "f", false).seg.head == "f "
  {
    assert AfterSpaces(t, 2) == 2;
    assert t[0..1] == "f";
    assert CallOpen(t, 0, "f") == 3;
    SmallScan(t);
    assert t[0..2] == "f ";
  }

  ghost predicate UndoGivesBack(t: string, name: string) {
    Undo(Segments(t, 0, name, false), name) == t
  }

  lemma HeadDecides(t: string, name: string)
    requires TurnAt(t, 0, name, false).seg.Call? && TurnAt(t, 0, name, false).seg.head != name
    ensures !UndoGivesBack(t, name)
  {
    hide ScanFrom, CallOpen, Search, Undo, TurnAt, HeadsAreBare;
    UndoByNameExactly(t, name);
    FirstSegment(t, name);
    FirstHeadNotBare(Segments(t, 0, name, false), name);
  }

  /** For one: `f (a,b,c)` is rewritten with head `f `, and undoing by name does not give it back. */
  lemma SpaceIsDropped()
    ensures !UndoGivesBack("f (a,b,c)", "f")
  {
    hide TurnAt, UndoGivesBack;
    SmallTurn("f (a,b,c)");
    HeadDecides("f (a,b,c)", "f");
  }

  lemma FirstSegment(t: string, name: string)
    ensures Segments(t, 0, name, false) != [] && Segments(t, 0, name, false)[0] == TurnAt(t, 0, name, false).seg
  {
    hide TurnAt;
  }

  lemma FirstHeadNotBare(segments: seq<Segment>, name: string)
    requires segments != [] && segments[0].Call? && segments[0].head != name
    ensures !HeadsAreBare(segments, name)
  {
  }

  lemma SmallScan(t: string)
    requires t == "f (a,b,c)"
    ensures ScanFrom(t, 3, TOP) == Scan([4, 6], 8, TOP)
  {
    assert ScanFrom(t, 8, TOP) == Scan([], 8, TOP);
    assert ScanFrom(t, 7, TOP) == Scan([], 8, TOP);
    assert ScanFrom(t, 6, TOP) == Scan([6], 8, TOP);
    assert ScanFrom(t, 5, TOP) == Scan([6], 8, TOP);
    assert ScanFrom(t, 4, TOP) == Scan([4, 6], 8, TOP);
  }

  /** Where no call has enough arguments the file is left as it is. */
  lemma {:induction false} NothingToRewrite(t: string, cursor: nat, name: string, newName: string, replace: bool)
    requires cursor <= |t|
    requires forall i | 0 <= i < |t| && CallOpen(t, i, name) != 0 :: !Qualifies(t, CallOpen(t, i, name), replace)
    ensures Output(Segments(t, cursor, name, replace), newName) == t[cursor..]
    decreases |t| - cursor
  {
    hide ScanFrom, CallOpen, Qualifies, Segments, Output, Search;
    OutputOfTurn(t, cursor, name, newName, replace);
    var m := Search(t, cursor, name);
    if m.Match? {
      assert CallOpen(t, m.start, name) != 0;
      assert TurnAt(t, cursor, name, replace) == Turn(Plain(t[cursor..m.open]), m.open, false);
      NothingToRewrite(t, m.open, name, newName, replace);
      Glue(t, cursor, m.open, |t|);
    } else {
      assert TurnAt(t, cursor, name, replace) == Turn(Plain(t[cursor..]), |t|, true);
    }
  }
}
