/** The rewriter that gives parity-test calls a `device` argument: it finds calls by name, scans their
    arguments and splices `device,` behind the second one. */
module DeviceArg {
  import opened CallScanner
  import opened CppText
  import opened PythonText

  // ----- finding calls -----

  function AfterSpaces(t: string, i: nat): (r: nat)
    ensures r >= i && (i <= |t| ==> r <= |t|)
    ensures forall k | i <= k < r && k < |t| :: IsSpace(t[k])
    decreases |t| - i
  {
    if i < |t| && IsSpace(t[i]) then AfterSpaces(t, i + 1) else i
  }

  /** A name with at least one character, all of them word characters. */
  predicate IsIdentifier(name: string) {
    name != "" && forall k | 0 <= k < |name| :: IsWordChar(name[k])
  }

  predicate NameAt(t: string, i: nat, name: string) {
    i + |name| <= |t| && t[i..i + |name|] == name && (i > 0 ==> !IsWordChar(t[i - 1]))
  }

  /** The position just inside a call of `name` that starts at i, or 0 if none starts there. */
  function CallOpen(t: string, i: nat, name: string): (r: nat)
    ensures r != 0 ==> NameAt(t, i, name) && i + |name| < r <= |t| && t[r - 1] == '('
                       && forall k | i + |name| <= k < r - 1 :: IsSpace(t[k])
  {
    if NameAt(t, i, name) then
      var j := AfterSpaces(t, i + |name|);
      if j < |t| && t[j] == '(' then j + 1 else 0
    else 0
  }

  datatype Match = NoMatch | Match(start: nat, open: nat)

  /** The first call of `name` that starts at or behind the cursor. */
  function Search(t: string, cursor: nat, name: string): (m: Match)
    ensures m.Match? ==>
              && cursor <= m.start < m.open <= |t| && m.open == CallOpen(t, m.start, name)
              && forall i | cursor <= i < m.start :: CallOpen(t, i, name) == 0
    ensures m.NoMatch? ==> forall i | cursor <= i < |t| :: CallOpen(t, i, name) == 0
    decreases |t| - cursor
  {
    if cursor >= |t| then NoMatch
    else if CallOpen(t, cursor, name) != 0 then Match(cursor, CallOpen(t, cursor, name))
    else Search(t, cursor + 1, name)
  }

  // ----- the rewriting, one turn of the outer loop after another -----

  const DEVICE := " device,"

  /** What one turn takes from the input: text left alone, or a rewritten call with the text before it,
      its head (the name and any space behind it), its first two arguments, the argument the splice
      stands for (none in insert mode) and the rest up to its closing parenthesis. */
  datatype Segment = Plain(text: string)
                   | Call(before: string, head: string, first: string, third: string, tail: string)

  datatype Turn = Turn(seg: Segment, next: nat, last: bool)

  function MinCommas(replace: bool): nat { if replace then 3 else 2 }

  /** A call is rewritten if its scan closes and finds enough commas. */
  predicate Qualifies(t: string, open: nat, replace: bool) {
    var r := ScanFrom(t, open, TOP);
    r.end >= 0 && |r.commas| >= MinCommas(replace)
  }

  /** The comma behind which the old text goes on. */
  function ResumeComma(r: Scan, replace: bool): nat
    requires |r.commas| >= MinCommas(replace)
  {
    if replace then r.commas[2] else r.commas[1]
  }

  function CutCall(t: string, cursor: nat, start: nat, open: nat, p: nat, q: nat, e: nat): (s: Segment)
    requires cursor <= start < open <= p <= q <= e <= |t|
    ensures s.Call?
  {
    Call(t[cursor..start], t[start..open - 1], t[open..p], t[p..q], t[q..e])
  }

  function TurnAt(t: string, cursor: nat, name: string, replace: bool): (turn: Turn)
    requires cursor <= |t|
    ensures cursor <= turn.next <= |t| && (!turn.last ==> cursor < turn.next)
  {
    var m := Search(t, cursor, name);
    if m.NoMatch? then Turn(Plain(t[cursor..]), |t|, true)
    else if !Qualifies(t, m.open, replace) then Turn(Plain(t[cursor..m.open]), m.open, false)
    else
      var r := ScanFrom(t, m.open, TOP);
      ScanPositions(t, m.open);
      Turn(CutCall(t, cursor, m.start, m.open, r.commas[1] + 1, ResumeComma(r, replace) + 1, r.end + 1), r.end + 1, false)
  }

  function Segments(t: string, cursor: nat, name: string, replace: bool): seq<Segment>
    requires cursor <= |t|
    decreases |t| - cursor
  {
    var turn := TurnAt(t, cursor, name, replace);
    if turn.last then [turn.seg] else [turn.seg] + Segments(t, turn.next, name, replace)
  }

  /** The new argument text of a rewritten call, with its closing parenthesis. */
  function SplicedArgs(s: Segment): string
    requires s.Call?
  {
    s.first + DEVICE + s.tail
  }

  function NewText(s: Segment, newName: string): string {
    if s.Plain? then s.text else s.before + newName + "(" + SplicedArgs(s)
  }

  function Output(segments: seq<Segment>, newName: string): string {
    if segments == [] then "" else NewText(segments[0], newName) + Output(segments[1..], newName)
  }

  function Rewrite(t: string, name: string, newName: string, replace: bool): string {
    Output(Segments(t, 0, name, replace), newName)
  }

  /** Where the first three commas and the end of a scan lie. */
  lemma ScanPositions(t: string, open: nat)
    ensures var r := ScanFrom(t, open, TOP);
            && (|r.commas| >= 2 && r.end >= 0 ==> open <= r.commas[0] < r.commas[1] < r.end < |t|)
            && (|r.commas| >= 3 && r.end >= 0 ==> r.commas[1] < r.commas[2] < r.end)
  {
    CommasInOrder(t, open, TOP);
  }

  lemma OutputFirst(s: Segment, rest: seq<Segment>, newName: string)
    ensures Output([s] + rest, newName) == NewText(s, newName) + Output(rest, newName)
  {
    assert ([s] + rest)[1..] == rest;
  }

  /** The output from the cursor on is this turn's text, and then the output from the next cursor on. */
  lemma OutputOfTurn(t: string, cursor: nat, name: string, newName: string, replace: bool)
    requires cursor <= |t|
    ensures var turn := TurnAt(t, cursor, name, replace);
            Output(Segments(t, cursor, name, replace), newName)
            == NewText(turn.seg, newName)
               + (if turn.last then "" else Output(Segments(t, turn.next, name, replace), newName))
  {
    hide TurnAt, NewText;
    var turn := TurnAt(t, cursor, name, replace);
    OutputFirst(turn.seg, [], newName);
    if !turn.last {
      OutputFirst(turn.seg, Segments(t, turn.next, name, replace), newName);
    }
  }

  // ----- the loops of the original -----

  method SearchFrom(text: string, cursor: nat, name: string) returns (m: Match)
    ensures m == Search(text, cursor, name)
  {
    var i := cursor;
    while i < |text|
      invariant Search(text, i, name) == Search(text, cursor, name)
      decreases |text| - i
    {
      var open := CallOpen(text, i, name);
      if open != 0 {
        return Match(i, open);
      }
      i := i + 1;
    }
    m := NoMatch;
  }

  function Concat(parts: seq<string>): string {
    if parts == [] then "" else Concat(parts[..|parts| - 1]) + parts[|parts| - 1]
  }

  lemma ConcatLast(parts: seq<string>, s: string)
    ensures Concat(parts + [s]) == Concat(parts) + s
  {
    assert (parts + [s])[..|parts|] == parts;
  }

  method InsertDeviceArg(text: string, fn_name: string, new_name: string, replace_third_arg: bool) returns (out: string)
    ensures out == Rewrite(text, fn_name, new_name, replace_third_arg)
  {
    hide TurnAt, Segments, Output, Concat, NewText;
    var out_chunks: seq<string> := [];
    var cursor := 0;
    var last := false;
    ghost var goal := Rewrite(text, fn_name, new_name, replace_third_arg);
    ConcatEmpty();
    while !last
      invariant cursor <= |text|
      invariant !last ==>
                  goal == Concat(out_chunks) + Output(Segments(text, cursor, fn_name, replace_third_arg), new_name)
      invariant last ==> goal == Concat(out_chunks)
      decreases !last, |text| - cursor
    {
      OutputOfTurn(text, cursor, fn_name, new_name, replace_third_arg);
      ghost var turn := TurnAt(text, cursor, fn_name, replace_third_arg);
      ghost var rest := if turn.last then "" else Output(Segments(text, turn.next, fn_name, replace_third_arg), new_name);
      JoinThree(Concat(out_chunks), NewText(turn.seg, new_name), rest);
      out_chunks, cursor, last := RunTurn(out_chunks, text, cursor, fn_name, new_name, replace_third_arg);
    }
    out := Concat(out_chunks);
  }

  /** The body of the outer loop. */
  method RunTurn(chunks: seq<string>, text: string, cursor: nat, fn_name: string, new_name: string, replace_third_arg: bool)
    returns (out_chunks: seq<string>, next: nat, last: bool)
    requires cursor <= |text|
    ensures var turn := TurnAt(text, cursor, fn_name, replace_third_arg);
            && next == turn.next && last == turn.last
            && Concat(out_chunks) == Concat(chunks) + NewText(turn.seg, new_name)
  {
    hide Search, CallOpen, ScanFrom, Concat;
    var m := SearchFrom(text, cursor, fn_name);
    if m == NoMatch {
      ConcatLast(chunks, text[cursor..]);
      return chunks + [text[cursor..]], |text|, true;
    }
    var commas, end_pos := ScanArguments(text, m.open);
    var min_commas := if replace_third_arg then 3 else 2;
    if end_pos < 0 || |commas| < min_commas {
      ConcatLast(chunks, text[cursor..m.open]);
      return chunks + [text[cursor..m.open]], m.open, false;
    }
    ScanPositions(text, m.open);
    ghost var seg := TurnAt(text, cursor, fn_name, replace_third_arg).seg;
    out_chunks := AppendCall(chunks, seg, text, cursor, m, commas, end_pos, new_name, replace_third_arg);
    return out_chunks, end_pos + 1, false;
  }

  lemma ConcatEmpty()
    ensures Concat([]) == ""
  {
  }

  /** The six chunks a rewritten call appends. */
  method AppendCall(chunks: seq<string>, ghost seg: Segment, text: string, cursor: nat, m: Match,
                    commas: seq<nat>, end_pos: nat, new_name: string, replace_third_arg: bool)
    returns (out_chunks: seq<string>)
    requires m.Match? && cursor <= m.start < m.open && |commas| >= MinCommas(replace_third_arg)
    requires m.open <= commas[1] < end_pos < |text| && text[m.open - 1] == '('
    requires replace_third_arg ==> commas[1] < commas[2] < end_pos
    requires seg == CutCall(text, cursor, m.start, m.open, commas[1] + 1,
                            (if replace_third_arg then commas[2] else commas[1]) + 1, end_pos + 1)
    ensures Concat(out_chunks) == Concat(chunks) + NewText(seg, new_name)
  {
    hide Concat;
    out_chunks := chunks;
    ConcatLast(out_chunks, text[cursor..m.start]);
    out_chunks := out_chunks + [text[cursor..m.start]];
    ConcatLast(out_chunks, new_name);
    out_chunks := out_chunks + [new_name];
    ConcatLast(out_chunks, text[m.open - 1..m.open]);
    out_chunks := out_chunks + [text[m.open - 1..m.open]];
    ConcatLast(out_chunks, text[m.open..commas[1] + 1]);
    out_chunks := out_chunks + [text[m.open..commas[1] + 1]];
    ConcatLast(out_chunks, DEVICE);
    out_chunks := out_chunks + [DEVICE];
    if replace_third_arg {
      ConcatLast(out_chunks, text[commas[2] + 1..end_pos + 1]);
      out_chunks := out_chunks + [text[commas[2] + 1..end_pos + 1]];
    } else {
      ConcatLast(out_chunks, text[commas[1] + 1..end_pos + 1]);
      out_chunks := out_chunks + [text[commas[1] + 1..end_pos + 1]];
    }
    assert text[m.open - 1..m.open] == "(";
    JoinSix(Concat(chunks), seg.before, new_name, "(", seg.first, DEVICE, seg.tail);
  }

  lemma JoinThree(x: string, a: string, b: string)
    ensures (x + a) + b == x + (a + b)
  {
  }

  lemma JoinSix(x: string, a: string, b: string, c: string, d: string, e: string, f: string)
    ensures ((((((x + a) + b) + c) + d) + e) + f) == x + (((a + b) + c) + ((d + e) + f))
  {
  }
}
