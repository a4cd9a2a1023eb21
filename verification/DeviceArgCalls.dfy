/** Which calls one pass rewrites: every call of the name that closes and has enough arguments, unless it stands
    inside another one that is rewritten. */
module DeviceArgCalls {
  import opened CallScanner
  import opened CppText
  import opened DeviceArg
  import opened PythonText
  import opened DeviceArgProofs
  import opened DeviceArgPasses

  /** The name as a word of its own at i, then white space, then the parenthesis before `open`. */
  ghost predicate IsCallAt(t: string, i: nat, name: string, open: nat) {
    && i + |name| < open <= |t|
    && t[i..i + |name|] == name && t[open - 1] == '('
    && (forall k | i + |name| <= k < open - 1 :: IsSpace(t[k]))
    && (i > 0 ==> !('a' <= t[i - 1] <= 'z' || 'A' <= t[i - 1] <= 'Z' || '0' <= t[i - 1] <= '9' || t[i - 1] == '_'))
  }

  /** The call closes, and has three arguments, or four if the third is to be replaced. */
  ghost predicate CanSplice(t: string, open: nat, replace: bool) {
    ScanFrom(t, open, TOP).end >= 0 && |ScanFrom(t, open, TOP).commas| + 1 >= if replace then 4 else 3
  }

  lemma {:induction false} SpacesEnd(t: string, i: nat, j: nat)
    requires i <= j <= |t| && (forall k | i <= k < j :: IsSpace(t[k])) && (j == |t| || !IsSpace(t[j]))
    ensures AfterSpaces(t, i) == j
    decreases j - i
  {
    hide IsSpace;
    if i < j {
      SpacesEnd(t, i + 1, j);
    }
  }

  lemma CallsAreFound(t: string, i: nat, name: string, open: nat)
    ensures IsCallAt(t, i, name, open) <==> open != 0 && CallOpen(t, i, name) == open
  {
    if IsCallAt(t, i, name, open) {
      assert !IsSpace('(');
      hide IsSpace;
      SpacesEnd(t, i + |name|, open - 1);
    }
    hide IsSpace, AfterSpaces;
  }

  lemma SpliceIsQualified(t: string, open: nat, replace: bool)
    ensures CanSplice(t, open, replace) <==> Qualifies(t, open, replace)
  {
    hide ScanFrom;
  }

  /** A rewritten call: where its name starts, where its arguments do, and its closing parenthesis. */
  datatype Span = Span(start: nat, open: nat, end: int)

  ghost function Spans(t: string, cursor: nat, name: string, replace: bool): seq<Span>
    requires cursor <= |t|
    decreases |t| - cursor
  {
    var turn := TurnAt(t, cursor, name, replace);
    var here := if turn.seg.Call?
                then [Span(cursor + |turn.seg.before|, cursor + |turn.seg.before| + |turn.seg.head| + 1, turn.next - 1)]
                else [];
    if turn.last then here else here + Spans(t, turn.next, name, replace)
  }

  /** The spans are those of the sites that the other results speak of. */
  lemma {:induction false} SpansAreSites(t: string, cursor: nat, name: string, newName: string, replace: bool, base: nat)
    requires cursor <= |t|
    ensures var sites, spans := Sites(t, cursor, name, newName, replace, base), Spans(t, cursor, name, replace);
            |sites| == |spans| && forall k | 0 <= k < |sites| :: sites[k].open == spans[k].open
    decreases |t| - cursor
  {
    hide TurnAt, NewText;
    var turn := TurnAt(t, cursor, name, replace);
    if !turn.last {
      SpansAreSites(t, turn.next, name, newName, replace, base + |NewText(turn.seg, newName)|);
    }
  }

  /** What a turn of the loop finds. */
  lemma TurnFinds(t: string, cursor: nat, name: string, replace: bool)
    requires cursor <= |t|
    ensures var m, turn := Search(t, cursor, name), TurnAt(t, cursor, name, replace);
            && (m.NoMatch? ==> turn.last && turn.seg.Plain?)
            && (m.Match? && !Qualifies(t, m.open, replace) ==> !turn.last && turn.seg.Plain? && turn.next == m.open)
            && (m.Match? && Qualifies(t, m.open, replace) ==>
                  && !turn.last && turn.seg.Call? && turn.next == ScanFrom(t, m.open, TOP).end + 1
                  && cursor + |turn.seg.before| == m.start && cursor + |turn.seg.before| + |turn.seg.head| + 1 == m.open
                  && m.open <= turn.next)
  {
    hide Search, CallOpen, ScanFrom;
    var m := Search(t, cursor, name);
    if m.Match? && Qualifies(t, m.open, replace) {
      ScanPositions(t, m.open);
    }
  }

  /** Within the head of a call no other one starts. */
  lemma NoCallInHead(t: string, start: nat, open: nat, name: string, i: nat)
    requires IsIdentifier(name) && CallOpen(t, start, name) == open && open != 0 && start < i < open
    ensures CallOpen(t, i, name) == 0
  {
    hide IsSpace, IsWordChar, AfterSpaces;
    HeadChars(t, start, open, name, i - 1);
    HeadChars(t, start, open, name, i);
    if NameAt(t, i, name) {
      assert t[i] == t[i..i + |name|][0];
      WordsAreNoSpaces(t[i]);
    }
  }

  /** A head is the name's word characters, then spaces, then the parenthesis. */
  lemma HeadChars(t: string, start: nat, open: nat, name: string, k: nat)
    requires IsIdentifier(name) && CallOpen(t, start, name) == open && open != 0 && start <= k < open
    ensures if k < start + |name| then IsWordChar(t[k]) else if k < open - 1 then IsSpace(t[k]) else t[k] == '('
  {
    hide IsSpace, IsWordChar, AfterSpaces;
    if k < start + |name| {
      assert t[start..start + |name|][k - start] == t[k];
    }
  }

  lemma WordsAreNoSpaces(c: char)
    ensures !(IsSpace(c) && IsWordChar(c)) && !IsWordChar('(')
  {
  }

  lemma {:induction false} SpansStart(t: string, cursor: nat, name: string, replace: bool)
    requires cursor <= |t|
    ensures forall p <- Spans(t, cursor, name, replace) :: p.start >= cursor && p.end >= p.open > p.start
    decreases |t| - cursor
  {
    hide TurnAt, Search, CallOpen, ScanFrom;
    TurnFinds(t, cursor, name, replace);
    var turn := TurnAt(t, cursor, name, replace);
    if turn.seg.Call? {
      ScanPositions(t, Search(t, cursor, name).open);
    }
    if !turn.last {
      SpansStart(t, turn.next, name, replace);
    }
  }

  /** A call of the name is rewritten exactly if it can be and no rewritten call has it among its arguments; and
      nothing else is rewritten. */
  lemma {:induction false} CallsRewritten(t: string, cursor: nat, name: string, replace: bool, p: Span)
    requires cursor <= |t| && IsIdentifier(name)
    ensures var spans := Spans(t, cursor, name, replace);
            p in spans <==>
              && p.start >= cursor && IsCallAt(t, p.start, name, p.open) && CanSplice(t, p.open, replace)
              && p.end == ScanFrom(t, p.open, TOP).end
              && forall other <- spans :: !(other.start < p.start <= other.end)
    decreases |t| - cursor
  {
    hide TurnAt, Search, CallOpen, ScanFrom, IsIdentifier, IsCallAt, CanSplice, Qualifies, Spans;
    var m, turn := Search(t, cursor, name), TurnAt(t, cursor, name, replace);
    TurnFinds(t, cursor, name, replace);
    SpansOfTurn(t, cursor, name, replace);
    SpansStart(t, cursor, name, replace);
    CallsAreFound(t, p.start, name, p.open);
    SpliceIsQualified(t, p.open, replace);
    if m.Match? {
      SpansStart(t, turn.next, name, replace);
      CallsRewritten(t, turn.next, name, replace, p);
      if m.start < p.start < m.open {
        NoCallInHead(t, m.start, m.open, name, p.start);
      }
    } else {
      PastTheEnd(t, p.start, name);
    }
  }

  lemma PastTheEnd(t: string, i: nat, name: string)
    ensures i >= |t| ==> CallOpen(t, i, name) == 0
  {
  }

  lemma SpansOfTurn(t: string, cursor: nat, name: string, replace: bool)
    requires cursor <= |t|
    ensures var turn := TurnAt(t, cursor, name, replace);
            && (turn.seg.Plain? ==> Spans(t, cursor, name, replace) == if turn.last then [] else Spans(t, turn.next, name, replace))
            && (turn.seg.Call? && !turn.last ==>
                  var start, open := cursor + |turn.seg.before|, cursor + |turn.seg.before| + |turn.seg.head| + 1;
                  Spans(t, cursor, name, replace) == [Span(start, open, turn.next - 1)] + Spans(t, turn.next, name, replace))
  {
    hide TurnAt;
    var turn := TurnAt(t, cursor, name, replace);
    if turn.seg.Plain? && !turn.last {
      assert [] + Spans(t, turn.next, name, replace) == Spans(t, turn.next, name, replace);
    }
  }
}
