/** The splitter that picks the tolerance out of a near-comparison: it cuts an argument list at its
    top-level commas. Every kind of bracket counts, angle brackets too, except the `>` of an arrow. */
module ArgSplitter {
  import opened PythonText

  predicate Opens(c: char) { c == '(' || c == '[' || c == '{' || c == '<' }

  predicate Closes(c: char) { c == ')' || c == ']' || c == '}' || c == '>' }

  predicate Arrow(t: string, i: nat)
    requires i < |t|
  {
    i > 0 && t[i] == '>' && t[i - 1] == '-'
  }

  /** The bracket depth before position i. */
  function DepthAt(t: string, i: nat): int
    requires i <= |t|
  {
    if i == 0 then 0
    else if Arrow(t, i - 1) then DepthAt(t, i - 1)
    else if Opens(t[i - 1]) then DepthAt(t, i - 1) + 1
    else if Closes(t[i - 1]) then DepthAt(t, i - 1) - 1
    else DepthAt(t, i - 1)
  }

  ghost predicate IsOpening(c: char) { c in "([{<" }

  ghost predicate IsClosing(c: char) { c in ")]}>" }

  lemma BracketsAre(c: char)
    ensures IsOpening(c) <==> Opens(c)
    ensures IsClosing(c) <==> Closes(c)
    ensures !(Opens(c) && Closes(c)) && (c == '>' ==> Closes(c))
  {
  }

  ghost function OpeningBrackets(t: string, i: nat): set<nat>
    requires i <= |t|
  {
    set j: nat | j < i && IsOpening(t[j])
  }

  /** The `>` of an arrow closes nothing. */
  ghost function ClosingBrackets(t: string, i: nat): set<nat>
    requires i <= |t|
  {
    set j: nat | j < i && IsClosing(t[j]) && !(t[j] == '>' && j > 0 && t[j - 1] == '-')
  }

  lemma NextOpening(t: string, j: nat)
    requires j < |t|
    ensures |OpeningBrackets(t, j + 1)| == |OpeningBrackets(t, j)| + if IsOpening(t[j]) then 1 else 0
  {
    hide IsOpening;
    var before := OpeningBrackets(t, j);
    if IsOpening(t[j]) {
      assert OpeningBrackets(t, j + 1) == before + {j};
    } else {
      assert OpeningBrackets(t, j + 1) == before;
    }
  }

  lemma NextClosing(t: string, j: nat)
    requires j < |t|
    ensures |ClosingBrackets(t, j + 1)| == |ClosingBrackets(t, j)| + if IsClosing(t[j]) && !Arrow(t, j) then 1 else 0
  {
    hide IsClosing;
    var before := ClosingBrackets(t, j);
    if IsClosing(t[j]) && !Arrow(t, j) {
      assert ClosingBrackets(t, j + 1) == before + {j};
    } else {
      assert ClosingBrackets(t, j + 1) == before;
    }
  }

  /** The depth before i is the number of opening brackets there, less that of the closing ones. */
  lemma {:induction false} DepthIsCount(t: string, i: nat)
    requires i <= |t|
    ensures DepthAt(t, i) == |OpeningBrackets(t, i)| - |ClosingBrackets(t, i)|
  {
    hide IsOpening, IsClosing, Opens, Closes;
    if i == 0 {
      assert OpeningBrackets(t, 0) == {} && ClosingBrackets(t, 0) == {};
    } else {
      hide OpeningBrackets, ClosingBrackets;
      DepthIsCount(t, i - 1);
      NextOpening(t, i - 1);
      NextClosing(t, i - 1);
      BracketsAre(t[i - 1]);
    }
  }

  predicate Separates(t: string, i: nat)
    requires i < |t|
  {
    t[i] == ',' && DepthAt(t, i) == 0
  }

  /** The pieces before stripping, for the piece that starts at `start` and is read up to i. An unmatched
      closing bracket ends the list; an empty last piece is dropped. */
  function PiecesFrom(t: string, start: nat, i: nat): (r: seq<string>)
    requires start <= i <= |t|
    decreases |t| - i
  {
    if i == |t| then if start == i then [] else [t[start..i]]
    else if Separates(t, i) then [t[start..i]] + PiecesFrom(t, i + 1, i + 1)
    else if DepthAt(t, i + 1) < 0 then [t[start..i + 1]]
    else PiecesFrom(t, start, i + 1)
  }

  function Pieces(t: string): seq<string> { PiecesFrom(t, 0, 0) }

  function Stripped(pieces: seq<string>): seq<string> {
    seq(|pieces|, k requires 0 <= k < |pieces| => Strip(pieces[k]))
  }

  lemma StrippedMore(a: seq<string>, p: string)
    ensures Stripped(a + [p]) == Stripped(a) + [Strip(p)]
  {
  }

  lemma Step(t: string, start: nat, i: nat)
    requires start <= i < |t|
    ensures t[start..i] + [t[i]] == t[start..i + 1] != "" && t[i + 1..i + 1] == ""
    ensures DepthAt(t, i + 1) == DepthAt(t, i) + if Arrow(t, i) then 0 else if Opens(t[i]) then 1 else if Closes(t[i]) then -1 else 0
    ensures PiecesFrom(t, start, i) == if t[i] == ',' && DepthAt(t, i) == 0 then [t[start..i]] + PiecesFrom(t, i + 1, i + 1)
                                       else if DepthAt(t, i + 1) < 0 then [t[start..i + 1]]
                                       else PiecesFrom(t, start, i + 1)
  {
  }

  /** The loop of the original. */
  method SplitTopLevelArgs(arglist: string) returns (args: seq<string>)
    ensures args == Stripped(Pieces(arglist))
  {
    hide DepthAt, PiecesFrom, Separates, Stripped, Strip;
    args := [];
    var depth := 0;
    var current := "";
    var prev := "";
    var i := 0;
    ghost var start := 0;
    ghost var done: seq<string> := [];
    Start(arglist);
    while i < |arglist|
      invariant start <= i <= |arglist| && current == arglist[start..i]
      invariant depth == DepthAt(arglist, i) && depth >= 0 && prev == if i == 0 then "" else [arglist[i - 1]]
      invariant args == Stripped(done) && Pieces(arglist) == done + PiecesFrom(arglist, start, i)
    {
      var ch := arglist[i];
      Step(arglist, start, i);
      assert (ch == '>' && prev == "-") == Arrow(arglist, i) by {
        assert i > 0 ==> prev[0] == arglist[i - 1];
      }
      if ch == '>' && prev == "-" {
        current := current + [ch];
      } else if Opens(ch) {
        depth := depth + 1;
        current := current + [ch];
      } else if Closes(ch) {
        depth := depth - 1;
        current := current + [ch];
        if depth < 0 {
          break;
        }
      } else if ch == ',' && depth == 0 {
        StrippedMore(done, current);
        args := args + [Strip(current)];
        assert done + ([current] + PiecesFrom(arglist, i + 1, i + 1)) == done + [current] + PiecesFrom(arglist, i + 1, i + 1);
        done := done + [current];
        current := "";
        start := i + 1;
      } else {
        current := current + [ch];
      }
      prev := [ch];
      i := i + 1;
    }
    if i == |arglist| {
      AtEnd(arglist, start);
    }
    assert done + [] == done;
    assert Pieces(arglist) == if current == "" then done else done + [current];
    if current != "" {
      StrippedMore(done, current);
      args := args + [Strip(current)];
    }
  }

  lemma Start(t: string)
    ensures DepthAt(t, 0) == 0 && t[0..0] == "" && Stripped([]) == []
  {
  }

  lemma AtEnd(t: string, start: nat)
    requires start <= |t|
    ensures PiecesFrom(t, start, |t|) == if t[start..|t|] == "" then [] else [t[start..|t|]]
  {
  }

  // ----- joining the pieces again -----

  function Join(pieces: seq<string>): string {
    if pieces == [] then ""
    else if |pieces| == 1 then pieces[0]
    else pieces[0] + "," + Join(pieces[1..])
  }

  /** Where reading stops: behind the first unmatched closing bracket, or at the end. */
  function Stop(t: string, i: nat): (r: nat)
    requires i <= |t|
    ensures i <= r <= |t|
    ensures r < |t| ==> r > i && DepthAt(t, r) < 0
    ensures forall k | i < k < r :: DepthAt(t, k) >= 0
    decreases |t| - i
  {
    if i == |t| then i else if DepthAt(t, i + 1) < 0 then i + 1 else Stop(t, i + 1)
  }

  predicate EndsInComma(t: string) {
    t != "" && Separates(t, |t| - 1)
  }

  lemma JoinFirst(p: string, rest: seq<string>)
    requires rest != []
    ensures Join([p] + rest) == p + "," + Join(rest)
  {
    assert ([p] + rest)[1..] == rest;
  }

  lemma JoinOne(p: string)
    ensures Join([p]) == p
  {
  }

  /** What reading from i on leaves of the piece that starts at `start`. */
  function Kept(t: string, start: nat, i: nat): string
    requires start <= i <= |t|
  {
    if i < |t| == Stop(t, i) && EndsInComma(t) then t[start..|t| - 1] else t[start..Stop(t, i)]
  }

  lemma {:induction false} JoinOfPieces(t: string, start: nat, i: nat)
    requires start <= i <= |t|
    ensures PiecesFrom(t, start, i) == [] <==> start == |t|
    ensures Join(PiecesFrom(t, start, i)) == Kept(t, start, i)
    decreases |t| - i
  {
    hide Separates, DepthAt, Stop, Join, EndsInComma;
    StopSteps(t, i);
    JoinOne(t[start..i]);
    if i < |t| {
      if Separates(t, i) {
        JoinOfPieces(t, i + 1, i + 1);
        JoinAtComma(t, start, i);
      } else if DepthAt(t, i + 1) >= 0 {
        JoinOfPieces(t, start, i + 1);
        LastIsNoComma(t, i);
      } else {
        DipIsNoComma(t, i);
        JoinOne(t[start..i + 1]);
        if i + 1 == |t| {
          LastIsNoComma(t, i);
        }
      }
    }
  }

  lemma StopSteps(t: string, i: nat)
    requires i <= |t|
    ensures Stop(t, i) == if i == |t| then i else if DepthAt(t, i + 1) < 0 then i + 1 else Stop(t, i + 1)
    ensures Stop(t, |t|) == |t| && Join([]) == ""
  {
    hide DepthAt;
  }

  lemma LastIsNoComma(t: string, i: nat)
    requires i < |t| && !Separates(t, i)
    ensures i + 1 == |t| ==> !EndsInComma(t)
  {
    hide Separates;
  }

  lemma JoinAtComma(t: string, start: nat, i: nat)
    requires start <= i < |t| && Separates(t, i)
    requires Join(PiecesFrom(t, i + 1, i + 1)) == Kept(t, i + 1, i + 1)
    requires PiecesFrom(t, i + 1, i + 1) == [] <==> i + 1 == |t|
    ensures Join([t[start..i]] + PiecesFrom(t, i + 1, i + 1)) == Kept(t, start, i)
  {
    hide Separates, DepthAt, Stop, Join, PiecesFrom;
    StopSteps(t, i);
    DepthAfterComma(t, i);
    if i + 1 < |t| {
      JoinFirst(t[start..i], PiecesFrom(t, i + 1, i + 1));
      assert t[i..i + 1] == ",";
      Slices(t, start, i, i + 1, if Stop(t, i + 1) == |t| && EndsInComma(t) then |t| - 1 else Stop(t, i + 1));
    } else {
      JoinOne(t[start..i]);
      assert [t[start..i]] + [] == [t[start..i]];
    }
  }

  lemma Slices(t: string, a: nat, b: nat, c: nat, d: nat)
    requires a <= b <= c <= d <= |t|
    ensures t[a..d] == t[a..b] + t[b..c] + t[c..d]
  {
  }

  lemma DepthAfterComma(t: string, i: nat)
    requires i < |t| && Separates(t, i)
    ensures DepthAt(t, i + 1) == 0 && t[i] == ','
  {
  }

  lemma DipIsNoComma(t: string, i: nat)
    requires i < |t| && DepthAt(t, i + 1) < 0
    ensures !Separates(t, i)
  {
  }

  lemma EndsNonempty(t: string)
    ensures EndsInComma(t) ==> t != ""
  {
  }

  ghost predicate NoDipInside(t: string) {
    forall k | 0 < k < |t| :: DepthAt(t, k) >= 0
  }

  lemma StopMeansDip(t: string)
    ensures Stop(t, 0) == |t| <==> NoDipInside(t)
  {
    var e := Stop(t, 0);
    assert e < |t| ==> 0 < e && DepthAt(t, e) < 0;
  }

  /** Joining the pieces gives the text back exactly if no bracket before the last character is unmatched
      and the text does not end in a top-level comma. */
  lemma JoinGivesBack(t: string)
    ensures Join(Pieces(t)) == t <==> !EndsInComma(t) && NoDipInside(t)
  {
    hide EndsInComma, PiecesFrom, Join, Stop, NoDipInside;
    StopMeansDip(t);
    assert EndsInComma(t) ==> t != "" by { EndsNonempty(t); }
    JoinOfPieces(t, 0, 0);
    var e := Stop(t, 0);
    assert t[0..|t|] == t;
    if e < |t| {
      assert |t[0..e]| < |t|;
    } else if EndsInComma(t) {
      assert |t[0..|t| - 1]| < |t|;
    } else {
      assert Join(Pieces(t)) == t;
    }
  }

  // ----- splitting what was joined -----

  /** A piece that can stand before a comma: no unmatched closing bracket, no top-level comma, every
      bracket closed. */
  ghost predicate Solid(p: string) {
    Open(p) && DepthAt(p, |p|) == 0
  }

  /** A piece that can stand last: no top-level comma, and at most its last character closes a bracket too
      many. */
  ghost predicate Open(p: string) {
    forall k | 0 <= k < |p| :: DepthAt(p, k) >= 0 && !Separates(p, k)
  }

  ghost predicate WellSplit(pieces: seq<string>) {
    && (forall k | 0 <= k < |pieces| - 1 :: Solid(pieces[k]))
    && (pieces != [] ==> pieces[|pieces| - 1] != "" && Open(pieces[|pieces| - 1]))
  }

  /** A text that starts behind a top-level comma counts its depths as if it stood alone. */
  lemma {:induction false} DepthInPiece(t: string, start: nat, p: string, k: nat)
    requires start + |p| <= |t| && t[start..start + |p|] == p && k <= |p|
    requires DepthAt(t, start) == 0 && (start == 0 || t[start - 1] == ',')
    ensures DepthAt(t, start + k) == DepthAt(p, k)
  {
    if k > 0 {
      DepthInPiece(t, start, p, k - 1);
      assert p[k - 1] == t[start + k - 1];
      if k > 1 {
        assert p[k - 2] == t[start + k - 2];
      }
    }
  }

  lemma PieceInText(t: string, start: nat, p: string)
    requires start + |p| <= |t| && t[start..start + |p|] == p
    requires DepthAt(t, start) == 0 && (start == 0 || t[start - 1] == ',')
    ensures forall k | 0 <= k <= |p| :: DepthAt(t, start + k) == DepthAt(p, k)
    ensures forall k | 0 <= k < |p| :: Separates(t, start + k) == Separates(p, k)
  {
    hide DepthAt;
    forall k | 0 <= k <= |p| ensures DepthAt(t, start + k) == DepthAt(p, k) {
      DepthInPiece(t, start, p, k);
    }
    forall k | 0 <= k < |p| ensures Separates(t, start + k) == Separates(p, k) {
      DepthInPiece(t, start, p, k);
      assert p[k] == t[start + k];
    }
  }

  /** Reading goes on at position k. */
  predicate Passes(t: string, k: nat)
    requires k < |t|
  {
    !Separates(t, k) && DepthAt(t, k + 1) >= 0
  }

  /** Reading goes on through a stretch that neither separates nor dips. */
  lemma {:induction false} ReadThrough(t: string, start: nat, i: nat, e: nat)
    requires start <= i <= e <= |t|
    requires forall k | i <= k < e :: Passes(t, k)
    ensures PiecesFrom(t, start, i) == PiecesFrom(t, start, e)
    decreases e - i
  {
    hide Separates, DepthAt;
    if i < e {
      assert Passes(t, i);
      ReadThrough(t, start, i + 1, e);
    }
  }

  lemma FirstPiece(t: string, p: string, rest: string, start: nat)
    requires start <= |t| && t[start..] == p + "," + rest && Solid(p)
    requires DepthAt(t, start) == 0 && (start == 0 || t[start - 1] == ',')
    ensures var e := start + |p| + 1;
            e <= |t| && PiecesFrom(t, start, start) == [p] + PiecesFrom(t, e, e)
            && t[e..] == rest && DepthAt(t, e) == 0 && t[e - 1] == ','
  {
    hide Separates, DepthAt;
    var c := start + |p|;
    assert t[start..c] == t[start..][..|p|] == p;
    assert t[c] == t[start..][|p|] == ',';
    assert t[c + 1..] == t[start..][|p| + 1..] == rest;
    PieceInText(t, start, p);
    assert DepthAt(t, start + |p|) == 0;
    forall k | start <= k < c ensures Passes(t, k) {
      assert Separates(t, start + (k - start)) == Separates(p, k - start);
      assert DepthAt(t, start + (k - start + 1)) == DepthAt(p, k - start + 1);
    }
    ReadThrough(t, start, start, c);
    CommaSeparates(t, c);
    DepthAfterComma(t, c);
  }

  lemma CommaSeparates(t: string, i: nat)
    requires i < |t| && t[i] == ',' && DepthAt(t, i) == 0
    ensures Separates(t, i)
  {
  }

  lemma LastPiece(t: string, p: string, start: nat)
    requires start <= |t| && t[start..] == p && p != "" && Open(p)
    requires DepthAt(t, start) == 0 && (start == 0 || t[start - 1] == ',')
    ensures PiecesFrom(t, start, start) == [p]
  {
    hide Separates, DepthAt;
    var c := |t| - 1;
    assert t[start..start + |p|] == p;
    PieceInText(t, start, p);
    forall k | start <= k < c ensures Passes(t, k) {
      assert Separates(t, start + (k - start)) == Separates(p, k - start);
      assert DepthAt(t, start + (k - start + 1)) == DepthAt(p, k - start + 1);
    }
    ReadThrough(t, start, start, c);
    assert Separates(t, start + (|p| - 1)) == Separates(p, |p| - 1);
    assert t[start..|t|] == p;
  }

  lemma {:induction false} SplitOfJoin(t: string, start: nat, pieces: seq<string>)
    requires start <= |t| && t[start..] == Join(pieces) && WellSplit(pieces)
    requires DepthAt(t, start) == 0 && (start == 0 || t[start - 1] == ',')
    ensures PiecesFrom(t, start, start) == pieces
    decreases |pieces|
  {
    hide Separates, DepthAt, Open;
    if |pieces| == 1 {
      LastPiece(t, pieces[0], start);
    } else if |pieces| > 1 {
      var rest := pieces[1..];
      assert pieces == [pieces[0]] + rest;
      JoinFirst(pieces[0], rest);
      FirstPiece(t, pieces[0], Join(rest), start);
      SplitOfJoin(t, start + |pieces[0]| + 1, rest);
    }
  }

  lemma OpenPiece(t: string, start: nat, e: nat)
    requires start <= e <= |t| && DepthAt(t, start) == 0 && (start == 0 || t[start - 1] == ',')
    requires forall k | start <= k < e :: !Separates(t, k) && DepthAt(t, k) >= 0
    ensures Open(t[start..e]) && DepthAt(t[start..e], e - start) == DepthAt(t, e)
  {
    hide Separates, DepthAt;
    var p := t[start..e];
    PieceInText(t, start, p);
    forall k | 0 <= k < |p| ensures DepthAt(p, k) >= 0 && !Separates(p, k) {
      assert DepthAt(t, start + k) == DepthAt(p, k) && Separates(t, start + k) == Separates(p, k);
    }
    assert DepthAt(t, start + |p|) == DepthAt(p, |p|);
  }

  lemma WellSplitMore(p: string, rest: seq<string>)
    requires WellSplit(rest) && Solid(p) && rest != []
    ensures WellSplit([p] + rest)
  {
    hide Solid, Open;
  }

  /** The pieces of a text that does not end in a top-level comma. */
  lemma {:induction false} PiecesAreWellSplit(t: string, start: nat, i: nat)
    requires start <= i <= |t| && DepthAt(t, start) == 0 && (start == 0 || t[start - 1] == ',')
    requires forall k | start <= k < i :: !Separates(t, k)
    requires forall k | start <= k <= i :: DepthAt(t, k) >= 0
    requires !EndsInComma(t)
    ensures WellSplit(PiecesFrom(t, start, i))
    decreases |t| - i
  {
    hide Separates, DepthAt, Open, Join, Kept, WellSplit;
    if i == |t| {
      OpenPiece(t, start, i);
      SinglePiece(t, start, i);
    } else if Separates(t, i) {
      OpenPiece(t, start, i);
      SeparatesAtTop(t, i);
      DepthAfterComma(t, i);
      NotLastComma(t, i);
      PiecesAreWellSplit(t, i + 1, i + 1);
      JoinOfPieces(t, i + 1, i + 1);
      WellSplitMore(t[start..i], PiecesFrom(t, i + 1, i + 1));
    } else if DepthAt(t, i + 1) < 0 {
      OpenPiece(t, start, i + 1);
      SinglePiece(t, start, i + 1);
    } else {
      PiecesAreWellSplit(t, start, i + 1);
    }
  }

  lemma SinglePiece(t: string, start: nat, end: nat)
    requires start <= end <= |t|
    ensures WellSplit([])
    ensures start < end && Open(t[start..end]) ==> WellSplit([t[start..end]])
  {
    hide Open;
  }

  lemma NotLastComma(t: string, i: nat)
    requires i < |t| && Separates(t, i) && !EndsInComma(t)
    ensures i + 1 < |t|
  {
    hide Separates;
  }

  lemma SeparatesAtTop(t: string, i: nat)
    requires i < |t| && Separates(t, i)
    ensures DepthAt(t, i) == 0
  {
  }

  /** Splitting gives back the pieces a text was joined from exactly if every piece but the last is balanced
      and without top-level commas, and the last is one that reading does not cut or drop. */
  lemma SplitGivesBack(pieces: seq<string>)
    ensures Pieces(Join(pieces)) == pieces <==> WellSplit(pieces)
  {
    hide Separates, Open, PiecesFrom, Join;
    var t := Join(pieces);
    if WellSplit(pieces) {
      assert t[0..] == t;
      SplitOfJoin(t, 0, pieces);
    } else if Pieces(t) == pieces {
      JoinGivesBack(t);
      PiecesAreWellSplit(t, 0, 0);
    }
  }

  /** The use the tool makes of it: the third argument of a comparison is found, whatever the first two
      contain, as long as their brackets match. */
  lemma ThirdArgument(a: string, b: string, c: string)
    requires Solid(a) && Solid(b) && Open(c) && c != ""
    ensures Stripped(Pieces(a + "," + b + "," + c)) == [Strip(a), Strip(b), Strip(c)]
  {
    hide Separates, Open, Solid, PiecesFrom, Strip, Join;
    var pieces := [a, b, c];
    assert pieces == [a] + [b, c] && [b, c] == [b] + [c];
    JoinFirst(a, [b, c]);
    JoinFirst(b, [c]);
    assert Join([c]) == c by { JoinOne(c); }
    assert a + "," + (b + "," + c) == a + "," + b + "," + c;
    SplitGivesBack(pieces);
  }

  /** A less-than sign counts as a bracket, so the comma behind it is missed; an arrow does not. */
  lemma LessThanHidesComma()
    ensures Pieces("a<b,c") == ["a<b,c"] && Pieces("a->b,c") == ["a->b", "c"]
  {
    hide PiecesFrom, Join;
    var one := "a<b,c";
    assert DepthAt(one, 2) == DepthAt(one, 3) == DepthAt(one, 4) == 1;
    JoinOne(one);
    SplitGivesBack([one]);
    var two := ["a->b", "c"];
    assert two == ["a->b"] + ["c"];
    JoinFirst("a->b", ["c"]);
    JoinOne("c");
    assert "a->b" + "," + "c" == "a->b,c";
    assert DepthAt("a->b", 2) == DepthAt("a->b", 3) == 0;
    SplitGivesBack(two);
  }
}
