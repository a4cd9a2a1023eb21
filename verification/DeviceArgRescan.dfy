/** Re-scanning what the device-argument rewriter wrote: in any surroundings, a rewritten call has the old
    argument list with `device` at index 2. */
module DeviceArgRescan {
  import opened CallScanner
  import opened DeviceArg
  import opened DeviceArgProofs

  function Between(t: string, a: int, b: int): string {
    if 0 <= a <= b <= |t| then t[a..b] else ""
  }

  /** The texts between the cuts. */
  function Pieces(t: string, from: int, commas: seq<nat>, end: int): seq<string>
    decreases |commas|
  {
    if commas == [] then [Between(t, from, end)]
    else [Between(t, from, commas[0])] + Pieces(t, commas[0] + 1, commas[1..], end)
  }

  /** The top-level arguments of the call whose parenthesis opens just before `open`. */
  function Arguments(t: string, open: nat): seq<string> {
    var r := ScanFrom(t, open, TOP);
    if r.end < 0 then [] else Pieces(t, open, r.commas, r.end)
  }

  /** What the rewriting should do to an argument list. */
  function WithDevice(args: seq<string>, replace: bool): seq<string>
    requires |args| >= 3
  {
    args[..2] + [" device"] + args[if replace then 3 else 2..]
  }

  lemma {:induction false} PiecesCount(t: string, from: int, commas: seq<nat>, end: int)
    ensures |Pieces(t, from, commas, end)| == |commas| + 1
    decreases |commas|
  {
    if commas != [] {
      PiecesCount(t, commas[0] + 1, commas[1..], end);
    }
  }

  lemma PiecesCons(t: string, from: int, x: nat, xs: seq<nat>, end: int)
    ensures Pieces(t, from, [x] + xs, end) == [Between(t, from, x)] + Pieces(t, x + 1, xs, end)
  {
    assert ([x] + xs)[1..] == xs;
  }

  lemma {:induction false} PiecesSplit(t: string, from: int, a: seq<nat>, c: nat, b: seq<nat>, end: int)
    ensures Pieces(t, from, a + [c] + b, end) == Pieces(t, from, a, c) + Pieces(t, c + 1, b, end)
    decreases |a|
  {
    hide Pieces, Between;
    if a == [] {
      assert a + [c] + b == [c] + b;
      PiecesCons(t, from, c, b, end);
      OnePiece(t, from, c);
    } else {
      var xs := a[1..];
      PiecesSplit(t, a[0] + 1, xs, c, b, end);
      assert a + [c] + b == [a[0]] + (xs + [c] + b);
      PiecesCons(t, from, a[0], xs + [c] + b, end);
      assert a == [a[0]] + xs;
      PiecesCons(t, from, a[0], xs, c);
    }
  }

  lemma OnePiece(t: string, from: int, end: int)
    ensures Pieces(t, from, [], end) == [Between(t, from, end)]
  {
  }

  /** Cuts in order between two positions. */
  ghost predicate Cuts(from: int, commas: seq<nat>, end: int) {
    && from <= end
    && (forall n | 0 <= n < |commas| :: from <= commas[n] < end)
    && (forall m, n | 0 <= m < n < |commas| :: commas[m] < commas[n])
  }

  lemma {:induction false} PiecesMove(t: string, from: nat, commas: seq<nat>, end: nat, t': string, from': nat)
    requires Cuts(from, commas, end) && Copied(t, from, end, t', from')
    ensures Pieces(t', from', Moved(commas, from, from'), end - from + from') == Pieces(t, from, commas, end)
    decreases |commas|
  {
    hide Copied, Moved, Between;
    if commas == [] {
      MovedNone(from, from');
      CopiedSlice(t, from, end, t', from', end);
    } else {
      var c, rest := commas[0], commas[1..];
      var shift := c + 1 - from + from';
      CopiedSlice(t, from, end, t', from', c);
      CopiedTail(t, from, end, t', from', c + 1);
      PiecesMove(t, c + 1, rest, end, t', shift);
      MovedSame(rest, from, from', c + 1, shift);
      MovedFirst(commas, from, from');
      PiecesCons(t', from', c - from + from', Moved(rest, from, from'), end - from + from');
    }
  }

  lemma MovedFirst(c: seq<nat>, i: nat, i': nat)
    requires c != [] && c[0] - i + i' >= 0
    ensures Moved(c, i, i') == [c[0] - i + i'] + Moved(c[1..], i, i')
  {
  }

  lemma CopiedSlice(t: string, lo: nat, hi: nat, t': string, lo': nat, b: nat)
    requires Copied(t, lo, hi, t', lo') && lo <= b <= hi
    ensures Between(t', lo', b - lo + lo') == Between(t, lo, b)
  {
  }

  lemma CopiedFromParts(t: string, lo: nat, hi: nat, t': string, lo': nat)
    requires lo <= hi <= |t| && lo' + (hi - lo) <= |t'| && t'[lo'..lo' + (hi - lo)] == t[lo..hi]
    ensures Copied(t, lo, hi, t', lo')
  {
    forall k | lo <= k < hi ensures t[k] == t'[k - lo + lo'] {
      assert t[lo..hi][k - lo] == t'[lo'..lo' + (hi - lo)][k - lo];
    }
  }

  /** From its n-th comma on a scan is the scan that starts behind that comma. */
  lemma ScanAfterComma(t: string, open: nat, n: nat)
    requires n < |ScanFrom(t, open, TOP).commas|
    ensures var r := ScanFrom(t, open, TOP);
            r.commas[n] + 1 <= |t|
            && ScanFrom(t, r.commas[n] + 1, TOP) == Scan(r.commas[n + 1..], r.end, r.exit)
  {
    hide ScanFrom;
    var r := ScanFrom(t, open, TOP);
    CommasInOrder(t, open, TOP);
    assert Copied(t, open, r.commas[n] + 1, t, open);
    ReplayToComma(t, open, TOP, n, t, open);
    var rest := ScanFrom(t, r.commas[n] + 1, TOP);
    assert r == Then(Moved(r.commas[..n + 1], open, open), rest);
    assert r.commas[n + 1..] == rest.commas;
  }

  /** The spliced argument is scanned as one plain argument with a comma behind it. */
  lemma ScanDevice(t: string, p: nat)
    requires p + 8 <= |t| && t[p..p + 8] == DEVICE
    ensures ScanFrom(t, p, TOP) == Then([p + 7], ScanFrom(t, p + 8, TOP))
  {
    hide ScanFrom;
    DeviceIsPlain(t, p);
    PlainStep(t, p, TOP);
    PlainStep(t, p + 1, TOP);
    PlainStep(t, p + 2, TOP);
    PlainStep(t, p + 3, TOP);
    PlainStep(t, p + 4, TOP);
    PlainStep(t, p + 5, TOP);
    PlainStep(t, p + 6, TOP);
    CommaStep(t, p + 7);
  }

  lemma DeviceIsPlain(t: string, p: nat)
    requires p + 8 <= |t| && t[p..p + 8] == DEVICE
    ensures forall k | p <= k < p + 7 :: IsPlain(t[k])
    ensures t[p + 7] == ','
  {
    forall k | p <= k < p + 8 ensures t[k] == DEVICE[k - p] {
      assert t[p..p + 8][k - p] == DEVICE[k - p];
    }
    assert forall n | 0 <= n < 7 :: IsPlain(DEVICE[n]);
  }

  lemma CommaStep(t: string, i: nat)
    requires i < |t| && t[i] == ','
    ensures ScanFrom(t, i, TOP) == Then([i], ScanFrom(t, i + 1, TOP))
  {
  }

  predicate IsPlain(c: char) {
    && c != '"' && c != '\'' && c != '/' && c != '(' && c != ')' && c != '{' && c != '}'
    && c != '[' && c != ']' && c != ','
  }

  lemma PlainStep(t: string, i: nat, d: Depth)
    requires i < |t| && IsPlain(t[i])
    ensures ScanFrom(t, i, d) == ScanFrom(t, i + 1, d)
  {
  }

  /** Scanning a rewritten call inside any text: the commas before the splice, the one of the splice,
      those behind the k-th old comma, and the old end. */
  lemma ScanOfSplice(t: string, open: nat, k: nat, t': string, open': nat, p': nat)
    requires 1 <= k < |ScanFrom(t, open, TOP).commas| && ScanFrom(t, open, TOP).end >= 0
    requires ScanFrom(t, open, TOP).commas[1] + 1 >= open
    requires p' == ScanFrom(t, open, TOP).commas[1] + 1 - open + open'
    requires Copied(t, open, ScanFrom(t, open, TOP).commas[1] + 1, t', open')
    requires p' + 8 <= |t'| && t'[p'..p' + 8] == DEVICE
    requires Copied(t, ScanFrom(t, open, TOP).commas[k] + 1, ScanFrom(t, open, TOP).end + 1, t', p' + 8)
    ensures var r := ScanFrom(t, open, TOP);
            var q := r.commas[k] + 1;
            ScanFrom(t', open', TOP)
            == Then(Moved(r.commas[..2], open, open'),
                    Then([p' + 7], Scan(Moved(r.commas[k + 1..], q, p' + 8), r.end - q + p' + 8, r.exit)))
  {
    hide ScanFrom, Moved, Copied, Then;
    ReplayToComma(t, open, TOP, 1, t', open');
    ScanDevice(t', p');
    ScanAfterComma(t, open, k);
    ReplayToEnd(t, ScanFrom(t, open, TOP).commas[k] + 1, TOP, t', p' + 8);
  }

  /** An argument list, taken apart at its second comma and, in replace mode, at its third. */
  lemma ArgumentsInParts(t: string, open: nat, k: nat)
    requires ScanFrom(t, open, TOP).end >= 0 && 1 <= k <= 2 && k < |ScanFrom(t, open, TOP).commas|
    ensures var r := ScanFrom(t, open, TOP);
            var args := Arguments(t, open);
            && |args| == |r.commas| + 1
            && args[..2] == Pieces(t, open, [r.commas[0]], r.commas[1])
            && args[k + 1..] == Pieces(t, r.commas[k] + 1, r.commas[k + 1..], r.end)
  {
    hide ScanFrom;
    var r := ScanFrom(t, open, TOP);
    SplitAtCommas(t, open, r.commas, r.end, k);
  }

  lemma SplitAtCommas(t: string, open: nat, c: seq<nat>, end: int, k: nat)
    requires 1 <= k <= 2 && k < |c|
    ensures var args := Pieces(t, open, c, end);
            && |args| == |c| + 1
            && args[..2] == Pieces(t, open, [c[0]], c[1])
            && args[k + 1..] == Pieces(t, c[k] + 1, c[k + 1..], end)
  {
    hide Pieces;
    PiecesCount(t, open, c, end);
    PiecesCount(t, open, [c[0]], c[1]);
    assert c == [c[0]] + [c[1]] + c[2..];
    PiecesSplit(t, open, [c[0]], c[1], c[2..], end);
    if k == 2 {
      assert c[2..] == [c[2]] + c[3..];
      PiecesCons(t, c[1] + 1, c[2], c[3..], end);
    }
  }

  lemma PiecesOfSplice(t': string, open': nat, a: nat, p': nat, rest: seq<nat>, end: int)
    requires 1 <= p' && p' + 8 <= |t'| && t'[p'..p' + 8] == DEVICE
    ensures Pieces(t', open', [a, p' - 1] + ([p' + 7] + rest), end)
            == Pieces(t', open', [a], p' - 1) + [" device"] + Pieces(t', p' + 8, rest, end)
  {
    hide Pieces;
    var b := [p' + 7] + rest;
    assert [a, p' - 1] + b == [a] + [p' - 1] + b;
    PiecesSplit(t', open', [a], p' - 1, b, end);
    assert b == [] + [p' + 7] + rest;
    PiecesSplit(t', p', [], p' + 7, rest, end);
    OnePiece(t', p', p' + 7);
    assert t'[p'..p' + 7] == t'[p'..p' + 8][..7] == " device";
  }

  /** The rewritten argument text, wherever it stands, scans to the old arguments with `device` inserted at
      index 2, or in place of the third, whatever the arguments contain. */
  lemma ArgumentsOfSplice(t: string, open: nat, replace: bool, t': string, open': nat, p': nat)
    requires Qualifies(t, open, replace)
    requires ScanFrom(t, open, TOP).commas[1] + 1 >= open
    requires p' == ScanFrom(t, open, TOP).commas[1] + 1 - open + open'
    requires Copied(t, open, ScanFrom(t, open, TOP).commas[1] + 1, t', open')
    requires p' + 8 <= |t'| && t'[p'..p' + 8] == DEVICE
    requires var r := ScanFrom(t, open, TOP); Copied(t, ResumeComma(r, replace) + 1, r.end + 1, t', p' + 8)
    ensures |Arguments(t, open)| >= 3
    ensures Arguments(t', open') == WithDevice(Arguments(t, open), replace)
  {
    hide ScanFrom, SkipTo, Moved, Copied, Pieces, Between;
    var r := ScanFrom(t, open, TOP);
    var c := r.commas;
    var k := if replace then 2 else 1;
    var q := c[k] + 1;
    ScanPositions(t, open);
    ScanOfSplice(t, open, k, t', open', p');
    ArgumentsInParts(t, open, k);
    var c0' := c[0] - open + open';
    MovedPair(c, open, open');
    PiecesOfSplice(t', open', c0', p', Moved(c[k + 1..], q, p' + 8), r.end - q + p' + 8);
    MoveFirstTwo(t, open, c[0], c[1], t', open');
    MoveRest(t, open, k, t', p' + 8);
  }

  /** Its scan ends at the old closing parenthesis, at the old depths. */
  lemma EndOfSplice(t: string, open: nat, replace: bool, t': string, open': nat, p': nat)
    requires Qualifies(t, open, replace)
    requires ScanFrom(t, open, TOP).commas[1] + 1 >= open
    requires p' == ScanFrom(t, open, TOP).commas[1] + 1 - open + open'
    requires Copied(t, open, ScanFrom(t, open, TOP).commas[1] + 1, t', open')
    requires p' + 8 <= |t'| && t'[p'..p' + 8] == DEVICE
    requires var r := ScanFrom(t, open, TOP); Copied(t, ResumeComma(r, replace) + 1, r.end + 1, t', p' + 8)
    ensures var r := ScanFrom(t, open, TOP);
            && ScanFrom(t', open', TOP).end == r.end - (ResumeComma(r, replace) + 1) + p' + 8
            && ScanFrom(t', open', TOP).exit == r.exit
  {
    hide ScanFrom, Moved, Copied;
    ScanOfSplice(t, open, if replace then 2 else 1, t', open', p');
  }

  lemma MovedPair(c: seq<nat>, i: nat, i': nat)
    requires |c| >= 2 && i <= c[0] <= c[1]
    ensures Moved(c[..2], i, i') == [c[0] - i + i', c[1] - i + i']
  {
  }

  lemma MoveFirstTwo(t: string, open: nat, c0: nat, c1: nat, t': string, open': nat)
    requires open <= c0 < c1 && Copied(t, open, c1 + 1, t', open')
    ensures Pieces(t', open', [c0 - open + open'], c1 - open + open') == Pieces(t, open, [c0], c1)
  {
    PiecesMove(t, open, [c0], c1, t', open');
    assert Moved([c0], open, open') == [c0 - open + open'];
  }

  lemma MoveRest(t: string, open: nat, k: nat, t': string, q': nat)
    requires k < |ScanFrom(t, open, TOP).commas| && ScanFrom(t, open, TOP).end >= 0
    requires Copied(t, ScanFrom(t, open, TOP).commas[k] + 1, ScanFrom(t, open, TOP).end + 1, t', q')
    ensures var r := ScanFrom(t, open, TOP);
            var q := r.commas[k] + 1;
            Pieces(t', q', Moved(r.commas[k + 1..], q, q'), r.end - q + q') == Pieces(t, q, r.commas[k + 1..], r.end)
  {
    hide ScanFrom, Pieces, Moved;
    var r := ScanFrom(t, open, TOP);
    CommasInOrder(t, open, TOP);
    PiecesMove(t, r.commas[k] + 1, r.commas[k + 1..], r.end, t', q');
  }

  /** The same for text put together from what stands before, the new arguments and what stands behind. */
  lemma RescanInPlace(t: string, open: nat, replace: bool, pre: string, post: string)
    requires open <= |t| && Qualifies(t, open, replace)
    ensures var r := ScanFrom(t, open, TOP);
            var p, q := r.commas[1] + 1, ResumeComma(r, replace) + 1;
            && open <= p <= q <= r.end < |t| && |Arguments(t, open)| >= 3
            && (var spliced := t[open..p] + DEVICE + t[q..r.end + 1];
                && Arguments(pre + spliced + post, |pre|) == WithDevice(Arguments(t, open), replace)
                && ScanFrom(pre + spliced + post, |pre|, TOP).end == |pre| + |spliced| - 1
                && ScanFrom(pre + spliced + post, |pre|, TOP).exit == r.exit)
  {
    hide ScanFrom, Arguments, Copied, InOrder;
    ScanPositions(t, open);
    var r := ScanFrom(t, open, TOP);
    var p, q := r.commas[1] + 1, ResumeComma(r, replace) + 1;
    SpliceCopies(t, open, p, q, r.end + 1, pre, post);
    var t' := pre + (t[open..p] + DEVICE + t[q..r.end + 1]) + post;
    ArgumentsOfSplice(t, open, replace, t', |pre|, |pre| + (p - open));
    EndOfSplice(t, open, replace, t', |pre|, |pre| + (p - open));
  }

  lemma SpliceCopies(t: string, open: nat, p: nat, q: nat, e: nat, pre: string, post: string)
    requires open <= p <= q <= e <= |t|
    ensures var t' := pre + (t[open..p] + DEVICE + t[q..e]) + post;
            var p' := |pre| + (p - open);
            && Copied(t, open, p, t', |pre|)
            && p' + 8 <= |t'| && t'[p'..p' + 8] == DEVICE
            && Copied(t, q, e, t', p' + 8)
  {
    hide Copied;
    var a, b := t[open..p], t[q..e];
    var t' := pre + (a + DEVICE + b) + post;
    ThreeParts(pre, a, DEVICE, b, post);
    CopiedFromParts(t, open, p, t', |pre|);
    CopiedFromParts(t, q, e, t', |pre| + |a| + 8);
  }

  lemma ThreeParts(pre: string, a: string, d: string, b: string, post: string)
    ensures var t := pre + (a + d + b) + post;
            && t[|pre|..|pre| + |a|] == a
            && t[|pre| + |a|..|pre| + |a| + |d|] == d
            && t[|pre| + |a| + |d|..|pre| + |a| + |d| + |b|] == b
  {
  }

  lemma TwoCommas(t: string, from: nat, a: nat, b: nat, end: nat)
    requires from <= a < b < end <= |t|
    ensures Pieces(t, from, [a, b], end) == [t[from..a], t[a + 1..b], t[b + 1..end]]
  {
    PiecesCons(t, from, a, [b], end);
    PiecesCons(t, a + 1, b, [], end);
    OnePiece(t, b + 1, end);
    assert [a, b] == [a] + [b] && [b] == [b] + [];
    hide Pieces;
  }

  /** V<T,U>,b) */
  ghost predicate TemplateCall(t: string, i: nat) {
    && i + 9 <= |t| && t[i] == 'V' && t[i + 1] == '<' && t[i + 2] == 'T' && t[i + 3] == ',' && t[i + 4] == 'U'
    && t[i + 5] == '>' && t[i + 6] == ',' && t[i + 7] == 'b' && t[i + 8] == ')'
  }

  lemma TemplateScan(t: string, i: nat)
    requires TemplateCall(t, i)
    ensures ScanFrom(t, i, TOP) == Scan([i + 3, i + 6], i + 8, TOP)
  {
    ScanEnds(t, i + 8, TOP);
    hide ScanFrom, SkipTo;
    PlainStep(t, i + 7, TOP);
    CommaStep(t, i + 6);
    PlainStep(t, i + 5, TOP);
    PlainStep(t, i + 4, TOP);
    CommaStep(t, i + 3);
    PlainStep(t, i + 2, TOP);
    PlainStep(t, i + 1, TOP);
    PlainStep(t, i, TOP);
  }

  /** Angle brackets are not tracked: the comma of a template argument list separates arguments. */
  lemma TemplateCommaSeparates(t: string, i: nat)
    requires TemplateCall(t, i)
    ensures ScanFrom(t, i, TOP) == Scan([i + 3, i + 6], i + 8, TOP)
    ensures Arguments(t, i) == ["V<T", "U>", "b"]
  {
    hide ScanFrom, SkipTo, Pieces, IsPlain;
    TemplateScan(t, i);
    TwoCommas(t, i, i + 3, i + 6, i + 8);
    assert t[i..i + 3] == "V<T";
    assert t[i + 4..i + 6] == "U>";
    assert t[i + 7..i + 8] == "b";
  }
}
