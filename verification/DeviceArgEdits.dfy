/** What an edit of the text does to a scan: a stretch of quiet characters is replaced by another one. Both
    edits of the rewriter are of this kind, the new head of a call and the comma that becomes `, device,`. */
module DeviceArgEdits {
  import opened CallScanner
  import opened CppText
  import opened DeviceArg
  import opened DeviceArgRescan

  /** Characters at which a scan neither skips nor nests, and that mean nothing inside literals and comments,
      line breaks aside. */
  predicate IsQuiet(c: char) {
    (IsPlain(c) || c == ',') && c != '\\' && c != '*'
  }

  function CommasIn(t: string, lo: nat, hi: nat): seq<nat>
    requires lo <= hi <= |t|
  {
    if lo == hi then [] else CommasIn(t, lo, hi - 1) + if t[hi - 1] == ',' then [hi - 1] else []
  }

  /** The stretch [a, b) of t was replaced by the stretch [a, b') of t'. */
  ghost predicate Replaced(t: string, a: nat, b: nat, t': string, b': nat) {
    && a < b < |t| && a < b' < |t'| && |t| - b == |t'| - b'
    && Copied(t, 0, a, t', 0) && Copied(t, b, |t|, t', b')
    && (forall k | a <= k < b :: IsQuiet(t[k])) && (forall k | a <= k < b' :: IsQuiet(t'[k]))
    && t[a] != '\n' && t'[a] != '\n'
  }

  ghost predicate OneLine(t: string, a: nat, b: nat)
    requires a <= b <= |t|
  {
    forall k | a <= k < b :: t[k] != '\n'
  }

  // ----- literals and comments across the edit -----

  lemma {:induction false} QuoteEndSuffix(t: string, a: nat, b: nat, t': string, b': nat, i: nat, quote: char)
    requires Replaced(t, a, b, t', b') && i >= b
    ensures QuoteEnd(t', i - b + b', quote) == QuoteEnd(t, i, quote) - b + b'
    decreases |t| - i
  {
    if i < |t| {
      assert t[i] == t'[i - b + b'];
      if t[i] == '\\' {
        QuoteEndSuffix(t, a, b, t', b', i + 2, quote);
      } else if t[i] != quote {
        QuoteEndSuffix(t, a, b, t', b', i + 1, quote);
      }
    }
  }

  lemma {:induction false} QuoteEndQuiet(t: string, i: nat, j: nat, quote: char)
    requires i <= j <= |t| && (forall k | i <= k < j :: IsQuiet(t[k])) && (quote == '"' || quote == '\'')
    ensures QuoteEnd(t, i, quote) == QuoteEnd(t, j, quote)
    decreases j - i
  {
    if i < j {
      QuoteEndQuiet(t, i + 1, j, quote);
    }
  }

  lemma {:induction false} QuoteEndAcross(t: string, a: nat, b: nat, t': string, b': nat, i: nat, quote: char)
    requires Replaced(t, a, b, t', b') && i <= a + 1 && (quote == '"' || quote == '\'')
    ensures QuoteEnd(t', i, quote) == if QuoteEnd(t, i, quote) <= a then QuoteEnd(t, i, quote) else QuoteEnd(t, i, quote) - b + b'
    ensures QuoteEnd(t, i, quote) <= a || QuoteEnd(t, i, quote) > b
    decreases a + 1 - i
  {
    if i >= a {
      QuoteEndQuiet(t, i, b, quote);
      QuoteEndQuiet(t', i, b', quote);
      QuoteEndSuffix(t, a, b, t', b', b, quote);
    } else {
      assert t[i] == t'[i];
      if t[i] == '\\' {
        QuoteEndAcross(t, a, b, t', b', i + 2, quote);
      } else if t[i] != quote {
        QuoteEndAcross(t, a, b, t', b', i + 1, quote);
      }
    }
  }

  lemma {:induction false} LineEndSuffix(t: string, a: nat, b: nat, t': string, b': nat, i: nat)
    requires Replaced(t, a, b, t', b') && b <= i <= |t|
    ensures LineEnd(t', i - b + b') == LineEnd(t, i) - b + b'
    decreases |t| - i
  {
    if i < |t| {
      assert t[i] == t'[i - b + b'];
      if t[i] != '\n' {
        LineEndSuffix(t, a, b, t', b', i + 1);
      }
    }
  }

  lemma {:induction false} LineEndRun(t: string, i: nat, j: nat)
    requires i <= j <= |t| && OneLine(t, i, j)
    ensures LineEnd(t, i) == LineEnd(t, j)
    decreases j - i
  {
    if i < j {
      LineEndRun(t, i + 1, j);
    }
  }

  lemma {:induction false} LineEndAcross(t: string, a: nat, b: nat, t': string, b': nat, i: nat)
    requires Replaced(t, a, b, t', b') && i <= a && OneLine(t, a, b) && OneLine(t', a, b')
    ensures LineEnd(t', i) == if LineEnd(t, i) <= a then LineEnd(t, i) else LineEnd(t, i) - b + b'
    ensures LineEnd(t, i) < a || LineEnd(t, i) >= b
    decreases a - i
  {
    if i == a {
      LineEndRun(t, a, b);
      LineEndRun(t', a, b');
      LineEndSuffix(t, a, b, t', b', b);
    } else {
      assert t[i] == t'[i];
      if t[i] != '\n' {
        LineEndAcross(t, a, b, t', b', i + 1);
      }
    }
  }

  lemma {:induction false} LineEndBefore(t: string, a: nat, b: nat, t': string, b': nat, i: nat)
    requires Replaced(t, a, b, t', b') && i <= a && LineEnd(t, i) <= a
    ensures LineEnd(t', i) == LineEnd(t, i) < a
    decreases a - i
  {
    if i < a {
      assert t[i] == t'[i];
      if t[i] != '\n' {
        LineEndBefore(t, a, b, t', b', i + 1);
      }
    }
  }

  lemma {:induction false} BlockEndSuffix(t: string, a: nat, b: nat, t': string, b': nat, i: nat)
    requires Replaced(t, a, b, t', b') && b <= i
    ensures BlockEnd(t', i - b + b') == BlockEnd(t, i) - b + b'
    decreases |t| - i
  {
    if i + 1 < |t| {
      assert t[i] == t'[i - b + b'] && t[i + 1] == t'[i + 1 - b + b'];
      if !(t[i] == '*' && t[i + 1] == '/') {
        BlockEndSuffix(t, a, b, t', b', i + 1);
      }
    }
  }

  lemma {:induction false} BlockEndQuiet(t: string, i: nat, j: nat)
    requires i <= j < |t| && forall k | i <= k < j :: IsQuiet(t[k])
    ensures BlockEnd(t, i) == BlockEnd(t, j)
    decreases j - i
  {
    if i < j {
      BlockEndQuiet(t, i + 1, j);
    }
  }

  lemma {:induction false} BlockEndAcross(t: string, a: nat, b: nat, t': string, b': nat, i: nat)
    requires Replaced(t, a, b, t', b') && i <= a + 1
    ensures BlockEnd(t', i) == if BlockEnd(t, i) <= a then BlockEnd(t, i) else BlockEnd(t, i) - b + b'
    ensures BlockEnd(t, i) <= a || BlockEnd(t, i) > b
    decreases a + 1 - i
  {
    if i >= a {
      BlockEndQuiet(t, i, b);
      BlockEndQuiet(t', i, b');
      BlockEndSuffix(t, a, b, t', b', b);
    } else {
      assert t[i] == t'[i];
      if i + 1 == a {
        assert IsQuiet(t[a]) && IsQuiet(t'[a]);
      } else {
        assert t[i + 1] == t'[i + 1];
      }
      if !(t[i] == '*' && t[i + 1] == '/') {
        BlockEndAcross(t, a, b, t', b', i + 1);
      }
    }
  }

  /** A literal or comment that ends before the edit ends at the same place, one that goes across it at the
      moved place. The edit may hold line breaks if the walk comes to it outside comments. */
  lemma SkipAcross(t: string, a: nat, b: nat, t': string, b': nat, i: nat)
    requires Replaced(t, a, b, t', b') && i < a
    requires (OneLine(t, a, b) && OneLine(t', a, b')) || SkipTo(t, i) <= a
    ensures SkipTo(t', i) == if SkipTo(t, i) <= a then SkipTo(t, i) else SkipTo(t, i) - b + b'
    ensures SkipTo(t, i) <= a || SkipTo(t, i) >= b
  {
    assert t[i] == t'[i];
    assert IsQuiet(t[a]) && IsQuiet(t'[a]);
    if i + 1 < a {
      assert t[i + 1] == t'[i + 1];
    }
    if t[i] == '"' || t[i] == '\'' {
      QuoteEndAcross(t, a, b, t', b', i + 1, t[i]);
    } else if SlashThen(t, i, '/') {
      if LineEnd(t, i) <= a {
        LineEndBefore(t, a, b, t', b', i);
      } else {
        LineEndAcross(t, a, b, t', b', i);
      }
    } else if SlashThen(t, i, '*') {
      assert i + 1 < a;
      BlockEndAcross(t, a, b, t', b', i + 2);
    }
  }

  // ----- scans across the edit -----

  lemma QuietStep(t: string, i: nat, d: Depth)
    requires i < |t| && IsQuiet(t[i])
    ensures SkipTo(t, i) == i && Move(d, t[i]) == d && t[i] != ')'
  {
  }

  lemma CommasInFirst(t: string, lo: nat, hi: nat)
    requires lo < hi <= |t|
    ensures CommasIn(t, lo, hi) == (if t[lo] == ',' then [lo] else []) + CommasIn(t, lo + 1, hi)
    decreases hi
  {
    if lo + 1 < hi {
      CommasInFirst(t, lo, hi - 1);
    }
  }

  /** Reached as code, a quiet stretch adds its commas if it stands at the top level. */
  lemma {:induction false} ScanQuiet(t: string, i: nat, j: nat, d: Depth)
    requires i <= j <= |t| && forall k | i <= k < j :: IsQuiet(t[k])
    ensures ScanFrom(t, i, d)
            == if d == TOP then Then(CommasIn(t, i, j), ScanFrom(t, j, d)) else ScanFrom(t, j, d)
    decreases j - i
  {
    hide IsQuiet, ScanFrom, SkipTo, Move, CommasIn;
    if i == j {
      NoCommas(t, i);
      assert [] + ScanFrom(t, j, d).commas == ScanFrom(t, j, d).commas;
    } else {
      QuietStep(t, i, d);
      ScanStep(t, i, d);
      ScanQuiet(t, i + 1, j, d);
      CommasInFirst(t, i, j);
      var rest := ScanFrom(t, j, d).commas;
      assert [i] + (CommasIn(t, i + 1, j) + rest) == ([i] + CommasIn(t, i + 1, j)) + rest;
      assert [] + CommasIn(t, i + 1, j) == CommasIn(t, i + 1, j);
    }
  }

  lemma NoCommas(t: string, i: nat)
    requires i <= |t|
    ensures CommasIn(t, i, i) == []
  {
  }

  /** The commas of a scan before the edit, in it (if it stands at the top level) and behind it, for the text
      before and after the edit. */
  ghost predicate Splits(r: Scan, t: string, a: nat, b: nat, r': Scan, t': string, b': nat,
                         low: seq<nat>, top: bool, high: seq<nat>) {
    && a <= b <= |t| && a <= b' <= |t'|
    && r.commas == low + (if top then CommasIn(t, a, b) else []) + high
    && r'.commas == low + (if top then CommasIn(t', a, b') else []) + Moved(high, b, b')
    && (forall n | 0 <= n < |low| :: low[n] < a) && (forall n | 0 <= n < |high| :: high[n] >= b)
    && r.end >= b && r'.end == r.end - b + b' && r'.exit == r.exit
  }

  lemma SplitsBehind(t: string, a: nat, b: nat, t': string, b': nat, k: nat, d: Depth)
    requires Replaced(t, a, b, t', b') && k >= b && ScanFrom(t, k, d).end >= 0
    ensures k - b + b' >= 0
    ensures var r, r' := ScanFrom(t, k, d), ScanFrom(t', k - b + b', d);
            Splits(r, t, a, b, r', t', b', [], false, r.commas)
  {
    hide ScanFrom, IsQuiet, Moved;
    var r := ScanFrom(t, k, d);
    CommasInOrder(t, k, d);
    ReplayToEnd(t, k, d, t', k - b + b');
    MovedSame(r.commas, b, b', k, k - b + b');
    assert [] + [] + r.commas == r.commas;
    assert [] + [] + Moved(r.commas, b, b') == Moved(r.commas, b, b');
  }

  lemma SplitsHere(t: string, a: nat, b: nat, t': string, b': nat, d: Depth)
    requires Replaced(t, a, b, t', b') && ScanFrom(t, a, d).end >= 0
    ensures Splits(ScanFrom(t, a, d), t, a, b, ScanFrom(t', a, d), t', b', [], d == TOP, ScanFrom(t, b, d).commas)
  {
    hide ScanFrom, IsQuiet, Moved, CommasIn;
    ScanQuiet(t, a, b, d);
    ScanQuiet(t', a, b', d);
    SplitsBehind(t, a, b, t', b', b, d);
    assert forall s: seq<nat> :: [] + s == s;
  }

  /** One more comma in front. */
  lemma SplitsMore(r: Scan, t: string, a: nat, b: nat, r': Scan, t': string, b': nat,
                   low: seq<nat>, top: bool, high: seq<nat>, i: nat)
    requires Splits(r, t, a, b, r', t', b', low, top, high) && i < a
    ensures Splits(Then([i], r), t, a, b, Then([i], r'), t', b', [i] + low, top, high)
  {
    hide CommasIn, Moved;
    var mid, mid' := if top then CommasIn(t, a, b) else [], if top then CommasIn(t', a, b') else [];
    assert [i] + (low + mid + high) == ([i] + low) + mid + high;
    assert [i] + (low + mid' + Moved(high, b, b')) == ([i] + low) + mid' + Moved(high, b, b');
  }

  /** A scan that starts before the edit and ends behind it. */
  lemma {:induction false} ScanAcross(t: string, a: nat, b: nat, t': string, b': nat, i: nat, d: Depth)
    returns (low: seq<nat>, top: bool, high: seq<nat>)
    requires Replaced(t, a, b, t', b') && i <= a && ScanFrom(t, i, d).end > a
    requires (OneLine(t, a, b) && OneLine(t', a, b')) || Reaches(t, i, a)
    ensures Splits(ScanFrom(t, i, d), t, a, b, ScanFrom(t', i, d), t', b', low, top, high)
    decreases a - i
  {
    hide ScanFrom, SkipTo, Move, IsQuiet, CommasIn, Moved, Splits, Reaches;
    if i == a {
      SplitsHere(t, a, b, t', b', d);
      return [], d == TOP, ScanFrom(t, b, d).commas;
    }
    ReachesNext(t, i, a);
    SkipAcross(t, a, b, t', b', i);
    var k := SkipTo(t, i);
    assert t[i] == t'[i];
    if k > i {
      ScanSkips(t, i, d);
      if k <= a {
        ScanSkips(t', i, d);
        low, top, high := ScanAcross(t, a, b, t', b', k, d);
      } else {
        ScanSkips(t', i, d);
        SplitsBehind(t, a, b, t', b', k, d);
        return [], false, ScanFrom(t, k, d).commas;
      }
    } else {
      NotEndingYet(t, i, d);
      ScanStep(t, i, d);
      ScanStep(t', i, d);
      low, top, high := ScanAcross(t, a, b, t', b', i + 1, Move(d, t[i]));
      if t[i] == ',' && d == TOP {
        SplitsMore(ScanFrom(t, i + 1, Move(d, t[i])), t, a, b, ScanFrom(t', i + 1, Move(d, t[i])), t', b', low, top, high, i);
        low := [i] + low;
      }
    }
  }

  lemma ReachesNext(t: string, i: nat, j: nat)
    requires i < j <= |t|
    ensures Reaches(t, i, j) ==> SkipTo(t, i) <= j && Reaches(t, if SkipTo(t, i) > i then SkipTo(t, i) else i + 1, j)
  {
    hide SkipTo;
    if Reaches(t, i, j) {
      ReachesForward(t, if SkipTo(t, i) > i then SkipTo(t, i) else i + 1, j);
    }
  }

  lemma ReachesForward(t: string, i: nat, j: nat)
    requires Reaches(t, i, j)
    ensures i <= j
  {
    hide SkipTo;
  }

  lemma NotEndingYet(t: string, i: nat, d: Depth)
    requires i < |t| && SkipTo(t, i) == i && ScanFrom(t, i, d).end > i
    ensures !(t[i] == ')' && d.paren == 1)
    ensures ScanFrom(t, i + 1, Move(d, t[i])).end == ScanFrom(t, i, d).end
  {
  }

  // ----- a call somewhere in the text -----

  /** The call that opens at p has ` device` at index 2. */
  ghost predicate DeviceThird(t: string, p: nat) {
    var r := ScanFrom(t, p, TOP);
    && r.end >= 0 && |r.commas| >= 3 && r.commas[2] == r.commas[1] + 8 && r.commas[2] < |t|
    && t[r.commas[1] + 1..r.commas[2] + 1] == DEVICE
  }

  lemma DeviceThirdArgument(t: string, p: nat)
    requires DeviceThird(t, p)
    ensures |Arguments(t, p)| >= 4 && Arguments(t, p)[2] == " device"
  {
    hide ScanFrom;
    var r := ScanFrom(t, p, TOP);
    PiecesCount(t, p, r.commas, r.end);
    assert r.commas == r.commas[..2] + [r.commas[2]] + r.commas[3..];
    PiecesSplit(t, p, r.commas[..2], r.commas[2], r.commas[3..], r.end);
    assert r.commas[..2] == [r.commas[0]] + [r.commas[1]] + [];
    PiecesSplit(t, p, [r.commas[0]], r.commas[1], [], r.commas[2]);
    PiecesCount(t, p, [r.commas[0]], r.commas[1]);
    OnePiece(t, r.commas[1] + 1, r.commas[2]);
    assert t[r.commas[1] + 1..r.commas[2]] == t[r.commas[1] + 1..r.commas[2] + 1][..7] == " device";
  }

  /** Where the call that opens at p opens after the edit. */
  function Shifted(p: nat, a: nat, b: nat, b': nat): nat
    requires a <= b
  {
    if p < b then p else p - b + b'
  }

  lemma DeviceCopied(t: string, lo: nat, hi: nat, t': string, lo': nat, c: nat)
    requires Copied(t, lo, hi, t', lo') && lo <= c && c + 9 <= hi && t[c + 1..c + 9] == DEVICE
    ensures var c' := c - lo + lo'; t'[c' + 1..c' + 9] == DEVICE
  {
    var c' := c - lo + lo';
    forall k | 0 <= k < 8 ensures t'[c' + 1 + k] == DEVICE[k] {
      assert t[c + 1..c + 9][k] == t[c + 1 + k];
    }
  }

  /** The call's separating commas do not stand on both sides of the edit within the third argument. */
  ghost predicate Clear(t: string, p: nat, a: nat, b: nat) {
    var c := ScanFrom(t, p, TOP).commas;
    |c| >= 3 ==> c[2] < a || c[1] >= b
  }

  lemma PrefixCopied(t: string, a: nat, b: nat, t': string, b': nat)
    requires Replaced(t, a, b, t', b')
    ensures Copied(t, 0, a, t', 0)
  {
  }

  /** The second and third comma, both before or both behind the edit. */
  lemma ThirdIndex(low: seq<nat>, high: seq<nat>, a: nat, b: nat, b': nat)
    requires (forall n | 0 <= n < |low| :: low[n] < a) && (forall n | 0 <= n < |high| :: high[n] >= b) && a < b
    requires |low| + |high| >= 3 && ((low + high)[2] < a || (low + high)[1] >= b)
    ensures var c, c' := low + high, low + Moved(high, b, b');
            && |c'| == |c|
            && (c[2] < a ==> c'[1] == c[1] && c'[2] == c[2])
            && (c[2] >= a ==> c[1] >= b && c[2] >= b && c'[1] == c[1] - b + b' && c'[2] == c[2] - b + b')
  {
    var c := low + high;
    if c[2] < a {
      assert |low| > 2;
    } else {
      assert |low| <= 1;
    }
  }

  lemma DeviceThirdKept(t: string, a: nat, b: nat, t': string, b': nat, p: nat, p': nat,
                        low: seq<nat>, top: bool, high: seq<nat>)
    requires Replaced(t, a, b, t', b') && DeviceThird(t, p) && Clear(t, p, a, b)
    requires Splits(ScanFrom(t, p, TOP), t, a, b, ScanFrom(t', p', TOP), t', b', low, top, high)
    requires top ==> CommasIn(t, a, b) == [] && CommasIn(t', a, b') == []
    ensures DeviceThird(t', p')
  {
    hide ScanFrom, SkipTo, IsQuiet, CommasIn, Copied, Moved, Replaced, Splits;
    var c, c' := ScanFrom(t, p, TOP).commas, ScanFrom(t', p', TOP).commas;
    PrefixCopied(t, a, b, t', b');
    SuffixCopied(t, a, b, t', b');
    SplitsWithoutCommas(ScanFrom(t, p, TOP), t, a, b, ScanFrom(t', p', TOP), t', b', low, top, high);
    ThirdIndex(low, high, a, b, b');
    CommasInOrder(t, p, TOP);
    if c[2] < a {
      DeviceCopied(t, 0, a, t', 0, c[1]);
    } else {
      DeviceCopied(t, b, |t|, t', b', c[1]);
    }
  }

  lemma SplitsWithoutCommas(r: Scan, t: string, a: nat, b: nat, r': Scan, t': string, b': nat,
                            low: seq<nat>, top: bool, high: seq<nat>)
    requires Splits(r, t, a, b, r', t', b', low, top, high)
    requires top ==> CommasIn(t, a, b) == [] && CommasIn(t', a, b') == []
    ensures r.commas == low + high && r'.commas == low + Moved(high, b, b') && r'.end >= 0
    ensures (forall n | 0 <= n < |low| :: low[n] < a) && (forall n | 0 <= n < |high| :: high[n] >= b)
  {
    hide CommasIn, Moved;
  }

  lemma SuffixCopied(t: string, a: nat, b: nat, t': string, b': nat)
    requires Replaced(t, a, b, t', b')
    ensures a < b < |t| && Copied(t, b, |t|, t', b')
  {
  }

  /** The count after an edit: the commas of the stretch count if it is reached at the top level. */
  lemma EditCounts(t: string, a: nat, b: nat, t': string, b': nat, p: nat) returns (top: bool)
    requires Replaced(t, a, b, t', b') && ScanFrom(t, p, TOP).end >= 0 && (p <= a || p >= b)
    requires (OneLine(t, a, b) && OneLine(t', a, b')) || Reaches(t, p, a) || p >= b || ScanFrom(t, p, TOP).end < a
    ensures var r, r' := ScanFrom(t, p, TOP), ScanFrom(t', Shifted(p, a, b, b'), TOP);
            && r'.end == (if p < b && r.end < a then r.end else r.end - b + b') >= 0
            && |r'.commas| == |r.commas| + (if top then |CommasIn(t', a, b')| - |CommasIn(t, a, b)| else 0)
    ensures forall k | a <= k < b && t[k] == ',' :: top <==> k in ScanFrom(t, p, TOP).commas
    ensures DeviceThird(t, p) && Clear(t, p, a, b) && (top ==> CommasIn(t, a, b) == [] && CommasIn(t', a, b') == [])
            ==> DeviceThird(t', Shifted(p, a, b, b'))
  {
    hide ScanFrom, IsQuiet, CommasIn, Moved, DeviceThird, Clear, Reaches;
    var r := ScanFrom(t, p, TOP);
    CommasInOrder(t, p, TOP);
    if p < b && r.end < a {
      ReplayToEnd(t, p, TOP, t', p);
      MovedNowhere(r.commas, p);
      top := false;
      if DeviceThird(t, p) {
        DeviceThirdBefore(t, a, t', p);
      }
    } else {
      var low, high;
      if p >= b {
        SplitsBehind(t, a, b, t', b', p, TOP);
        low, top, high := [], false, r.commas;
      } else {
        QuietIsOpen(t, a, b, p);
        low, top, high := ScanAcross(t, a, b, t', b', p, TOP);
      }
      CommasInStretch(t, a, b);
      MovedSize(high, b, b');
      if DeviceThird(t, p) && Clear(t, p, a, b) && (top ==> CommasIn(t, a, b) == [] && CommasIn(t', a, b') == []) {
        DeviceThirdKept(t, a, b, t', b', p, Shifted(p, a, b, b'), low, top, high);
      }
    }
  }

  lemma MovedSize(c: seq<nat>, i: nat, i': nat)
    ensures |Moved(c, i, i')| == |c|
  {
  }

  lemma MovedNowhere(c: seq<nat>, p: nat)
    ensures Moved(c, p, p) == c
  {
  }

  lemma DeviceThirdBefore(t: string, a: nat, t': string, p: nat)
    requires Copied(t, 0, a, t', 0) && DeviceThird(t, p) && ScanFrom(t, p, TOP).end < a
    requires ScanFrom(t', p, TOP) == ScanFrom(t, p, TOP)
    ensures DeviceThird(t', p)
  {
    hide ScanFrom;
    CommasInOrder(t, p, TOP);
    DeviceCopied(t, 0, a, t', 0, ScanFrom(t, p, TOP).commas[1]);
  }

  /** A scan does not end inside a quiet stretch. */
  lemma QuietIsOpen(t: string, a: nat, b: nat, p: nat)
    requires p <= a < b <= |t| && ScanFrom(t, p, TOP).end >= a && IsQuiet(t[a])
    ensures ScanFrom(t, p, TOP).end > a
  {
  }

  lemma {:induction false} CommasInStretch(t: string, a: nat, b: nat)
    requires a <= b <= |t|
    ensures forall k :: k in CommasIn(t, a, b) <==> a <= k < b && t[k] == ','
  {
    if a < b {
      CommasInStretch(t, a, b - 1);
    }
  }

  // ----- the two edits of the rewriter -----

  /** The comma at q became `, device,`. */
  lemma DeviceInserted(t: string, q: nat, p: nat)
    requires q + 1 < |t| && t[q] == ',' && ScanFrom(t, p, TOP).end >= 0
    ensures var t' := t[..q + 1] + DEVICE + t[q + 1..];
            var p' := if p <= q then p else p + 8;
            var c, c' := ScanFrom(t, p, TOP).commas, ScanFrom(t', p', TOP).commas;
            && ScanFrom(t', p', TOP).end == (if p <= q && ScanFrom(t, p, TOP).end < q then ScanFrom(t, p, TOP).end
                                             else ScanFrom(t, p, TOP).end + 8)
            && |c'| == |c| + (if q in c then 1 else 0)
            && (DeviceThird(t, p) && q !in c ==> DeviceThird(t', p'))
  {
    hide ScanFrom, DeviceThird, CommasIn, Shifted;
    var t' := t[..q + 1] + DEVICE + t[q + 1..];
    InsertedIsReplaced(t, q);
    var top := EditCounts(t, q, q + 1, t', q + 9, p);
    OneCommaInserted(t, q);
    ShiftedByDevice(p, q);
    if DeviceThird(t, p) && q !in ScanFrom(t, p, TOP).commas {
      ClearOfComma(t, p, q);
    }
  }

  lemma ShiftedByDevice(p: nat, q: nat)
    ensures Shifted(p, q, q + 1, q + 9) == if p <= q then p else p + 8
  {
  }

  lemma InsertedIsReplaced(t: string, q: nat)
    requires q + 1 < |t| && t[q] == ','
    ensures var t' := t[..q + 1] + DEVICE + t[q + 1..];
            Replaced(t, q, q + 1, t', q + 9) && OneLine(t, q, q + 1) && OneLine(t', q, q + 9)
            && t'[q + 1..q + 9] == DEVICE && t'[q] == ','
  {
    var t' := t[..q + 1] + DEVICE + t[q + 1..];
    assert t'[q + 1..q + 9] == DEVICE;
    DeviceIsPlain(t', q + 1);
    forall k | q <= k < q + 9 ensures IsQuiet(t'[k]) && t'[k] != '\n' {
      if k > q {
        assert t'[k] == DEVICE[k - q - 1];
      }
    }
    assert forall k | q + 1 <= k < |t| :: t[k] == t'[k - (q + 1) + (q + 9)];
  }

  lemma OneCommaInserted(t: string, q: nat)
    requires q + 1 < |t| && t[q] == ','
    ensures var t' := t[..q + 1] + DEVICE + t[q + 1..];
            |CommasIn(t, q, q + 1)| == 1 && |CommasIn(t', q, q + 9)| == 2
  {
    var t' := t[..q + 1] + DEVICE + t[q + 1..];
    InsertedIsReplaced(t, q);
    DeviceIsPlain(t', q + 1);
    assert CommasIn(t, q, q) == [];
    CommasInFirst(t', q, q + 9);
    CommasInPlain(t', q + 1, q + 8);
    hide IsPlain;
  }

  lemma {:induction false} CommasInPlain(t: string, lo: nat, hi: nat)
    requires lo <= hi <= |t| && forall k | lo <= k < hi :: IsPlain(t[k])
    ensures CommasIn(t, lo, hi) == []
  {
    if lo < hi {
      CommasInPlain(t, lo, hi - 1);
    }
  }

  lemma DeviceChars(t: string, i: nat)
    requires i + 8 <= |t| && t[i..i + 8] == DEVICE
    ensures forall k | i <= k < i + 7 :: t[k] != ',' && t[k] != '('
    ensures t[i + 7] == ','
  {
    DeviceIsPlain(t, i);
  }

  lemma ClearOfComma(t: string, p: nat, q: nat)
    requires DeviceThird(t, p) && q < |t| && t[q] == ',' && q !in ScanFrom(t, p, TOP).commas
    ensures Clear(t, p, q, q + 1)
  {
    hide ScanFrom;
    DeviceChars(t, ScanFrom(t, p, TOP).commas[1] + 1);
  }

  /** The head of a call, from a to its parenthesis at b, was replaced. */
  lemma HeadReplaced(t: string, a: nat, b: nat, t': string, b': nat, p: nat)
    requires Replaced(t, a, b, t', b') && ScanFrom(t, p, TOP).end >= 0 && (p <= a || p >= b) && t[b] == '('
    requires (forall k | a <= k < b :: t[k] != ',') && (forall k | a <= k < b' :: t'[k] != ',')
    requires (OneLine(t, a, b) && OneLine(t', a, b')) || Reaches(t, p, a) || p >= b || ScanFrom(t, p, TOP).end < a
    ensures var p' := if p < b then p else p - b + b';
            var c, c' := ScanFrom(t, p, TOP).commas, ScanFrom(t', p', TOP).commas;
            && ScanFrom(t', p', TOP).end >= 0 && |c'| == |c|
            && (DeviceThird(t, p) ==> DeviceThird(t', p'))
  {
    hide ScanFrom, DeviceThird, CommasIn, IsQuiet, Reaches;
    NoCommasIn(t, a, b);
    NoCommasIn(t', a, b');
    var top := EditCounts(t, a, b, t', b', p);
    if DeviceThird(t, p) {
      ClearOfHead(t, a, b, p);
    }
  }

  lemma {:induction false} NoCommasIn(t: string, lo: nat, hi: nat)
    requires lo <= hi <= |t| && forall k | lo <= k < hi :: t[k] != ','
    ensures CommasIn(t, lo, hi) == []
  {
    if lo < hi {
      NoCommasIn(t, lo, hi - 1);
    }
  }

  lemma ClearOfHead(t: string, a: nat, b: nat, p: nat)
    requires DeviceThird(t, p) && a < b < |t| && t[b] == '(' && forall k | a <= k < b :: t[k] != ','
    ensures Clear(t, p, a, b)
  {
    hide ScanFrom;
    CommasInOrder(t, p, TOP);
    DeviceChars(t, ScanFrom(t, p, TOP).commas[1] + 1);
    assert t[ScanFrom(t, p, TOP).commas[2]] == ',';
  }
}
