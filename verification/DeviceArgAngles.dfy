/** The scan the rewriter's documentation describes, which also tracks angle brackets, and when the scan it
    really makes finds the same arguments. */
module DeviceArgAngles {
  import opened CallScanner
  import opened DeviceArg
  import opened DeviceArgRescan

  /** The angle depth behind a character reached as code: `<` opens, `>` closes what is open, but not as part
      of an arrow. */
  function MoveAngle(t: string, i: nat, a: nat): nat
    requires i < |t|
  {
    if t[i] == '<' then a + 1
    else if t[i] == '>' && a > 0 && !(i > 0 && t[i - 1] == '-') then a - 1
    else a
  }

  /** The documented scan: a comma separates if all four depths are at the top. */
  function AngleScan(t: string, i: nat, d: Depth, a: nat): Scan
    decreases |t| - i
  {
    if i >= |t| then Scan([], -1, d)
    else if SkipTo(t, i) > i then AngleScan(t, SkipTo(t, i), d, a)
    else if t[i] == ')' && d.paren == 1 then Scan([], i, d)
    else
      var r := AngleScan(t, i + 1, Move(d, t[i]), MoveAngle(t, i, a));
      if t[i] == ',' && d == TOP && a == 0 then Then([i], r) else r
  }

  /** The arguments as documented. */
  function AngleArguments(t: string, open: nat): seq<string> {
    var r := AngleScan(t, open, TOP, 0);
    if r.end < 0 then [] else Pieces(t, open, r.commas, r.end)
  }

  /** The angle depth at position j, for a walk that starts at i with depth a. */
  function AngleAt(t: string, i: nat, a: nat, j: nat): nat
    decreases |t| - i
  {
    if i >= j || i >= |t| then a
    else if SkipTo(t, i) > i then AngleAt(t, SkipTo(t, i), a, j)
    else AngleAt(t, i + 1, MoveAngle(t, i, a), j)
  }

  /** The commas that stand in no angle bracket. */
  function Outside(t: string, i: nat, a: nat, commas: seq<nat>): (r: seq<nat>)
    ensures |r| <= |commas|
  {
    if commas == [] then []
    else (if AngleAt(t, i, a, commas[0]) == 0 then [commas[0]] else []) + Outside(t, i, a, commas[1..])
  }

  lemma {:induction false} OutsideNext(t: string, i: nat, a: nat, commas: seq<nat>)
    requires i < |t| && SkipTo(t, i) == i && forall n | 0 <= n < |commas| :: commas[n] > i
    ensures Outside(t, i, a, commas) == Outside(t, i + 1, MoveAngle(t, i, a), commas)
    decreases |commas|
  {
    hide SkipTo, MoveAngle;
    if commas != [] {
      OutsideNext(t, i, a, commas[1..]);
    }
  }

  lemma {:induction false} OutsideSkip(t: string, i: nat, a: nat, commas: seq<nat>)
    requires i < |t| && SkipTo(t, i) > i && forall n | 0 <= n < |commas| :: commas[n] >= SkipTo(t, i)
    ensures Outside(t, i, a, commas) == Outside(t, SkipTo(t, i), a, commas)
    decreases |commas|
  {
    hide SkipTo, MoveAngle;
    if commas != [] {
      OutsideSkip(t, i, a, commas[1..]);
    }
  }

  lemma OutsideFirst(t: string, i: nat, a: nat, rest: seq<nat>)
    ensures Outside(t, i, a, [i] + rest) == (if a == 0 then [i] else []) + Outside(t, i, a, rest)
  {
    assert ([i] + rest)[1..] == rest;
  }

  /** The documented scan ends where the real one does and finds those of its commas that stand in no angle
      bracket. */
  lemma {:induction false} AngleScanIsOutside(t: string, i: nat, d: Depth, a: nat)
    ensures var r := ScanFrom(t, i, d); AngleScan(t, i, d, a) == Scan(Outside(t, i, a, r.commas), r.end, r.exit)
    decreases |t| - i
  {
    hide SkipTo, Move, MoveAngle, Outside;
    if i >= |t| {
      OutsideNone(t, i, a);
    } else if SkipTo(t, i) > i {
      var k := SkipTo(t, i);
      CommasInOrder(t, k, d);
      AngleScanIsOutside(t, k, d, a);
      OutsideSkip(t, i, a, ScanFrom(t, k, d).commas);
    } else if t[i] == ')' && d.paren == 1 {
      OutsideNone(t, i, a);
    } else {
      var rest := ScanFrom(t, i + 1, Move(d, t[i])).commas;
      CommasInOrder(t, i + 1, Move(d, t[i]));
      AngleScanIsOutside(t, i + 1, Move(d, t[i]), MoveAngle(t, i, a));
      OutsideNext(t, i, a, rest);
      OutsideFirst(t, i, a, rest);
      assert [] + Outside(t, i, a, rest) == Outside(t, i, a, rest);
    }
  }

  lemma OutsideNone(t: string, i: nat, a: nat)
    ensures Outside(t, i, a, []) == []
  {
  }

  /** No separating comma of the call stands in an angle bracket. */
  ghost predicate NoneInAngles(t: string, open: nat, commas: seq<nat>) {
    forall c <- commas :: AngleAt(t, open, 0, c) == 0
  }

  lemma {:induction false} OutsideKeepsAll(t: string, open: nat, commas: seq<nat>)
    ensures |Outside(t, open, 0, commas)| == |commas| <==> NoneInAngles(t, open, commas)
    ensures NoneInAngles(t, open, commas) ==> Outside(t, open, 0, commas) == commas
    decreases |commas|
  {
    hide AngleAt;
    if commas != [] {
      var rest := commas[1..];
      OutsideKeepsAll(t, open, rest);
      assert commas == [commas[0]] + rest;
      assert NoneInAngles(t, open, commas) <==> AngleAt(t, open, 0, commas[0]) == 0 && NoneInAngles(t, open, rest);
    }
  }

  /** The scan finds the documented arguments exactly if no comma it records stands in an angle bracket. */
  lemma ArgumentsAreDocumented(t: string, open: nat)
    ensures Arguments(t, open) == AngleArguments(t, open)
            <==> ScanFrom(t, open, TOP).end < 0 || NoneInAngles(t, open, ScanFrom(t, open, TOP).commas)
  {
    hide ScanFrom, AngleScan, Pieces, Outside, NoneInAngles;
    var r := ScanFrom(t, open, TOP);
    AngleScanIsOutside(t, open, TOP, 0);
    OutsideKeepsAll(t, open, r.commas);
    PiecesCount(t, open, r.commas, r.end);
    PiecesCount(t, open, Outside(t, open, 0, r.commas), r.end);
  }

  lemma {:induction false} OutsideIsPart(t: string, open: nat, commas: seq<nat>)
    ensures forall c <- Outside(t, open, 0, commas) :: c in commas
    decreases |commas|
  {
    hide AngleAt;
    if commas != [] {
      OutsideIsPart(t, open, commas[1..]);
    }
  }

  ghost predicate Increasing(s: seq<nat>) { forall i, j | 0 <= i < j < |s| :: s[i] < s[j] }

  ghost predicate SameStart(a: seq<nat>, b: seq<nat>, n: nat) {
    n <= |a| && n <= |b| && a[..n] == b[..n]
  }

  lemma {:induction false} OutsidePrefix(t: string, open: nat, commas: seq<nat>, n: nat)
    requires n <= |commas| && Increasing(commas)
    ensures SameStart(Outside(t, open, 0, commas), commas, n) <==> NoneInAngles(t, open, commas[..n])
    decreases |commas|
  {
    hide AngleAt, NoneInAngles, SameStart;
    if n == 0 {
      NothingInAngles(t, open, Outside(t, open, 0, commas), commas);
    } else {
      var c, rest := commas[0], commas[1..];
      var out := Outside(t, open, 0, rest);
      OutsidePrefix(t, open, rest, n - 1);
      assert commas == [c] + rest;
      OutsideUnfolds(t, open, c, rest);
      if AngleAt(t, open, 0, c) == 0 {
        FirstKept(t, open, c, rest, out, n);
      } else {
        OutsideIsPart(t, open, rest);
        FirstDropped(t, open, commas, out, n);
      }
    }
  }

  lemma OutsideUnfolds(t: string, open: nat, c: nat, rest: seq<nat>)
    ensures Outside(t, open, 0, [c] + rest)
            == if AngleAt(t, open, 0, c) == 0 then [c] + Outside(t, open, 0, rest) else Outside(t, open, 0, rest)
  {
    assert ([c] + rest)[1..] == rest;
    assert [] + Outside(t, open, 0, rest) == Outside(t, open, 0, rest);
  }

  lemma NothingInAngles(t: string, open: nat, out: seq<nat>, commas: seq<nat>)
    ensures SameStart(out, commas, 0) && NoneInAngles(t, open, commas[..0])
  {
  }

  lemma FirstKept(t: string, open: nat, c: nat, rest: seq<nat>, out: seq<nat>, n: nat)
    requires 0 < n <= |rest| + 1 && AngleAt(t, open, 0, c) == 0
    ensures SameStart([c] + out, [c] + rest, n) <==> SameStart(out, rest, n - 1)
    ensures NoneInAngles(t, open, ([c] + rest)[..n]) <==> NoneInAngles(t, open, rest[..n - 1])
  {
    hide AngleAt;
    if n - 1 <= |out| {
      assert ([c] + out)[..n] == [c] + out[..n - 1];
      assert ([c] + out)[..n][1..] == out[..n - 1] && ([c] + rest)[..n][1..] == rest[..n - 1];
    }
    assert ([c] + rest)[..n] == [c] + rest[..n - 1];
  }

  /** A list without the first element of an increasing one does not start with it. */
  lemma FirstDropped(t: string, open: nat, commas: seq<nat>, out: seq<nat>, n: nat)
    requires 0 < n <= |commas| && Increasing(commas) && AngleAt(t, open, 0, commas[0]) != 0
    requires forall c <- out :: c in commas[1..]
    ensures !SameStart(out, commas, n) && !NoneInAngles(t, open, commas[..n])
  {
    hide AngleAt;
    assert commas[..n][0] == commas[0] && commas[0] in commas[..n];
    if n <= |out| {
      assert out[0] in out;
      var k :| 0 <= k < |commas| - 1 && commas[1..][k] == out[0];
      assert commas[0] < commas[k + 1] == out[0];
      assert out[..n][0] == out[0];
    }
  }

  /** The splice stands behind the documented second argument, and in replace mode replaces the documented third
      one, exactly if none of the commas it uses stands in an angle bracket. */
  lemma SpliceIsDocumented(t: string, open: nat, replace: bool)
    requires Qualifies(t, open, replace)
    ensures var n := MinCommas(replace);
            var found, documented := ScanFrom(t, open, TOP).commas, AngleScan(t, open, TOP, 0).commas;
            n <= |found| && (SameStart(documented, found, n) <==> NoneInAngles(t, open, found[..n]))
  {
    hide ScanFrom, AngleScan, Outside, NoneInAngles, SameStart;
    AngleScanIsOutside(t, open, TOP, 0);
    CommasInOrder(t, open, TOP);
    OutsidePrefix(t, open, ScanFrom(t, open, TOP).commas, MinCommas(replace));
  }
}
