/** The `_backends` pass and then the plain pass: what becomes of a call that the first one gave its `device`. */
module DeviceArgTwoPasses {
  import opened CallScanner
  import opened CppText
  import opened DeviceArg
  import opened PythonText
  import opened DeviceArgProofs
  import opened DeviceArgRescan
  import opened DeviceArgEdits
  import opened DeviceArgNesting
  import opened DeviceArgPasses
  import opened DeviceArgSecondPass

  // ----- a call of the first pass, after the second -----

  lemma ThirdPiece(u: string, p: nat, c: seq<nat>, end: int)
    requires |c| >= 3
    ensures |Pieces(u, p, c, end)| == |c| + 1 && Pieces(u, p, c, end)[2] == Between(u, c[1] + 1, c[2])
  {
    hide Pieces, Between;
    PiecesCount(u, p, c, end);
    assert c == [c[0]] + ([c[1]] + ([c[2]] + c[3..]));
    PiecesCons(u, p, c[0], [c[1]] + ([c[2]] + c[3..]), end);
    PiecesCons(u, c[0] + 1, c[1], [c[2]] + c[3..], end);
    PiecesCons(u, c[1] + 1, c[2], c[3..], end);
  }

  lemma ThirdFromArguments(u: string, p: nat)
    requires ScanFrom(u, p, TOP).end >= 0 && |Arguments(u, p)| >= 4 && Arguments(u, p)[2] == " device"
    ensures DeviceThird(u, p)
  {
    hide ScanFrom, Pieces;
    var r := ScanFrom(u, p, TOP);
    CommasInOrder(u, p, TOP);
    PiecesCount(u, p, r.commas, r.end);
    ThirdPiece(u, p, r.commas, r.end);
    DeviceBetween(u, r.commas[1], r.commas[2]);
  }

  lemma DeviceBetween(u: string, a: nat, b: nat)
    requires a < b < |u| && Between(u, a + 1, b) == " device" && u[b] == ','
    ensures b == a + 8 && u[a + 1..b + 1] == DEVICE
  {
    assert u[a + 1..b + 1] == u[a + 1..b] + [u[b]];
  }

  /** The call that opens at p in u, found again at p' in v under the new name. */
  ghost predicate HasGained(u: string, p: nat, v: string, p': int, newName: string, gained: nat) {
    && NamedAt(v, p', newName) && ScanFrom(v, p', TOP).end >= 0
    && |Arguments(v, p')| == |Arguments(u, p)| + gained
    && (gained == 0 ==> |Arguments(v, p')| > 2 && Arguments(v, p')[2] == " device")
  }

  /** The rewritten calls of the second pass that put their `device` among the arguments of the call at p. */
  function IntrusionsAt(u: string, p: nat, name: string): nat {
    Intrusions(u, 0, name, ScanFrom(u, p, TOP).commas)
  }

  lemma SiteAfterSecondPass(t: string, u: string, newName: string, s: Site, second: string)
    requires SiteIsRewritten(t, u, newName, true, s) && IsIdentifier(second) && IsIdentifier(newName)
    requires HeadsFine(u, 0, second, s.at)
    ensures HasGained(u, s.at, Rewrite(u, second, newName, false), Landing(u, 0, second, newName, s.at), newName,
                      IntrusionsAt(u, s.at, second))
  {
    hide ScanFrom, Output, Segments, Landing, HeadsFine, DeviceThird, IsIdentifier, Intrusions, Pieces;
    var v, p' := Rewrite(u, second, newName, false), Landing(u, 0, second, newName, s.at);
    assert Partly(u, 0, second, newName) == u[..0] + v == v;
    SiteHasDevice(t, u, newName, s);
    ThirdFromArguments(u, s.at);
    assert u[s.at - 1] == u[s.at - |newName| - 1..s.at][|newName|];
    PassCounts(u, 0, second, newName, s.at);
    PassKeepsName(u, 0, second, newName, s.at);
    PiecesCount(u, s.at, ScanFrom(u, s.at, TOP).commas, ScanFrom(u, s.at, TOP).end);
    PiecesCount(v, p', ScanFrom(v, p', TOP).commas, ScanFrom(v, p', TOP).end);
    if IntrusionsAt(u, s.at, second) == 0 {
      DeviceThirdArgument(v, p');
    }
  }

  lemma SiteHasDevice(t: string, u: string, newName: string, s: Site)
    requires SiteIsRewritten(t, u, newName, true, s)
    ensures |Arguments(u, s.at)| >= 4 && Arguments(u, s.at)[2] == " device" && ScanFrom(u, s.at, TOP).end >= 0
  {
    hide ScanFrom, Pieces;
    PiecesCount(t, s.open, ScanFrom(t, s.open, TOP).commas, ScanFrom(t, s.open, TOP).end);
  }

  /** After both passes every call of the first one has as many arguments as it had, and one more for every
      rewritten call of the second pass whose second comma separates its own arguments. So it keeps its arguments,
      with ` device` at index 2, exactly if there is no such call. */
  lemma TwoPassesCount(t: string, first: string, second: string, newName: string)
    requires IsIdentifier(second) && IsIdentifier(newName)
    ensures var u := Rewrite(t, first, newName, true);
            var v := Rewrite(u, second, newName, false);
            forall s <- Sites(t, 0, first, newName, true, 0) | HeadsFine(u, 0, second, s.at) ::
              HasGained(u, s.at, v, Landing(u, 0, second, newName, s.at), newName, IntrusionsAt(u, s.at, second))
  {
    hide Output, Segments, SiteIsRewritten, HasGained, HeadsFine, Landing, IntrusionsAt, IsIdentifier, Sites;
    var u := Rewrite(t, first, newName, true);
    EveryRewrittenCallRescans(t, 0, first, newName, true, "");
    assert "" + Output(Segments(t, 0, first, true), newName) == u;
    forall s <- Sites(t, 0, first, newName, true, 0) | HeadsFine(u, 0, second, s.at)
      ensures HasGained(u, s.at, Rewrite(u, second, newName, false), Landing(u, 0, second, newName, s.at), newName,
                        IntrusionsAt(u, s.at, second))
    {
      SiteAfterSecondPass(t, u, newName, s, second);
    }
  }

  // ----- calls that stand as code -----

  /** The scan of the call at p comes to position j as code. */
  ghost predicate ReachedAsCode(u: string, p: nat, j: nat) {
    exists d, n :: Leads(u, p, TOP, j, d, n)
  }

  /** A rewritten call with its second comma at q stands behind the call at p, before or around it, or is
      reached as code inside it. */
  ghost predicate Apart(u: string, p: nat, start: nat, q: int) {
    || start > ScanFrom(u, p, TOP).end
    || (start < p && !(p <= q <= ScanFrom(u, p, TOP).end))
    || ReachedAsCode(u, p, start)
  }

  ghost predicate AllApart(u: string, cursor: nat, name: string, p: nat)
    requires cursor <= |u|
    decreases |u| - cursor
  {
    var turn := TurnAt(u, cursor, name, false);
    && (turn.seg.Call? ==> Apart(u, p, StartOf(cursor, turn.seg), SecondOf(cursor, turn.seg)))
    && (!turn.last ==> AllApart(u, turn.next, name, p))
  }

  lemma {:induction false} LeadsReaches(t: string, i: nat, d: Depth, j: nat, dj: Depth, n: nat)
    requires Leads(t, i, d, j, dj, n)
    ensures Reaches(t, i, j)
    decreases |t| - i
  {
    hide SkipTo, Move;
    if i != j {
      if SkipTo(t, i) > i {
        LeadsReaches(t, SkipTo(t, i), d, j, dj, n);
      } else {
        LeadsReaches(t, i + 1, Move(d, t[i]), j, dj, n - if t[i] == ',' && d == TOP then 1 else 0);
      }
    }
  }

  /** The separating commas of a scan lie before a position it leads to, or are found from there. */
  lemma {:induction false} LeadsCommas(t: string, i: nat, d: Depth, j: nat, dj: Depth, n: nat, c: nat)
    requires Leads(t, i, d, j, dj, n) && c in ScanFrom(t, i, d).commas
    ensures c < j || c in ScanFrom(t, j, dj).commas
    decreases |t| - i
  {
    hide SkipTo, Move, ScanFrom;
    if i != j {
      if SkipTo(t, i) > i {
        ScanSkips(t, i, d);
        LeadsCommas(t, SkipTo(t, i), d, j, dj, n, c);
      } else {
        ScanStep(t, i, d);
        var next := Move(d, t[i]);
        if c in ScanFrom(t, i + 1, next).commas {
          LeadsCommas(t, i + 1, next, j, dj, n - if t[i] == ',' && d == TOP then 1 else 0, c);
        }
      }
    }
  }

  /** A call inside another one, reached as code, lies between two separating commas of it. */
  lemma CommasAroundCall(t: string, p: nat, start: nat, open: nat, d: Depth, n: nat, c: nat)
    requires Leads(t, p, TOP, start, d, n) && IsHead(t, start, open) && ScanFrom(t, open, TOP).end >= 0
    requires c in ScanFrom(t, p, TOP).commas
    ensures c < start || c > ScanFrom(t, open, TOP).end
  {
    hide ScanFrom, Leads, IsQuiet, IsWordChar, IsSpace;
    HeadIsQuiet(t, start, open);
    QuietIsPlain(t, start, open - 1);
    LeadsStaysInside(t, p, TOP, start, d, n);
    LeadsCommas(t, p, TOP, start, d, n, c);
    HeadAndCall(t, start, open, d);
    if c >= start {
      var r := ScanFrom(t, open, TOP);
      CommasInOrder(t, r.end + 1, Depth(d.paren, r.exit.brace + d.brace, r.exit.brack + d.brack));
    }
  }

  lemma QuietIsPlain(t: string, a: nat, b: nat)
    requires a <= b <= |t| && forall k | a <= k < b :: IsQuiet(t[k]) && t[k] != ','
    ensures forall k | a <= k < b :: IsPlain(t[k])
  {
  }

  /** A call of the second pass around the call at p, from which that one is reached as code, is apart from it. */
  lemma EnclosingCallIsApart(u: string, start: nat, open: nat, head: nat, p: nat, d: Depth, n: nat)
    requires Qualifies(u, open, false) && start < open && ScanFrom(u, p, TOP).end >= 0
    requires Leads(u, open, TOP, head, d, n) && IsHead(u, head, p)
    ensures |ScanFrom(u, open, TOP).commas| >= 2 && Apart(u, p, start, ScanFrom(u, open, TOP).commas[1])
  {
    hide ScanFrom, Leads, IsWordChar, IsSpace, ReachedAsCode;
    var q := SecondComma(u, open);
    CommasAroundCall(u, open, head, p, d, n, q);
    LeadsBounds(u, open, TOP, head, d, n);
  }

  lemma TurnApart(u: string, cursor: nat, name: string, p: nat)
    requires cursor <= |u| && IsIdentifier(name) && TurnAt(u, cursor, name, false).seg.Call?
    requires 0 < p <= |u| && u[p - 1] == '(' && ScanFrom(u, p, TOP).end >= 0
    requires var seg := TurnAt(u, cursor, name, false).seg; Apart(u, p, StartOf(cursor, seg), SecondOf(cursor, seg))
    ensures var seg := TurnAt(u, cursor, name, false).seg;
            && OpenOf(cursor, seg) <= |u| && HeadFine(u, p, StartOf(cursor, seg), OpenOf(cursor, seg))
            && SecondOf(cursor, seg) !in ScanFrom(u, p, TOP).commas
  {
    hide TurnAt, ScanFrom, CallOpen, CutCall, Qualifies, IsWordChar, IsSpace, Leads, Reaches, IsIdentifier;
    CallTurn(u, cursor, name);
    var seg := TurnAt(u, cursor, name, false).seg;
    var start, open, q := StartOf(cursor, seg), OpenOf(cursor, seg), SecondOf(cursor, seg);
    CommasInOrder(u, p, TOP);
    ParenthesisOutsideHead(u, start, open, p);
    if ReachedAsCode(u, p, start) {
      var d, n :| Leads(u, p, TOP, start, d, n);
      LeadsReaches(u, p, TOP, start, d, n);
      if q in ScanFrom(u, p, TOP).commas {
        CommasAroundCall(u, p, start, open, d, n, q);
      }
    }
  }

  /** Calls that stand apart intrude nowhere. */
  lemma {:induction false} ApartDoesNotIntrude(u: string, cursor: nat, name: string, p: nat)
    requires cursor <= |u| && IsIdentifier(name) && AllApart(u, cursor, name, p)
    requires 0 < p <= |u| && u[p - 1] == '(' && ScanFrom(u, p, TOP).end >= 0
    ensures HeadsFine(u, cursor, name, p) && Intrusions(u, cursor, name, ScanFrom(u, p, TOP).commas) == 0
    decreases |u| - cursor
  {
    hide TurnAt, ScanFrom, HeadFine, Apart, IsIdentifier;
    var turn := TurnAt(u, cursor, name, false);
    if turn.seg.Call? {
      TurnApart(u, cursor, name, p);
    }
    if !turn.last {
      ApartDoesNotIntrude(u, turn.next, name, p);
    }
  }

  /** If the calls of the second pass that stand in a call of the first one are reached as code, that call has
      the same number of arguments after both passes, with ` device` at index 2. */
  lemma TwoPassesSpliceOnce(t: string, first: string, second: string, newName: string)
    requires IsIdentifier(second) && IsIdentifier(newName)
    ensures var u := Rewrite(t, first, newName, true);
            var v := Rewrite(u, second, newName, false);
            forall s <- Sites(t, 0, first, newName, true, 0) | AllApart(u, 0, second, s.at) ::
              HasGained(u, s.at, v, Landing(u, 0, second, newName, s.at), newName, 0)
  {
    hide Output, Segments, SiteIsRewritten, HasGained, HeadsFine, Landing, Intrusions, IsIdentifier, Sites, AllApart;
    var u := Rewrite(t, first, newName, true);
    EveryRewrittenCallRescans(t, 0, first, newName, true, "");
    assert "" + Output(Segments(t, 0, first, true), newName) == u;
    TwoPassesCount(t, first, second, newName);
    forall s <- Sites(t, 0, first, newName, true, 0) | AllApart(u, 0, second, s.at)
      ensures HasGained(u, s.at, Rewrite(u, second, newName, false), Landing(u, 0, second, newName, s.at), newName, 0)
    {
      SiteOpens(t, u, newName, s);
      ApartDoesNotIntrude(u, 0, second, s.at);
    }
  }

  lemma SiteOpens(t: string, u: string, newName: string, s: Site)
    requires SiteIsRewritten(t, u, newName, true, s)
    ensures 0 < s.at <= |u| && u[s.at - 1] == '(' && ScanFrom(u, s.at, TOP).end >= 0
  {
    hide ScanFrom;
    assert u[s.at - 1] == u[s.at - |newName| - 1..s.at][|newName|];
  }

  /** For the tool's own names. */
  lemma StrictPassesSpliceOnce(t: string)
    ensures var u := Rewrite(t, BACKENDS, SINGLE, true);
            var v := Rewrite(u, PLAIN, SINGLE, false);
            forall s <- Sites(t, 0, BACKENDS, SINGLE, true, 0) ::
              && (AllApart(u, 0, PLAIN, s.at) ==> HasGained(u, s.at, v, Landing(u, 0, PLAIN, SINGLE, s.at), SINGLE, 0))
              && (HeadsFine(u, 0, PLAIN, s.at)
                  ==> HasGained(u, s.at, v, Landing(u, 0, PLAIN, SINGLE, s.at), SINGLE, IntrusionsAt(u, s.at, PLAIN)))
  {
    hide Rewrite, Sites, AllApart, HasGained, HeadsFine, Landing, IntrusionsAt;
    ToolNames();
    TwoPassesSpliceOnce(t, BACKENDS, PLAIN, SINGLE);
    TwoPassesCount(t, BACKENDS, PLAIN, SINGLE);
  }

  lemma ToolNames()
    ensures IsIdentifier(BACKENDS) && IsIdentifier(PLAIN) && IsIdentifier(SINGLE) && PLAIN != SINGLE
  {
    assert |PLAIN| != |SINGLE|;
  }
}
