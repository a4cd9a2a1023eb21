/** The coverage summary: counting the lines of a source, keeping the best record per source over all object
    files, and summing by subsystem. */
module Coverage {
  import opened Wrappers

  // ----- counting lines -----

  datatype Line = Line(count: int, gccOnly: bool)

  predicate Executable(l: Line) { l.count >= 0 && !l.gccOnly }

  predicate Executed(l: Line) { Executable(l) && l.count > 0 }

  ghost function Positions(lines: seq<Line>, p: Line -> bool): set<int> {
    set i | 0 <= i < |lines| && p(lines[i])
  }

  lemma OneMorePosition(lines: seq<Line>, i: nat, p: Line -> bool)
    requires i < |lines|
    ensures |Positions(lines[..i + 1], p)| == |Positions(lines[..i], p)| + if p(lines[i]) then 1 else 0
  {
    if p(lines[i]) {
      assert Positions(lines[..i + 1], p) == Positions(lines[..i], p) + {i};
    } else {
      assert Positions(lines[..i + 1], p) == Positions(lines[..i], p);
    }
  }

  /** The executable lines are those with a count that is not negative, unless gcc made them up; the executed ones are
      those of them with a positive count. */
  method CountLines(lines: seq<Line>) returns (executable: nat, executed: nat)
    ensures executable == |set i: int | 0 <= i < |lines| && lines[i].count >= 0 && !lines[i].gccOnly|
    ensures executed == |set i: int | 0 <= i < |lines| && lines[i].count > 0 && !lines[i].gccOnly|
    ensures executed <= executable
  {
    ghost var able, ran := (l: Line) => Executable(l), (l: Line) => Executed(l);
    executable, executed := 0, 0;
    for i := 0 to |lines|
      invariant executable == |Positions(lines[..i], able)| && executed == |Positions(lines[..i], ran)| <= executable
    {
      OneMorePosition(lines, i, able);
      OneMorePosition(lines, i, ran);
      var ln := lines[i];
      if ln.count >= 0 && !ln.gccOnly {
        executable := executable + 1;
        if ln.count > 0 {
          executed := executed + 1;
        }
      }
    }
    assert lines[..|lines|] == lines;
    assert Positions(lines, able) == set i: int | 0 <= i < |lines| && lines[i].count >= 0 && !lines[i].gccOnly;
    assert Positions(lines, ran) == set i: int | 0 <= i < |lines| && lines[i].count > 0 && !lines[i].gccOnly;
  }

  // ----- the best record of a source -----

  /** The counts of one source in one object file. */
  datatype Record = Record(rel: string, executable: nat, executed: nat)

  /** Records are ordered by executable lines and then by executed ones. */
  predicate Below(a: (nat, nat), b: (nat, nat)) {
    a.0 < b.0 || (a.0 == b.0 && a.1 < b.1)
  }

  function Pair(r: Record): (nat, nat) { (r.executable, r.executed) }

  predicate StartsWith(s: string, prefix: string) { |prefix| <= |s| && s[..|prefix|] == prefix }

  predicate IsIgnored(rel: string, dirs: seq<string>) {
    StartsWith(rel, "/usr/") || StartsWith(rel, "/opt/") || exists k | 0 <= k < |dirs| :: StartsWith(rel, dirs[k])
  }

  /** A record that counts for a source: not ignored, and more than nothing. */
  predicate Counts(r: Record, rel: string, dirs: seq<string>) {
    r.rel == rel && !IsIgnored(rel, dirs) && Below((0, 0), Pair(r))
  }

  /** The pair is the greatest among the records that count for the source. */
  ghost predicate IsBest(records: seq<Record>, dirs: seq<string>, rel: string, best: (nat, nat)) {
    && (exists r :: r in records && Counts(r, rel, dirs) && Pair(r) == best)
    && forall r | r in records && Counts(r, rel, dirs) :: !Below(best, Pair(r))
  }

  /** Some record counts for the source. */
  ghost predicate Known(records: seq<Record>, dirs: seq<string>, rel: string) {
    exists r :: r in records && Counts(r, rel, dirs)
  }

  ghost predicate Summarizes(records: seq<Record>, dirs: seq<string>, executable: map<string, nat>, executed: map<string, nat>) {
    && executable.Keys == executed.Keys
    && (forall rel :: rel in executable <==> Known(records, dirs, rel))
    && forall rel | rel in executable :: IsBest(records, dirs, rel, (executable[rel], executed[rel]))
  }

  lemma KnownStep(before: seq<Record>, r: Record, after: seq<Record>, dirs: seq<string>, rel: string)
    requires forall x :: x in after <==> x in before || x == r
    ensures Known(after, dirs, rel) <==> Known(before, dirs, rel) || Counts(r, rel, dirs)
  {
    hide Counts;
  }

  /** The record is better than what the summary holds for its source. */
  ghost predicate Replaces(r: Record, dirs: seq<string>, executable: map<string, nat>, executed: map<string, nat>)
    requires executable.Keys == executed.Keys
  {
    !IsIgnored(r.rel, dirs) && Below(if r.rel in executable then (executable[r.rel], executed[r.rel]) else (0, 0), Pair(r))
  }

  /** A record that does not replace what the summary holds does not make its source known. */
  lemma KeptIsKnown(before: seq<Record>, r: Record, dirs: seq<string>, executable: map<string, nat>, executed: map<string, nat>)
    requires Summarizes(before, dirs, executable, executed)
    ensures if Replaces(r, dirs, executable, executed) then Counts(r, r.rel, dirs)
            else Counts(r, r.rel, dirs) ==> r.rel in executable && !Below((executable[r.rel], executed[r.rel]), Pair(r))
  {
    hide IsIgnored, Known;
    if r.rel in executable {
      assert IsBest(before, dirs, r.rel, (executable[r.rel], executed[r.rel]));
    }
  }

  lemma KnownBefore(before: seq<Record>, dirs: seq<string>, executable: map<string, nat>, executed: map<string, nat>, rel: string)
    requires Summarizes(before, dirs, executable, executed)
    ensures executable.Keys == executed.Keys && (rel in executable <==> Known(before, dirs, rel))
    ensures rel in executable ==> IsBest(before, dirs, rel, (executable[rel], executed[rel]))
  {
    hide Known, IsBest;
  }

  /** One more record for another source, or one that counts for none. */
  lemma BestElsewhere(before: seq<Record>, r: Record, after: seq<Record>, dirs: seq<string>, rel: string, best: (nat, nat))
    requires forall x :: x in after <==> x in before || x == r
    requires IsBest(before, dirs, rel, best) && (Counts(r, rel, dirs) ==> !Below(best, Pair(r)))
    ensures IsBest(after, dirs, rel, best)
  {
    hide Counts, Below;
    var x :| x in before && Counts(x, rel, dirs) && Pair(x) == best;
    assert x in after;
  }

  /** The new record becomes the best of its source. */
  lemma BestHere(before: seq<Record>, r: Record, after: seq<Record>, dirs: seq<string>, prev: (nat, nat))
    requires forall x :: x in after <==> x in before || x == r
    requires Counts(r, r.rel, dirs) && Below(prev, Pair(r))
    requires IsBest(before, dirs, r.rel, prev) || !Known(before, dirs, r.rel)
    ensures IsBest(after, dirs, r.rel, Pair(r))
  {
    hide Counts;
    assert r in after;
  }

  lemma SummaryStep(records: seq<Record>, dirs: seq<string>, i: nat, executable: map<string, nat>, executed: map<string, nat>)
    requires i < |records| && Summarizes(records[..i], dirs, executable, executed)
    ensures if Replaces(records[i], dirs, executable, executed)
            then Summarizes(records[..i + 1], dirs, executable[records[i].rel := records[i].executable],
                            executed[records[i].rel := records[i].executed])
            else Summarizes(records[..i + 1], dirs, executable, executed)
  {
    hide IsIgnored, Known, IsBest, Counts, Below;
    var r, before, after := records[i], records[..i], records[..i + 1];
    assert after == before + [r];
    var better := Replaces(r, dirs, executable, executed);
    var newExecutable := if better then executable[r.rel := r.executable] else executable;
    var newExecuted := if better then executed[r.rel := r.executed] else executed;
    KeptIsKnown(before, r, dirs, executable, executed);
    forall rel
      ensures rel in newExecutable <==> Known(after, dirs, rel)
      ensures rel in newExecutable ==> IsBest(after, dirs, rel, (newExecutable[rel], newExecuted[rel]))
    {
      KnownBefore(before, dirs, executable, executed, rel);
      KnownStep(before, r, after, dirs, rel);
      CountsForItself(r, rel, dirs);
      BestStep(before, r, after, dirs, rel, executable, executed);
    }
  }

  lemma CountsForItself(r: Record, rel: string, dirs: seq<string>)
    ensures Counts(r, rel, dirs) ==> rel == r.rel
  {
    hide IsIgnored;
  }

  lemma BestStep(before: seq<Record>, r: Record, after: seq<Record>, dirs: seq<string>, rel: string,
                 executable: map<string, nat>, executed: map<string, nat>)
    requires Summarizes(before, dirs, executable, executed) && forall x :: x in after <==> x in before || x == r
    ensures if Replaces(r, dirs, executable, executed) && rel == r.rel then IsBest(after, dirs, rel, Pair(r))
            else rel in executable ==> IsBest(after, dirs, rel, (executable[rel], executed[rel]))
  {
    hide IsIgnored, Known, IsBest, Summarizes, Counts, Below;
    KnownBefore(before, dirs, executable, executed, rel);
    KeptIsKnown(before, r, dirs, executable, executed);
    CountsForItself(r, rel, dirs);
    if Replaces(r, dirs, executable, executed) && rel == r.rel {
      BestHere(before, r, after, dirs, if rel in executable then (executable[rel], executed[rel]) else (0, 0));
    } else if rel in executable {
      BestElsewhere(before, r, after, dirs, rel, (executable[rel], executed[rel]));
    }
  }

  /** The loop over the records of all object files, in the order they arrive. */
  method Aggregate(records: seq<Record>, dirs: seq<string>) returns (src_executable: map<string, nat>, src_executed: map<string, nat>)
    ensures Summarizes(records, dirs, src_executable, src_executed)
  {
    hide IsIgnored, Summarizes;
    src_executable, src_executed := map[], map[];
    NothingYet(records[..0], dirs);
    for i := 0 to |records|
      invariant Summarizes(records[..i], dirs, src_executable, src_executed)
    {
      SameKeys(records[..i], dirs, src_executable, src_executed);
      SummaryStep(records, dirs, i, src_executable, src_executed);
      var r := records[i];
      if IsIgnored(r.rel, dirs) {
        continue;
      }
      var prev_executable := if r.rel in src_executable then src_executable[r.rel] else 0;
      var prev_executed := if r.rel in src_executed then src_executed[r.rel] else 0;
      if r.executable > prev_executable || (r.executable == prev_executable && r.executed > prev_executed) {
        src_executable := src_executable[r.rel := r.executable];
        src_executed := src_executed[r.rel := r.executed];
      }
    }
    assert records[..|records|] == records;
  }

  lemma SameKeys(records: seq<Record>, dirs: seq<string>, executable: map<string, nat>, executed: map<string, nat>)
    requires Summarizes(records, dirs, executable, executed)
    ensures executable.Keys == executed.Keys
  {
  }

  lemma NothingYet(records: seq<Record>, dirs: seq<string>)
    requires records == []
    ensures Summarizes(records, dirs, map[], map[])
  {
  }

  /** A source of the system, or below one of the directories left aside. */
  ghost predicate LeftAside(rel: string, dirs: seq<string>) {
    "/usr/" <= rel || "/opt/" <= rel || exists k | 0 <= k < |dirs| :: dirs[k] <= rel
  }

  lemma IgnoredIsLeftAside(rel: string, dirs: seq<string>)
    ensures IsIgnored(rel, dirs) <==> LeftAside(rel, dirs)
  {
    forall prefix ensures StartsWith(rel, prefix) <==> prefix <= rel {
    }
  }

  /** What a summary says: a source is in it if it is not left aside and some record of it counts a line, and then it
      holds one of the source's records, the one with the most executable lines and among those the most executed. */
  lemma SummaryMeans(records: seq<Record>, dirs: seq<string>, executable: map<string, nat>, executed: map<string, nat>, rel: string)
    requires Summarizes(records, dirs, executable, executed)
    ensures rel in executable <==> rel in executed
    ensures rel in executable <==>
              !LeftAside(rel, dirs) && exists r :: r in records && r.rel == rel && (r.executable > 0 || r.executed > 0)
    ensures rel in executable ==>
              && Record(rel, executable[rel], executed[rel]) in records
              && forall r | r in records && r.rel == rel ::
                   r.executable < executable[rel] || (r.executable == executable[rel] && r.executed <= executed[rel])
  {
    hide IsIgnored, LeftAside;
    IgnoredIsLeftAside(rel, dirs);
    if rel in executable {
      var best := (executable[rel], executed[rel]);
      assert IsBest(records, dirs, rel, best);
      var x :| x in records && Counts(x, rel, dirs) && Pair(x) == best;
      assert x == Record(rel, executable[rel], executed[rel]);
      forall r | r in records && r.rel == rel ensures r.executable < best.0 || (r.executable == best.0 && r.executed <= best.1) {
        if Counts(r, rel, dirs) {
          assert !Below(best, Pair(r));
        }
      }
    } else if !LeftAside(rel, dirs) {
      assert !Known(records, dirs, rel);
      forall r | r in records && r.rel == rel ensures r.executable == 0 && r.executed == 0 {
        assert !Counts(r, rel, dirs);
      }
    }
  }

  lemma BestIsUnique(records: seq<Record>, dirs: seq<string>, rel: string, a: (nat, nat), b: (nat, nat))
    requires IsBest(records, dirs, rel, a) && IsBest(records, dirs, rel, b)
    ensures a == b
  {
    hide Counts;
    assert !Below(a, b) && !Below(b, a);
  }

  /** The summary does not depend on the order in which the records arrive, nor on repetitions. */
  lemma OrderDoesNotMatter(records: seq<Record>, others: seq<Record>, dirs: seq<string>,
                           executable: map<string, nat>, executed: map<string, nat>,
                           executable': map<string, nat>, executed': map<string, nat>)
    requires forall r :: r in records <==> r in others
    requires Summarizes(records, dirs, executable, executed) && Summarizes(others, dirs, executable', executed')
    ensures executable == executable' && executed == executed'
  {
    hide Counts, Below;
    forall rel ensures rel in executable <==> rel in executable' {
      if rel in executable {
        var r :| r in records && Counts(r, rel, dirs);
        assert r in others;
      }
      if rel in executable' {
        var r :| r in others && Counts(r, rel, dirs);
        assert r in records;
      }
    }
    forall rel | rel in executable ensures executable[rel] == executable'[rel] && executed[rel] == executed'[rel] {
      var best := (executable'[rel], executed'[rel]);
      BestOfOthers(records, others, dirs, rel, best);
      BestIsUnique(records, dirs, rel, (executable[rel], executed[rel]), best);
    }
  }

  lemma BestOfOthers(records: seq<Record>, others: seq<Record>, dirs: seq<string>, rel: string, best: (nat, nat))
    requires forall r :: r in records <==> r in others
    requires IsBest(others, dirs, rel, best)
    ensures IsBest(records, dirs, rel, best)
  {
    hide Counts, Below;
  }

  /** If no record has more executed than executable lines, neither has the summary. */
  lemma ExecutedStaysBelow(records: seq<Record>, dirs: seq<string>, executable: map<string, nat>, executed: map<string, nat>, rel: string)
    requires forall r | r in records :: r.executed <= r.executable
    requires Summarizes(records, dirs, executable, executed) && rel in executable
    ensures executed[rel] <= executable[rel]
  {
    hide Counts;
    assert IsBest(records, dirs, rel, (executable[rel], executed[rel]));
  }

  // ----- sums -----

  function Split(s: string, start: nat, i: nat): seq<string>
    requires start <= i <= |s|
    decreases |s| - i
  {
    if i == |s| then [s[start..i]]
    else if s[i] == '/' then [s[start..i]] + Split(s, i + 1, i + 1)
    else Split(s, start, i + 1)
  }

  function Subsystem(rel: string): string {
    if !StartsWith(rel, "src/") then "(other)"
    else
      var parts := Split(rel, 0, 0);
      if |parts| >= 4 && parts[1] == "backends" then "src/backends/" + parts[2]
      else if |parts| >= 3 then "src/" + parts[1]
      else "src"
  }

  predicate OnePart(s: string) { forall k | 0 <= k < |s| :: s[k] != '/' }

  lemma {:induction false} SplitAt(s: string, start: nat, i: nat, part: string, rest: string)
    requires start <= i <= start + |part| && start <= |s| && s[start..] == part + "/" + rest && OnePart(part)
    ensures start + |part| < |s|
    ensures var e := start + |part| + 1; Split(s, start, i) == [part] + Split(s, e, e) && s[e..] == rest
    decreases start + |part| - i
  {
    var e := start + |part|;
    assert s[e] == s[start..][|part|] == '/';
    assert s[start..e] == s[start..][..|part|] == part;
    assert s[e + 1..] == s[start..][|part| + 1..] == rest;
    if i < e {
      assert s[i] == s[start..][i - start] == part[i - start];
      SplitAt(s, start, i + 1, part, rest);
    }
  }

  lemma {:induction false} SplitLast(s: string, start: nat, i: nat)
    requires start <= i <= |s| && forall k | i <= k < |s| :: s[k] != '/'
    ensures Split(s, start, i) == [s[start..]]
    decreases |s| - i
  {
    assert s[start..|s|] == s[start..];
    if i < |s| {
      SplitLast(s, start, i + 1);
    }
  }

  lemma {:induction false} SplitSome(s: string, start: nat, i: nat)
    requires start <= i <= |s|
    ensures |Split(s, start, i)| >= 1
    decreases |s| - i
  {
    if i < |s| && s[i] != '/' {
      SplitSome(s, start, i + 1);
    }
  }

  /** A source two levels below `src` belongs to the directory directly below it, `backends` too if it lies directly in
      it; a file in `src` belongs to `src` itself, and what is not below `src` to no subsystem. */
  lemma SubsystemOfSource(dir: string, rest: string)
    requires OnePart(dir)
    ensures dir != "backends" || OnePart(rest) ==> Subsystem("src/" + dir + "/" + rest) == "src/" + dir
    ensures Subsystem("src/" + dir) == "src"
    ensures !("src/" <= rest) ==> Subsystem(rest) == "(other)"
  {
    SubsystemOutside(rest);
    hide Split;
    var s := "src/" + dir + "/" + rest;
    assert s[0..] == "src" + "/" + (dir + "/" + rest) && s[..4] == "src/";
    SplitAt(s, 0, 0, "src", dir + "/" + rest);
    SplitAt(s, 4, 4, dir, rest);
    SplitSome(s, 4 + |dir| + 1, 4 + |dir| + 1);
    if OnePart(rest) {
      SplitLast(s, 4 + |dir| + 1, 4 + |dir| + 1);
    }
    var f := "src/" + dir;
    assert f[0..] == "src" + "/" + dir && f[..4] == "src/";
    SplitAt(f, 0, 0, "src", dir);
    SplitLast(f, 4, 4);
  }

  lemma SubsystemOutside(rel: string)
    ensures !("src/" <= rel) ==> Subsystem(rel) == "(other)"
  {
    hide Split;
  }

  lemma SplitThree(s: string, a: string, b: string, c: string, rest: string)
    requires s == a + "/" + (b + "/" + (c + "/" + rest)) && OnePart(a) && OnePart(b) && OnePart(c)
    ensures var parts := Split(s, 0, 0); |parts| >= 4 && parts[0] == a && parts[1] == b && parts[2] == c
  {
    hide Split, OnePart;
    var i, j := |a| + 1, |a| + 1 + |b| + 1;
    assert s[0..] == s;
    SplitAt(s, 0, 0, a, b + "/" + (c + "/" + rest));
    SplitAt(s, i, i, b, c + "/" + rest);
    SplitAt(s, j, j, c, rest);
    SplitSome(s, j + |c| + 1, j + |c| + 1);
  }

  /** Each backend is a subsystem of its own. */
  lemma SubsystemOfBackend(backend: string, rest: string)
    requires OnePart(backend)
    ensures Subsystem("src/backends/" + backend + "/" + rest) == "src/backends/" + backend
  {
    hide Split;
    var s := "src/backends/" + backend + "/" + rest;
    assert s == "src" + "/" + ("backends" + "/" + (backend + "/" + rest));
    SplitThree(s, "src", "backends", backend, rest);
    assert s[..4] == "src/";
  }

  function Total(files: seq<Record>): (nat, nat) {
    if files == [] then (0, 0)
    else var t := Total(files[..|files| - 1]); (t.0 + files[|files| - 1].executable, t.1 + files[|files| - 1].executed)
  }

  /** The sums and the number of files of one subsystem. */
  function Share(files: seq<Record>, sub: string): (nat, nat, nat) {
    if files == [] then (0, 0, 0)
    else
      var t, last := Share(files[..|files| - 1], sub), files[|files| - 1];
      if Subsystem(last.rel) == sub then (t.0 + last.executable, t.1 + last.executed, t.2 + 1) else t
  }

  function Lookup(m: map<string, (nat, nat, nat)>, sub: string): (nat, nat, nat) {
    if sub in m then m[sub] else (0, 0, 0)
  }

  function SumOf(s: seq<nat>): nat { if s == [] then 0 else s[0] + SumOf(s[1..]) }

  function Executables(files: seq<Record>): seq<nat> {
    seq(|files|, i requires 0 <= i < |files| => files[i].executable)
  }

  function Executeds(files: seq<Record>): seq<nat> {
    seq(|files|, i requires 0 <= i < |files| => files[i].executed)
  }

  /** The files of one subsystem. */
  function FilesOf(files: seq<Record>, sub: string): seq<Record> {
    if files == [] then []
    else (if Subsystem(files[0].rel) == sub then [files[0]] else []) + FilesOf(files[1..], sub)
  }

  lemma {:induction false} SumOfMore(s: seq<nat>, x: nat)
    ensures SumOf(s + [x]) == SumOf(s) + x
    decreases |s|
  {
    if s == [] {
      assert [x][1..] == [];
    } else {
      assert (s + [x])[1..] == s[1..] + [x];
      SumOfMore(s[1..], x);
    }
  }

  lemma {:induction false} FilesOfMore(files: seq<Record>, f: Record, sub: string)
    ensures FilesOf(files + [f], sub) == FilesOf(files, sub) + if Subsystem(f.rel) == sub then [f] else []
    decreases |files|
  {
    hide Subsystem;
    if files == [] {
      assert [f][1..] == [];
    } else {
      assert (files + [f])[1..] == files[1..] + [f];
      FilesOfMore(files[1..], f, sub);
    }
  }

  lemma {:induction false} TotalIsSum(files: seq<Record>)
    ensures Total(files) == (SumOf(Executables(files)), SumOf(Executeds(files)))
    decreases |files|
  {
    if files != [] {
      var n := |files| - 1;
      TotalIsSum(files[..n]);
      assert Executables(files) == Executables(files[..n]) + [files[n].executable];
      assert Executeds(files) == Executeds(files[..n]) + [files[n].executed];
      SumOfMore(Executables(files[..n]), files[n].executable);
      SumOfMore(Executeds(files[..n]), files[n].executed);
    }
  }

  lemma {:induction false} ShareIsSum(files: seq<Record>, sub: string)
    ensures Share(files, sub) == (Total(FilesOf(files, sub)).0, Total(FilesOf(files, sub)).1, |FilesOf(files, sub)|)
    decreases |files|
  {
    hide Subsystem;
    if files != [] {
      var n := |files| - 1;
      ShareIsSum(files[..n], sub);
      assert files == files[..n] + [files[n]];
      FilesOfMore(files[..n], files[n], sub);
      var before := FilesOf(files[..n], sub);
      assert (before + [files[n]])[..|before|] == before;
      assert before + [] == before;
    }
  }

  /** The summing loops, over the files in the order of the summary: totals, and sums and number of files for each
      subsystem that has files. */
  method Sum(files: seq<Record>) returns (total: (nat, nat), subs: map<string, (nat, nat, nat)>)
    ensures total == (SumOf(Executables(files)), SumOf(Executeds(files)))
    ensures forall sub | sub in subs ::
              var own := FilesOf(files, sub); subs[sub] == (SumOf(Executables(own)), SumOf(Executeds(own)), |own|)
    ensures forall sub :: sub in subs <==> exists k :: 0 <= k < |files| && Subsystem(files[k].rel) == sub
  {
    hide Subsystem;
    total, subs := (0, 0), map[];
    for i := 0 to |files|
      invariant total == Total(files[..i])
      invariant forall sub :: Lookup(subs, sub) == Share(files[..i], sub)
      invariant forall sub :: sub in subs <==> exists k :: 0 <= k < i && Subsystem(files[k].rel) == sub
    {
      assert files[..i + 1][..i] == files[..i];
      var f := files[i];
      total := (total.0 + f.executable, total.1 + f.executed);
      var s := Subsystem(f.rel);
      var t := Lookup(subs, s);
      subs := subs[s := (t.0 + f.executable, t.1 + f.executed, t.2 + 1)];
    }
    assert files[..|files|] == files;
    TotalIsSum(files);
    forall sub | sub in subs ensures var own := FilesOf(files, sub); subs[sub] == (SumOf(Executables(own)), SumOf(Executeds(own)), |own|) {
      assert Lookup(subs, sub) == Share(files, sub);
      ShareIsSum(files, sub);
      TotalIsSum(FilesOf(files, sub));
    }
  }

  function Gather(files: seq<Record>, subs: seq<string>): (nat, nat, nat) {
    if subs == [] then (0, 0, 0)
    else var a, b := Share(files, subs[0]), Gather(files, subs[1..]); (a.0 + b.0, a.1 + b.1, a.2 + b.2)
  }

  lemma {:induction false} GatherMore(files: seq<Record>, subs: seq<string>)
    requires files != [] && Distinct(subs)
    ensures var last := files[|files| - 1];
            var t := Gather(files[..|files| - 1], subs);
            Gather(files, subs) == if Subsystem(last.rel) in subs then (t.0 + last.executable, t.1 + last.executed, t.2 + 1) else t
    decreases |subs|
  {
    hide Subsystem;
    if subs != [] {
      GatherMore(files, subs[1..]);
      assert subs == [subs[0]] + subs[1..];
    }
  }

  /** The subsystems add up to the totals, and their file counts to the number of files. */
  lemma {:induction false} SubsystemsAddUp(files: seq<Record>, subs: seq<string>)
    requires Distinct(subs) && forall k | 0 <= k < |files| :: Subsystem(files[k].rel) in subs
    ensures Gather(files, subs) == (Total(files).0, Total(files).1, |files|)
    decreases |files|
  {
    hide Subsystem;
    if files == [] {
      GatherNothing(subs);
    } else {
      GatherMore(files, subs);
      SubsystemsAddUp(files[..|files| - 1], subs);
    }
  }

  lemma {:induction false} GatherNothing(subs: seq<string>)
    ensures Gather([], subs) == (0, 0, 0)
    decreases |subs|
  {
    if subs != [] {
      GatherNothing(subs[1..]);
    }
  }
}
