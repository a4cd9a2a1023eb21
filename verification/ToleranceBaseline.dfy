/** The tolerance baseline: which tokens a baseline file holds, what an update writes, and when the strict
    and the clean gate let a scan pass. */
module ToleranceBaseline {
  import opened PythonText

  datatype File = Missing | Present(text: string)

  // ----- the file format -----

  /** The lines of a text, as `splitlines` cuts them, for the line that starts at `start`. */
  function LinesFrom(t: string, start: nat, i: nat): seq<string>
    requires start <= i <= |t|
    decreases |t| - i
  {
    if i == |t| then if start == i then [] else [t[start..i]]
    else if IsBreak(t[i]) then
      var next := if t[i] == '\r' && i + 1 < |t| && t[i + 1] == '\n' then i + 2 else i + 1;
      [t[start..i]] + LinesFrom(t, next, next)
    else LinesFrom(t, start, i + 1)
  }

  predicate Kept(line: string) {
    Strip(line) != "" && Strip(line)[0] != '#'
  }

  function TokensIn(lines: seq<string>): set<string> {
    set line | line in lines && Kept(line) :: Strip(line)
  }

  /** The token set of a baseline file. */
  function Loaded(file: File): set<string> {
    if file.Missing? then {} else TokensIn(LinesFrom(file.text, 0, 0))
  }

  /** The loop of the original. */
  method LoadBaseline(file: File) returns (tokens: set<string>)
    ensures tokens == Loaded(file)
  {
    tokens := {};
    if file.Missing? {
      return;
    }
    var lines := LinesFrom(file.text, 0, 0);
    for i := 0 to |lines|
      invariant tokens == TokensIn(lines[..i])
    {
      var line := Strip(lines[i]);
      assert lines[..i + 1] == lines[..i] + [lines[i]];
      if line == "" || line[0] == '#' {
        continue;
      }
      tokens := tokens + {line};
    }
    assert lines[..|lines|] == lines;
  }

  function JoinLines(lines: seq<string>): string {
    if lines == [] then "" else if |lines| == 1 then lines[0] else lines[0] + "\n" + JoinLines(lines[1..])
  }

  /** What an update writes: the comment lines, then the tokens in some order. */
  function Written(header: seq<string>, tokens: seq<string>): string {
    Unlines(header) + JoinLines(tokens) + "\n"
  }

  function Unlines(lines: seq<string>): string {
    if lines == [] then "" else lines[0] + "\n" + Unlines(lines[1..])
  }

  ghost predicate SingleLine(s: string) {
    forall c | c in s :: !IsBreak(c)
  }

  /** A token that survives the file format. */
  ghost predicate Clean(token: string) {
    token != "" && !IsSpace(token[0]) && !IsSpace(token[|token| - 1]) && token[0] != '#' && SingleLine(token)
  }

  ghost predicate IsComment(line: string) {
    line != "" && line[0] == '#' && SingleLine(line)
  }

  ghost function Elements(s: seq<string>): set<string> { set x | x in s }

  lemma {:induction false} LinesAreSingle(t: string, start: nat, i: nat)
    requires start <= i <= |t| && SingleLine(t[start..i])
    ensures forall line | line in LinesFrom(t, start, i) :: SingleLine(line)
    decreases |t| - i
  {
    hide IsBreak;
    if i < |t| {
      if IsBreak(t[i]) {
        var next := if t[i] == '\r' && i + 1 < |t| && t[i + 1] == '\n' then i + 2 else i + 1;
        LinesAreSingle(t, next, next);
      } else {
        assert t[start..i + 1] == t[start..i] + [t[i]];
        LinesAreSingle(t, start, i + 1);
      }
    }
  }

  /** Whatever a file contains, the tokens read from it are clean. */
  lemma LoadedAreClean(file: File)
    ensures forall token | token in Loaded(file) :: Clean(token)
  {
    hide IsBreak, IsSpace, Strip, LinesFrom;
    if file.Present? {
      var lines := LinesFrom(file.text, 0, 0);
      assert file.text[0..0] == "";
      LinesAreSingle(file.text, 0, 0);
      forall token | token in Loaded(file) ensures Clean(token) {
        var line :| line in lines && Kept(line) && Strip(line) == token;
        StripIsClean(line);
      }
    }
  }

  lemma StripIsClean(line: string)
    requires SingleLine(line) && Kept(line)
    ensures Clean(Strip(line))
  {
    hide IsBreak, IsSpace, Strip;
  }

  lemma {:induction false} ReadOneLine(t: string, start: nat, i: nat, e: nat)
    requires start <= i <= e < |t| && t[e] == '\n' && forall k | i <= k < e :: !IsBreak(t[k])
    ensures LinesFrom(t, start, i) == [t[start..e]] + LinesFrom(t, e + 1, e + 1)
    decreases e - i
  {
    if i < e {
      ReadOneLine(t, start, i + 1, e);
    }
  }

  lemma {:induction false} LinesOfUnlines(t: string, start: nat, lines: seq<string>)
    requires start <= |t| && t[start..] == Unlines(lines) && forall line | line in lines :: SingleLine(line)
    ensures LinesFrom(t, start, start) == lines
    decreases |lines|
  {
    hide IsBreak, LinesFrom;
    if lines == [] {
      NoMoreLines(t);
    } else {
      var e := start + |lines[0]|;
      assert t[start..e] == t[start..][..|lines[0]|] == lines[0];
      assert t[e] == t[start..][|lines[0]|] == '\n';
      assert t[e + 1..] == t[start..][|lines[0]| + 1..] == Unlines(lines[1..]);
      forall k | start <= k < e ensures !IsBreak(t[k]) {
        assert t[k] == lines[0][k - start];
        assert SingleLine(lines[0]) && t[k] in lines[0];
      }
      ReadOneLine(t, start, start, e);
      LinesOfUnlines(t, e + 1, lines[1..]);
    }
  }

  lemma NoMoreLines(t: string)
    ensures LinesFrom(t, |t|, |t|) == []
  {
  }

  lemma {:induction false} UnlinesAppend(a: seq<string>, b: seq<string>)
    ensures Unlines(a + b) == Unlines(a) + Unlines(b)
    decreases |a|
  {
    if a == [] {
      assert a + b == b;
    } else {
      assert (a + b)[1..] == a[1..] + b;
      UnlinesAppend(a[1..], b);
    }
  }

  lemma {:induction false} JoinIsUnlines(lines: seq<string>)
    ensures JoinLines(lines) + "\n" == Unlines(if lines == [] then [""] else lines)
    decreases |lines|
  {
    if |lines| > 1 {
      JoinIsUnlines(lines[1..]);
    } else if |lines| == 1 {
      assert lines[1..] == [];
    } else {
      assert [""][1..] == [];
    }
  }

  lemma CleanIsKept(token: string)
    requires Clean(token)
    ensures Kept(token) && Strip(token) == token
  {
    hide IsSpace, Strip;
  }

  lemma CommentIsDropped(line: string)
    requires IsComment(line)
    ensures !Kept(line)
  {
    assert !IsSpace(line[0]);
    if Strip(line) != "" {
      StripKeepsFirst(line);
    }
  }

  lemma StripKeepsFirst(line: string)
    requires line != "" && !IsSpace(line[0]) && Strip(line) != ""
    ensures Strip(line)[0] == line[0]
  {
  }

  /** Reading a written baseline gives back exactly the tokens, in whatever order they were written, if and
      only if every token is clean. */
  lemma WrittenIsLoaded(header: seq<string>, tokens: seq<string>)
    requires forall line | line in header :: IsComment(line)
    ensures Loaded(Present(Written(header, tokens))) == Elements(tokens) <==> forall token | token in tokens :: Clean(token)
  {
    hide IsBreak, IsSpace, Strip, LinesFrom, Kept, Clean, IsComment;
    var t := Written(header, tokens);
    if forall token | token in tokens :: Clean(token) {
      var all := header + if tokens == [] then [""] else tokens;
      JoinIsUnlines(tokens);
      UnlinesAppend(header, if tokens == [] then [""] else tokens);
      assert Unlines(header) + (JoinLines(tokens) + "\n") == t;
      AllSingle(header, tokens);
      assert t[0..] == t;
      LinesOfUnlines(t, 0, all);
      TokensOfLines(header, tokens);
    } else {
      LoadedAreClean(Present(t));
    }
  }

  lemma AllSingle(header: seq<string>, tokens: seq<string>)
    requires forall line | line in header :: IsComment(line)
    requires forall token | token in tokens :: Clean(token)
    ensures forall line | line in header + if tokens == [] then [""] else tokens :: SingleLine(line)
  {
    hide IsBreak, IsSpace;
  }

  lemma TokensOfLines(header: seq<string>, tokens: seq<string>)
    requires forall line | line in header :: IsComment(line)
    requires forall token | token in tokens :: Clean(token)
    ensures TokensIn(header + if tokens == [] then [""] else tokens) == Elements(tokens)
  {
    hide IsBreak, IsSpace, Strip, Clean, IsComment, Kept;
    var all := header + if tokens == [] then [""] else tokens;
    forall line | line in header ensures !Kept(line) {
      CommentIsDropped(line);
    }
    assert !Kept("") by { EmptyIsDropped(); }
    forall token | token in tokens ensures Kept(token) && Strip(token) == token && token in all {
      CleanIsKept(token);
    }
    forall line | line in all && Kept(line) ensures line in tokens {
    }
  }

  lemma EmptyIsDropped()
    ensures !Kept("")
  {
  }

  // ----- violation tokens -----

  function ViolationToken(path: string, test: string, value: string): string {
    path + "|" + test + "|" + value
  }

  /** A formatted value has at least one character and no space; then a token is clean exactly if its path
      and test name are on one line and the path starts with neither space nor a comment sign. */
  lemma ViolationTokenIsClean(path: string, test: string, value: string)
    requires value != "" && forall c | c in value :: !IsSpace(c)
    ensures Clean(ViolationToken(path, test, value))
            <==> SingleLine(path) && SingleLine(test) && (path != "" ==> !IsSpace(path[0]) && path[0] != '#')
  {
    var t := ViolationToken(path, test, value);
    var n, m := |path|, |path| + 1 + |test|;
    assert t[|t| - 1] == value[|value| - 1] && t[0] == if path == "" then '|' else path[0];
    assert forall c | c in value :: !IsBreak(c);
    hide IsSpace;
    assert !IsBreak('|');
    hide IsBreak;
    TokenChars(path, test, value);
  }

  lemma TokenChars(path: string, test: string, value: string)
    ensures forall c :: c in ViolationToken(path, test, value) <==> c in path || c in test || c in value || c == '|'
  {
    assert '|' in "|";
  }

  /** Different violations have different tokens, unless a test name or a value holds a bar. */
  lemma ViolationTokenIsInjective(path: string, test: string, value: string, path': string, test': string, value': string)
    requires '|' !in test && '|' !in value && '|' !in test' && '|' !in value'
    requires ViolationToken(path, test, value) == ViolationToken(path', test', value')
    ensures path == path' && test == test' && value == value'
  {
    BarSplits(path + "|" + test, value, path' + "|" + test', value');
    BarSplits(path, test, path', test');
  }

  lemma BarSplits(a: string, b: string, a': string, b': string)
    requires '|' !in b && '|' !in b' && a + "|" + b == a' + "|" + b'
    ensures a == a' && b == b'
  {
    var t := a + "|" + b;
    LastBar(a, b);
    LastBar(a', b');
    assert a == t[..|a|] && b == t[|a| + 1..] && a' == t[..|a'|] && b' == t[|a'| + 1..];
  }

  lemma LastBar(a: string, b: string)
    requires '|' !in b
    ensures var t := a + "|" + b; t[|a|] == '|' && forall k | |a| < k < |t| :: t[k] != '|'
  {
    var t := a + "|" + b;
    assert forall k | |a| < k < |t| :: t[k] == b[k - |a| - 1];
  }

  // ----- the gates -----

  datatype Flags = Flags(update: bool, clean: bool, strict: bool)

  method Listing(tokens: set<string>) returns (listing: seq<string>)
    ensures Elements(listing) == tokens && |listing| == |tokens|
  {
    listing := [];
    var rest := tokens;
    while rest != {}
      invariant rest <= tokens && Elements(listing) == tokens - rest && |listing| == |tokens| - |rest|
      decreases rest
    {
      var token :| token in rest;
      assert Elements(listing + [token]) == Elements(listing) + {token};
      listing, rest := listing + [token], rest - {token};
    }
  }

  lemma EmptyDifference(a: set<string>, b: set<string>)
    ensures a - b == {} <==> a <= b
  {
    if a - b == {} {
      forall x | x in a ensures x in b {
        assert x !in a - b;
      }
    }
  }

  /** The exit code and the baseline file after one run, for the tokens of the violations found. The clean gate asks
      that every token of the baseline is still a violation, the strict gate that every violation is in the baseline. */
  method Audit(rootExists: bool, flags: Flags, violations: seq<string>, file: File, header: seq<string>)
    returns (code: int, file': File)
    ensures !rootExists ==> code == 2 && file' == file
    ensures rootExists && flags.update ==>
              code == 0 && exists listing :: Elements(listing) == Elements(violations)
                                             && |listing| == |Elements(violations)|
                                             && file' == Present(Written(header, listing))
    ensures rootExists && !flags.update ==>
              && file' == file && (code == 0 || code == 1)
              && (code == 0 <==>
                    && (flags.clean ==> forall token | token in Loaded(file) :: token in violations)
                    && (flags.strict ==> forall v | v in violations :: v in Loaded(file)))
  {
    file' := file;
    if !rootExists {
      return 2, file;
    }
    var current := set v | v in violations;
    if flags.update {
      var listing := Listing(current);
      return 0, Present(Written(header, listing));
    }
    if flags.clean {
      var baseline := LoadBaseline(file);
      var stale := baseline - current;
      EmptyDifference(baseline, current);
      if stale != {} {
        return 1, file;
      }
      if !flags.strict {
        return 0, file;
      }
    }
    if violations == [] {
      return 0, file;
    }
    if flags.strict {
      var baseline := LoadBaseline(file);
      var new_violations := current - baseline;
      EmptyDifference(current, baseline);
      if new_violations != {} {
        return 1, file;
      }
      return 0, file;
    }
    code := 0;
  }

  /** Right after an update, the strict and the clean gate both pass exactly if the tokens are clean. */
  lemma UpdateThenBothGates(header: seq<string>, listing: seq<string>)
    requires forall line | line in header :: IsComment(line)
    ensures var baseline := Loaded(Present(Written(header, listing)));
            (forall token | token in baseline :: token in listing) && (forall v | v in listing :: v in baseline)
            <==> forall token | token in listing :: Clean(token)
  {
    hide Loaded, Written, Clean, IsComment;
    WrittenIsLoaded(header, listing);
    SameElements(Loaded(Present(Written(header, listing))), listing);
  }

  lemma SameElements(tokens: set<string>, listing: seq<string>)
    ensures tokens == Elements(listing) <==>
            (forall token | token in tokens :: token in listing) && forall v | v in listing :: v in tokens
  {
    if (forall token | token in tokens :: token in listing) && forall v | v in listing :: v in tokens {
      assert forall x :: x in tokens <==> x in Elements(listing);
    }
  }

  /** Rewriting a baseline from what was read from it changes nothing. */
  lemma BaselineIsStable(file: File, header: seq<string>, listing: seq<string>)
    requires forall line | line in header :: IsComment(line)
    requires Elements(listing) == Loaded(file)
    ensures Loaded(Present(Written(header, listing))) == Loaded(file)
  {
    hide Loaded, Written, Clean, IsComment;
    LoadedAreClean(file);
    assert forall token | token in listing :: token in Elements(listing);
    WrittenIsLoaded(header, listing);
  }
}
