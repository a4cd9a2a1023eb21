/** Embedding a binary shader as a C++ array: padding, little-endian words, rows of eight hexadecimal
    literals; and a reader for such an array, which gives back the words and with them the file. */
module ShaderEmbed {
  import opened Wrappers

  type Byte = x: int | 0 <= x < 256

  const WORD := 0x1_0000_0000

  // ----- bytes and words -----

  function Zeros(n: nat): seq<Byte> { seq(n, _ => 0) }

  /** The little-endian value of up to four bytes. */
  function FromBytes(bytes: seq<Byte>): nat {
    if bytes == [] then 0 else bytes[0] + 256 * FromBytes(bytes[1..])
  }

  /** The n lowest bytes of a word, the lowest first. */
  function LowBytes(word: nat, n: nat): seq<Byte> {
    if n == 0 then [] else [word % 256] + LowBytes(word / 256, n - 1)
  }

  function ToBytes(word: nat): seq<Byte> { LowBytes(word, 4) }

  /** The bytes of a word list, as they lie in memory. */
  function Memory(words: seq<nat>): seq<Byte> {
    if words == [] then [] else Memory(words[..|words| - 1]) + ToBytes(words[|words| - 1])
  }

  ghost predicate AllWords(words: seq<nat>) { forall k | 0 <= k < |words| :: words[k] < WORD }

  lemma {:induction false} LowBytesOf(s: seq<Byte>)
    ensures LowBytes(FromBytes(s), |s|) == s
  {
    if s != [] {
      ByteOff(s[0], FromBytes(s[1..]));
      LowBytesOf(s[1..]);
      assert s == [s[0]] + s[1..];
    }
  }

  lemma ByteOff(b: int, q: int)
    requires 0 <= b < 256
    ensures (b + 256 * q) % 256 == b && (b + 256 * q) / 256 == q
  {
  }

  lemma FromBytesBound(s: seq<Byte>, bound: nat)
    requires s != [] ==> bound >= 256 && FromBytes(s[1..]) < bound / 256 && bound % 256 == 0
    requires s == [] ==> bound >= 1
    ensures FromBytes(s) < bound
  {
  }

  lemma FourBytes(s: seq<Byte>)
    requires |s| == 4
    ensures FromBytes(s) < WORD && ToBytes(FromBytes(s)) == s
  {
    hide FromBytes, LowBytes;
    LowBytesOf(s);
    FromBytesBound(s[4..], 1);
    assert s[3..][1..] == s[4..] && s[2..][1..] == s[3..] && s[1..][1..] == s[2..];
    FromBytesBound(s[3..], 0x100);
    FromBytesBound(s[2..], 0x1_0000);
    FromBytesBound(s[1..], 0x100_0000);
    FromBytesBound(s, WORD);
  }

  lemma MemoryMore(words: seq<nat>, w: nat)
    ensures Memory(words + [w]) == Memory(words) + ToBytes(w)
  {
    assert (words + [w])[..|words|] == words;
  }

  /** The file with zeros behind its end. */
  ghost function ByteAt(file: seq<Byte>, k: nat): int { if k < |file| then file[k] else 0 }

  /** Each word is made of four bytes of the file, the lowest first. */
  ghost predicate LittleEndian(file: seq<Byte>, words: seq<nat>) {
    forall k | 0 <= k < |words| ::
      words[k] == ByteAt(file, 4 * k) + 0x100 * ByteAt(file, 4 * k + 1) + 0x1_0000 * ByteAt(file, 4 * k + 2)
                  + 0x100_0000 * ByteAt(file, 4 * k + 3)
  }

  lemma FourBytesAre(s: seq<Byte>)
    requires |s| == 4
    ensures FromBytes(s) == ByteAt(s, 0) + 0x100 * ByteAt(s, 1) + 0x1_0000 * ByteAt(s, 2) + 0x100_0000 * ByteAt(s, 3)
  {
    assert FromBytes(s) == s[0] + 256 * FromBytes(s[1..]);
    assert FromBytes(s[1..]) == s[1] + 256 * FromBytes(s[1..][1..]) && s[1..][1..] == s[2..];
    assert FromBytes(s[2..]) == s[2] + 256 * FromBytes(s[2..][1..]) && s[2..][1..] == s[3..];
    assert FromBytes(s[3..]) == s[3] + 256 * FromBytes(s[3..][1..]) && s[3..][1..] == [];
  }

  lemma NoWords(file: seq<Byte>)
    ensures Memory([]) == [] && AllWords([]) && LittleEndian(file, [])
  {
  }

  lemma MoreWords(words: seq<nat>, w: nat)
    requires AllWords(words) && w < WORD
    ensures AllWords(words + [w])
  {
  }

  lemma NextWord(file: seq<Byte>, padding: nat, words: seq<nat>)
    requires LittleEndian(file, words) && 4 * |words| + 4 <= |file + Zeros(padding)|
    ensures var i := 4 * |words|; LittleEndian(file, words + [FromBytes((file + Zeros(padding))[i..i + 4])])
  {
    hide FromBytes;
    var i := 4 * |words|;
    FourBytesAre((file + Zeros(padding))[i..i + 4]);
  }

  /** The padding and packing loops. The words in memory are the file followed by fewer than four zero bytes. */
  method PackWords(file: seq<Byte>) returns (uint32_data: seq<nat>)
    ensures AllWords(uint32_data) && |uint32_data| == (|file| + 3) / 4
    ensures Memory(uint32_data) == file + Zeros(4 * |uint32_data| - |file|)
    ensures 0 <= 4 * |uint32_data| - |file| < 4 && LittleEndian(file, uint32_data)
  {
    hide FromBytes, ToBytes, Memory, AllWords, LittleEndian;
    var data := file;
    ghost var padded := 0;
    if |data| % 4 != 0 {
      var padding := 4 - |data| % 4;
      data := data + Zeros(padding);
      padded := padding;
    }
    assert data == file + Zeros(padded);
    NoWords(file);
    uint32_data := [];
    var i := 0;
    while i < |data|
      invariant 0 <= i <= |data| && i == 4 * |uint32_data| && |data| % 4 == 0
      invariant AllWords(uint32_data) && Memory(uint32_data) == data[..i] && LittleEndian(file, uint32_data)
    {
      var value := FromBytes(data[i..i + 4]);
      FourBytes(data[i..i + 4]);
      NextWord(file, padded, uint32_data);
      MoreWords(uint32_data, value);
      MemoryMore(uint32_data, value);
      assert data[..i + 4] == data[..i] + data[i..i + 4];
      uint32_data := uint32_data + [value];
      i := i + 4;
    }
    assert data[..i] == data;
    assert file + Zeros(0) == file;
  }

  // ----- hexadecimal literals -----

  predicate IsHex(c: char) { '0' <= c <= '9' || 'a' <= c <= 'f' }

  function HexDigit(n: nat): (c: char)
    requires n < 16
    ensures IsHex(c) && HexValue(c) == n
  {
    if n < 10 then '0' + n as char else 'a' + (n - 10) as char
  }

  function HexValue(c: char): nat {
    if '0' <= c <= '9' then c as nat - '0' as nat else if 'a' <= c <= 'f' then c as nat - 'a' as nat + 10 else 0
  }

  /** The lowest n hexadecimal digits. */
  function Digits(v: nat, n: nat): (s: string)
    ensures |s| == n && forall k | 0 <= k < n :: IsHex(s[k])
  {
    if n == 0 then "" else Digits(v / 16, n - 1) + [HexDigit(v % 16)]
  }

  function Value(s: string): nat {
    if s == "" then 0 else Value(s[..|s| - 1]) * 16 + HexValue(s[|s| - 1])
  }

  function Literal(v: nat): string { "0x" + Digits(v, 8) }

  function Power16(n: nat): (p: nat)
    ensures p >= 1
  {
    if n == 0 then 1 else 16 * Power16(n - 1)
  }

  lemma {:induction false} ValueOfDigits(v: nat, n: nat)
    requires v < Power16(n)
    ensures Value(Digits(v, n)) == v
  {
    if n > 0 {
      ValueOfDigits(v / 16, n - 1);
      var s := Digits(v, n);
      assert s[..|s| - 1] == Digits(v / 16, n - 1);
    }
  }

  lemma EightDigits(v: nat)
    requires v < WORD
    ensures Value(Digits(v, 8)) == v
  {
    assert Power16(4) == 0x1_0000;
    assert Power16(8) == WORD;
    ValueOfDigits(v, 8);
  }

  lemma HexDigitsAre(n: nat)
    requires n < 16
    ensures HexDigit(n) == "0123456789abcdef"[n]
  {
  }

  lemma {:induction false} DigitsAre(v: nat, n: nat, k: nat)
    requires k < n
    ensures Digits(v, n)[n - 1 - k] == HexDigit(v / Power16(k) % 16)
    decreases n
  {
    if k > 0 {
      DigitsAre(v / 16, n - 1, k - 1);
      QuotientOfQuotient(v, Power16(k - 1));
    }
  }

  lemma QuotientOfQuotient(v: nat, p: nat)
    requires p > 0
    ensures v / 16 / p == v / (16 * p)
  {
    var q, r := v / 16, v % 16;
    var a, b := q / p, q % p;
    assert v == 16 * (a * p + b) + r;
    assert v == (16 * p) * a + (16 * b + r);
    QuotientIs(v, 16 * p, a, 16 * b + r);
  }

  lemma QuotientIs(v: nat, d: nat, a: nat, r: nat)
    requires v == d * a + r && r < d
    ensures v / d == a
  {
    var q := v / d;
    if q < a {
      LessByOne(q, a, d);
    } else if q > a {
      LessByOne(a, q, d);
    }
  }

  lemma LessByOne(x: nat, y: nat, d: nat)
    requires x < y
    ensures d * x + d <= d * y
  {
    assert d * x + d == d * (x + 1);
  }

  /** A literal is `0x` and eight digits, the highest first. */
  lemma LiteralIs(v: nat, k: nat)
    requires k < 8
    ensures |Literal(v)| == 10 && Literal(v)[..2] == "0x" && Literal(v)[9 - k] == "0123456789abcdef"[v / Power16(k) % 16]
  {
    DigitsAre(v, 8, k);
    HexDigitsAre(v / Power16(k) % 16);
  }

  // ----- printing -----

  function JoinLiterals(row: seq<nat>): string {
    if row == [] then "" else if |row| == 1 then Literal(row[0]) else Literal(row[0]) + ", " + JoinLiterals(row[1..])
  }

  function RowEnd(words: seq<nat>, i: nat): nat { if i + 8 <= |words| then i + 8 else |words| }

  /** The rows from word i on. */
  function Rows(words: seq<nat>, i: nat): string
    decreases |words| - i
  {
    if i >= |words| then ""
    else
      "    " + JoinLiterals(words[i..RowEnd(words, i)]) + (if i + 8 < |words| then ",\n" else "\n") + Rows(words, i + 8)
  }

  /** The row loop, with the size the next line of the file states. */
  method WriteArray(uint32_data: seq<nat>) returns (text: string, size: nat)
    ensures text == Rows(uint32_data, 0) && size == |uint32_data|
  {
    text := "";
    var i := 0;
    while i < |uint32_data|
      invariant text + Rows(uint32_data, i) == Rows(uint32_data, 0)
      decreases |uint32_data| - i
    {
      var row := uint32_data[i..RowEnd(uint32_data, i)];
      var line := "    " + JoinLiterals(row) + if i + 8 < |uint32_data| then ",\n" else "\n";
      assert text + (line + Rows(uint32_data, i + 8)) == (text + line) + Rows(uint32_data, i + 8);
      text := text + line;
      i := i + 8;
    }
    size := |uint32_data|;
    assert text + "" == text;
  }

  // ----- reading an array -----

  function SkipSpaces(t: string): (r: string)
    ensures |r| <= |t|
  {
    if t != "" && (t[0] == ' ' || t[0] == '\n') then SkipSpaces(t[1..]) else t
  }

  function HexRun(t: string): (n: nat)
    ensures n <= |t|
  {
    if t != "" && IsHex(t[0]) then 1 + HexRun(t[1..]) else 0
  }

  /** One or more literals with exactly one comma between neighbours and none behind the last. */
  function ReadList(t: string): Option<seq<nat>>
    decreases |t|
  {
    if !(|t| >= 2 && t[..2] == "0x" && HexRun(t[2..]) > 0) then None
    else
      var n := HexRun(t[2..]);
      var v := Value(t[2..2 + n]);
      var rest := SkipSpaces(t[2 + n..]);
      if rest == "" then Some([v])
      else if rest[0] != ',' then None
      else
        var more := ReadList(SkipSpaces(rest[1..]));
        if more.None? then None else Some([v] + more.value)
  }

  /** The initializers between the braces of an array. */
  function Read(t: string): Option<seq<nat>> {
    var u := SkipSpaces(t);
    if u == "" then Some([]) else ReadList(u)
  }

  lemma {:induction false} HexRunIs(s: string, tail: string)
    requires forall k | 0 <= k < |s| :: IsHex(s[k])
    requires tail == "" || !IsHex(tail[0])
    ensures HexRun(s + tail) == |s|
    decreases |s|
  {
    if s == "" {
      assert s + tail == tail;
    } else {
      assert (s + tail)[1..] == s[1..] + tail;
      HexRunIs(s[1..], tail);
    }
  }

  /** Reading a literal and what stands behind it. */
  lemma ReadLiteral(v: nat, tail: string)
    requires v < WORD && (tail == "" || !IsHex(tail[0]))
    ensures var rest := SkipSpaces(tail);
            ReadList(Literal(v) + tail)
            == if rest == "" then Some([v])
               else if rest[0] != ',' then None
               else var more := ReadList(SkipSpaces(rest[1..])); if more.None? then None else Some([v] + more.value)
  {
    hide Digits, Value, SkipSpaces;
    var t, s := Literal(v) + tail, Digits(v, 8);
    assert t[..2] == "0x" && t[2..] == s + tail;
    HexRunIs(s, tail);
    assert t[2..10] == s && t[10..] == tail;
    EightDigits(v);
  }

  lemma SpaceThenLiteral(row: seq<nat>, tail: string)
    requires row != []
    ensures SkipSpaces(JoinLiterals(row) + tail) == JoinLiterals(row) + tail
    ensures JoinLiterals(row) + tail != ""
  {
    hide Digits;
    var t := JoinLiterals(row);
    assert t[0] == '0' by {
      assert Literal(row[0])[0] == '0';
    }
    assert (t + tail)[0] == t[0];
  }

  /** The list that follows a comma: a row of literals and what stands behind it. */
  lemma {:induction false} ReadRow(row: seq<nat>, tail: string, more: Option<seq<nat>>)
    requires row != [] && AllWords(row)
    requires (tail == "\n" && more == Some([])) || (tail != "" && tail[0] == ',' && more == ReadList(SkipSpaces(tail[1..])))
    ensures ReadList(JoinLiterals(row) + tail) == if more.None? then None else Some(row + more.value)
    decreases |row|
  {
    hide Literal, ReadList;
    if |row| == 1 {
      assert row == [row[0]];
      SkipTail(tail);
      ReadLiteral(row[0], tail);
      assert [row[0]] + [] == row;
    } else {
      var rest := row[1..];
      ReadRow(rest, tail, more);
      var behind := ", " + (JoinLiterals(rest) + tail);
      assert JoinLiterals(row) + tail == Literal(row[0]) + behind;
      SkipTail(behind);
      ReadLiteral(row[0], behind);
      SpaceThenLiteral(rest, tail);
      assert behind[1..][1..] == JoinLiterals(rest) + tail;
      assert SkipSpaces(behind[1..]) == JoinLiterals(rest) + tail by { SkipOne(behind[1..]); }
      if more.Some? {
        assert [row[0]] + (rest + more.value) == row + more.value;
      }
    }
  }

  lemma SkipOne(t: string)
    requires t != "" && t[0] == ' '
    ensures SkipSpaces(t) == SkipSpaces(t[1..])
  {
  }

  lemma SkipTail(tail: string)
    ensures tail == "\n" ==> SkipSpaces(tail) == ""
    ensures tail != "" && tail[0] == ',' ==> SkipSpaces(tail) == tail
  {
    if tail == "\n" {
      assert tail[1..] == "";
    }
  }

  lemma SkipMore(c: char, t: string)
    requires c == ' ' || c == '\n'
    ensures SkipSpaces([c] + t) == SkipSpaces(t)
  {
    assert ([c] + t)[1..] == t;
  }

  lemma SkipIndent(t: string)
    ensures SkipSpaces("    " + t) == SkipSpaces(t)
    ensures SkipSpaces("\n" + t) == SkipSpaces(t)
  {
    hide SkipSpaces;
    SkipMore(' ', t);
    SkipMore(' ', " " + t);
    SkipMore(' ', "  " + t);
    SkipMore(' ', "   " + t);
    assert " " + (" " + t) == "  " + t && " " + ("  " + t) == "   " + t && " " + ("   " + t) == "    " + t;
    SkipMore('\n', t);
  }

  lemma {:induction false} ReadRows(words: seq<nat>, i: nat)
    requires i < |words| && AllWords(words)
    ensures ReadList(SkipSpaces(Rows(words, i))) == Some(words[i..]) && SkipSpaces(Rows(words, i)) != ""
    decreases |words| - i
  {
    hide ReadList, JoinLiterals, SkipSpaces;
    var row := words[i..RowEnd(words, i)];
    if i + 8 < |words| {
      var next := Rows(words, i + 8);
      var tail := ",\n" + next;
      ReadRows(words, i + 8);
      assert Rows(words, i) == "    " + (JoinLiterals(row) + tail);
      SkipIndent(JoinLiterals(row) + tail);
      SpaceThenLiteral(row, tail);
      assert tail[1..] == "\n" + next;
      SkipIndent(next);
      ReadRow(row, tail, Some(words[i + 8..]));
      assert words[i..] == row + words[i + 8..];
    } else {
      LastRows(words, i);
      assert Rows(words, i) == "    " + (JoinLiterals(row) + "\n");
      SkipIndent(JoinLiterals(row) + "\n");
      SpaceThenLiteral(row, "\n");
      ReadRow(row, "\n", Some([]));
      assert words[i..] == row + [];
    }
  }

  lemma LastRows(words: seq<nat>, i: nat)
    requires i < |words| <= i + 8
    ensures Rows(words, i + 8) == "" && RowEnd(words, i) == |words|
  {
  }

  /** Reading a printed array gives back its words. */
  lemma ReadOfRows(words: seq<nat>)
    requires AllWords(words)
    ensures Read(Rows(words, 0)) == Some(words)
  {
    hide ReadList, SkipSpaces;
    if words == [] {
      assert SkipSpaces("") == "" by { SkipNothing(); }
    } else {
      ReadRows(words, 0);
      assert words[0..] == words;
    }
  }

  lemma SkipNothing()
    ensures SkipSpaces("") == ""
  {
  }

  /** From file to array and back: the array, read as C++ reads it, has the stated size, and in memory it is
      the file with fewer than four zero bytes behind it. */
  method EmbedShader(file: seq<Byte>) returns (text: string, size: nat)
    ensures var words := Read(text);
            && words.Some? && size == |words.value| && AllWords(words.value)
            && 0 <= 4 * size - |file| < 4 && Memory(words.value) == file + Zeros(4 * size - |file|)
  {
    hide Read, Rows, Memory;
    var uint32_data := PackWords(file);
    text, size := WriteArray(uint32_data);
    ReadOfRows(uint32_data);
  }
}
