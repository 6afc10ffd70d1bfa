/** The dashboard's textarea of filtering rules: one rule a line
    (dashboard/src/api.ts). */
module RuleText {
  import opened Wrappers

  predicate IsLineTerminator(c: char) {
    c in {'\n', '\r', '\U{2028}', '\U{2029}'}
  }

  /** What `trim` removes and `\s` matches. */
  predicate IsSpace(c: char) {
    || IsLineTerminator(c)
    || c in {'\t', '\U{000b}', '\U{000c}', ' ', '\U{00a0}', '\U{feff}', '\U{1680}', '\U{202f}', '\U{205f}', '\U{3000}'}
    || '\U{2000}' <= c <= '\U{200a}'
  }

  /** By their code points: 9 to 13, 32, 160, 5760, 8192 to 8202, 8232, 8233, 8239,
      8287, 12288 and 65279. */
  lemma SpaceCodes(c: char)
    ensures var n := c as int;
            && (IsLineTerminator(c) <==> n == 10 || n == 13 || n == 8232 || n == 8233)
            && (IsSpace(c) <==>
                  || 9 <= n <= 13 || n == 32 || n == 160 || n == 5760 || 8192 <= n <= 8202
                  || n == 8232 || n == 8233 || n == 8239 || n == 8287 || n == 12288 || n == 65279)
  {
  }

  datatype RowType = Allow | Block

  datatype Row = Row(typ: RowType, rule: string)

  function Name(t: RowType): string {
    if t.Allow? then "allow" else "block"
  }

  // Printing.

  function PrintRow(r: Row): string {
    Name(r.typ) + " " + r.rule
  }

  function Join(lines: seq<string>): string {
    if lines == [] then ""
    else if |lines| == 1 then lines[0]
    else lines[0] + "\n" + Join(lines[1..])
  }

  function PrintRows(rows: seq<Row>): seq<string> {
    seq(|rows|, i requires 0 <= i < |rows| => PrintRow(rows[i]))
  }

  function Print(rows: seq<Row>): string {
    Join(PrintRows(rows))
  }

  // Parsing.

  /** The place of the first line feed, or the length. */
  function LineFeed(s: string): (i: nat)
    ensures i <= |s| && '\n' !in s[..i] && (i < |s| ==> s[i] == '\n')
  {
    if s == "" || s[0] == '\n' then 0
    else
      assert s[..1 + LineFeed(s[1..])] == [s[0]] + s[1..][..LineFeed(s[1..])];
      1 + LineFeed(s[1..])
  }

  function Chomp(s: string): string {
    if s != "" && s[|s| - 1] == '\r' then s[..|s| - 1] else s
  }

  /** `split(/\r?\n/)`. */
  function Lines(s: string): seq<string> {
    var i := LineFeed(s);
    if i == |s| then [s] else [Chomp(s[..i])] + Lines(s[i + 1..])
  }

  function TrimLeft(s: string): string {
    if s != "" && IsSpace(s[0]) then TrimLeft(s[1..]) else s
  }

  function TrimRight(s: string): string {
    if s != "" && IsSpace(s[|s| - 1]) then TrimRight(s[..|s| - 1]) else s
  }

  function Trim(s: string): string {
    TrimRight(TrimLeft(s))
  }

  function LowerAscii(c: char): char {
    if 'A' <= c <= 'Z' then (c as int + 32) as char else c
  }

  predicate SameIgnoringCase(s: string, word: string) {
    |s| == |word| && forall i | 0 <= i < |s| :: LowerAscii(s[i]) == word[i]
  }

  /** The keyword at the start of a line, in any case. */
  function Keyword(line: string): Option<RowType> {
    if |line| < 5 then None
    else if SameIgnoringCase(line[..5], "allow") then Some(Allow)
    else if SameIgnoringCase(line[..5], "block") then Some(Block)
    else None
  }

  /** How many spaces a string starts with. */
  function Spaces(s: string): (n: nat)
    ensures n <= |s| && forall i | 0 <= i < n :: IsSpace(s[i])
    ensures n < |s| ==> !IsSpace(s[n])
  {
    if s != "" && IsSpace(s[0]) then 1 + Spaces(s[1..]) else 0
  }

  predicate OneLine(s: string) {
    forall c | c in s :: !IsLineTerminator(c)
  }

  /** `\s+(.+)$` after the keyword: the longest run of at most n spaces that
      leaves something for the rest of the pattern. */
  function Rest(s: string, n: nat): Option<string>
    requires n <= |s|
  {
    if n == 0 then None
    else if s[n..] != "" && OneLine(s[n..]) then Some(s[n..])
    else Rest(s, n - 1)
  }

  function ParseLine(line: string): Row {
    var fallback := Row(if |line| >= 2 && line[..2] == "@@" then Allow else Block, line);
    if Keyword(line).None? then fallback
    else
      var rest := Rest(line[5..], Spaces(line[5..]));
      if rest.None? then fallback else Row(Keyword(line).value, Trim(rest.value))
  }

  function ParseLines(lines: seq<string>): seq<Row> {
    if lines == [] then []
    else
      var line := Trim(lines[0]);
      (if line == "" then [] else [ParseLine(line)]) + ParseLines(lines[1..])
  }

  function Parse(value: string): seq<Row> {
    ParseLines(Lines(value))
  }

  // Proofs.

  predicate Trimmed(s: string) {
    s != "" && !IsSpace(s[0]) && !IsSpace(s[|s| - 1])
  }

  lemma {:induction false} TrimLeftParts(s: string)
    ensures TrimLeft(s) == "" || !IsSpace(TrimLeft(s)[0])
    ensures forall c :: c in TrimLeft(s) ==> c in s
    ensures TrimLeft(s) != "" ==> s != "" && TrimLeft(s)[|TrimLeft(s)| - 1] == s[|s| - 1]
  {
    if s != "" && IsSpace(s[0]) {
      TrimLeftParts(s[1..]);
    }
  }

  lemma {:induction false} TrimRightParts(s: string)
    ensures TrimRight(s) == "" || !IsSpace(TrimRight(s)[|TrimRight(s)| - 1])
    ensures forall c :: c in TrimRight(s) ==> c in s
    ensures TrimRight(s) != "" ==> s != "" && TrimRight(s)[0] == s[0]
  {
    if s != "" && IsSpace(s[|s| - 1]) {
      TrimRightParts(s[..|s| - 1]);
    }
  }

  lemma TrimParts(s: string)
    ensures Trim(s) == "" || Trimmed(Trim(s))
    ensures forall c :: c in Trim(s) ==> c in s
    ensures Trimmed(s) ==> Trim(s) == s
  {
    TrimLeftParts(s);
    TrimRightParts(TrimLeft(s));
  }

  /** Trimming cuts the spaces off both ends and nothing else. */
  lemma TrimCuts(s: string) returns (i: nat, j: nat)
    ensures i <= j <= |s| && Trim(s) == s[i..j] && (i == j || Trimmed(s[i..j]))
    ensures forall k :: 0 <= k < i || j <= k < |s| ==> IsSpace(s[k])
  {
    hide IsSpace;
    hide TrimLeft;
    hide TrimRight;
    i := TrimLeftCuts(s);
    var n := TrimRightCuts(s[i..]);
    j := i + n;
    assert s[i..][..n] == s[i..j];
    forall k | j <= k < |s| ensures IsSpace(s[k]) {
      assert s[k] == s[i..][k - i];
    }
    TrimParts(s);
  }

  lemma {:induction false} TrimLeftCuts(s: string) returns (i: nat)
    ensures i <= |s| && TrimLeft(s) == s[i..] && forall k :: 0 <= k < i ==> IsSpace(s[k])
  {
    i := 0;
    if s != "" && IsSpace(s[0]) {
      i := TrimLeftCuts(s[1..]);
      assert forall k :: 1 <= k < i + 1 ==> s[k] == s[1..][k - 1];
      i := i + 1;
    }
  }

  lemma {:induction false} TrimRightCuts(s: string) returns (j: nat)
    ensures j <= |s| && TrimRight(s) == s[..j] && forall k :: j <= k < |s| ==> IsSpace(s[k])
  {
    j := |s|;
    if s != "" && IsSpace(s[|s| - 1]) {
      j := TrimRightCuts(s[..|s| - 1]);
    }
  }

  /** Lines end at a line feed, or at a carriage return and a line feed. */
  lemma LinesSplit(a: string, b: string)
    requires '\n' !in a
    ensures Lines(a) == [a]
    ensures Lines(a + "\n" + b) == [if a != "" && a[|a| - 1] == '\r' then a[..|a| - 1] else a] + Lines(b)
  {
    FirstFeed(a, "");
    assert a + "" == a;
    FirstFeed(a, "\n" + b);
    var s := a + "\n" + b;
    assert s == a + ("\n" + b) && s[..|a|] == a && s[|a| + 1..] == b;
  }

  /** The text is parsed line by line: a line of spaces only makes no row, and any
      other makes the row of what trimming leaves of it. */
  lemma ParseSplit(a: string, b: string)
    requires '\n' !in a
    ensures Parse(a) == if Trim(a) == "" then [] else [ParseLine(Trim(a))]
    ensures Parse(a + "\n" + b) == Parse(a) + Parse(b)
  {
    hide ParseLine;
    hide Trim;
    hide Lines;
    LinesSplit(a, b);
    if a != "" && a[|a| - 1] == '\r' {
      TrimDropsReturn(a);
    }
    var (first, rest) := (if a != "" && a[|a| - 1] == '\r' then a[..|a| - 1] else a, Lines(b));
    assert ([first] + rest)[1..] == rest;
    assert ParseLines([a]) == (if Trim(a) == "" then [] else [ParseLine(Trim(a))]) + ParseLines([]);
  }

  lemma TrimDropsReturn(a: string)
    requires a != "" && a[|a| - 1] == '\r'
    ensures Trim(a[..|a| - 1]) == Trim(a)
  {
    var t := a[..|a| - 1];
    assert a == t + "\r";
    TrimLeftSnoc(t, '\r');
  }

  lemma {:induction false} TrimLeftSnoc(t: string, c: char)
    requires IsSpace(c)
    ensures TrimLeft(t + [c]) == if TrimLeft(t) == "" then "" else TrimLeft(t) + [c]
    ensures TrimRight(TrimLeft(t + [c])) == TrimRight(TrimLeft(t))
  {
    if t == "" {
      assert t + [c] == [c];
    } else {
      assert (t + [c])[1..] == t[1..] + [c];
      if IsSpace(t[0]) {
        TrimLeftSnoc(t[1..], c);
      } else {
        assert (t + [c])[..|t|] == t;
      }
    }
  }

  /** The line starts with the word, letter by letter in lower or upper case. */
  ghost predicate Spelled(line: string, lower: string, upper: string)
    requires |lower| == |upper|
  {
    |line| >= |lower| && forall i :: 0 <= i < |lower| ==> line[i] == lower[i] || line[i] == upper[i]
  }

  lemma KeywordSpelled(line: string)
    ensures Keyword(line) == Some(Allow) <==> Spelled(line, "allow", "ALLOW")
    ensures Keyword(line) == Some(Block) <==> Spelled(line, "block", "BLOCK")
    ensures Keyword(line).Some? <==> Spelled(line, "allow", "ALLOW") || Spelled(line, "block", "BLOCK")
  {
    SameSpelled(line, "allow", "ALLOW");
    SameSpelled(line, "block", "BLOCK");
    assert Spelled(line, "allow", "ALLOW") ==> line[0] == "allow"[0] || line[0] == "ALLOW"[0];
    assert Spelled(line, "block", "BLOCK") ==> line[0] == "block"[0] || line[0] == "BLOCK"[0];
  }

  lemma SameSpelled(line: string, lower: string, upper: string)
    requires |lower| == |upper|
    requires forall i :: 0 <= i < |lower| ==> 'a' <= lower[i] <= 'z' && upper[i] as int + 32 == lower[i] as int
    ensures Spelled(line, lower, upper) <==> |line| >= |lower| && SameIgnoringCase(line[..|lower|], lower)
  {
    if |line| >= |lower| {
      forall i | 0 <= i < |lower|
        ensures LowerAscii(line[i]) == lower[i] <==> line[i] == lower[i] || line[i] == upper[i]
      {
      }
    }
  }

  /** Without a keyword, or with one that no space follows, the whole line is the
      rule: an allowing one exactly if it starts with two at signs. */
  lemma ParseLineFallback(line: string)
    requires !(Spelled(line, "allow", "ALLOW") || Spelled(line, "block", "BLOCK")) || |line| == 5 || !IsSpace(line[5])
    ensures ParseLine(line) == Row(if |line| >= 2 && line[0] == '@' && line[1] == '@' then Allow else Block, line)
  {
    KeywordSpelled(line);
    hide Keyword;
    assert |line| >= 2 ==> line[..2] == [line[0], line[1]] && "@@" == ['@', '@'];
    assert |line| >= 5 && (|line| == 5 || !IsSpace(line[5])) ==> Spaces(line[5..]) == 0;
  }

  /** After a keyword and n spaces the rest is the rule, unless it has a line
      terminator inside; then again the whole line is. */
  lemma ParseLineKeyword(line: string, t: RowType, n: nat)
    requires Trimmed(line) && 0 < n && 5 + n < |line|
    requires if t.Allow? then Spelled(line, "allow", "ALLOW") else Spelled(line, "block", "BLOCK")
    requires !IsSpace(line[5 + n]) && forall i :: 5 <= i < 5 + n ==> IsSpace(line[i])
    ensures ParseLine(line) == if OneLine(line[5 + n..]) then Row(t, line[5 + n..]) else Row(Block, line)
  {
    hide IsSpace;
    hide Spelled;
    hide OneLine;
    hide Trim;
    hide ParseLine;
    SpelledIsKeyword(line, t);
    var s := line[5..];
    assert forall i :: 0 <= i < n ==> s[i] == line[5 + i];
    RestAfter(s, n);
    RuleTrimmed(line, 5 + n);
    ParseByKeyword(line, t, n);
    assert s[n..] == line[5 + n..];
  }

  lemma SpelledIsKeyword(line: string, t: RowType)
    requires if t.Allow? then Spelled(line, "allow", "ALLOW") else Spelled(line, "block", "BLOCK")
    ensures |line| >= 5 && Keyword(line) == Some(t) && line[..2] != "@@"
  {
    KeywordSpelled(line);
    hide Keyword;
    assert line[..2][0] != '@';
  }

  lemma RuleTrimmed(line: string, n: nat)
    requires Trimmed(line) && n < |line| && !IsSpace(line[n])
    ensures Trim(line[n..]) == line[n..]
  {
    hide IsSpace;
    TrimParts(line[n..]);
  }

  lemma ParseByKeyword(line: string, t: RowType, n: nat)
    requires |line| >= 5 && Keyword(line) == Some(t) && line[..2] != "@@" && Spaces(line[5..]) == n
    ensures ParseLine(line) == if Rest(line[5..], n).None? then Row(Block, line) else Row(t, Trim(Rest(line[5..], n).value))
  {
    hide Keyword;
    hide Spaces;
    hide Rest;
    hide Trim;
  }

  lemma RestAfter(s: string, n: nat)
    requires 0 < n < |s| && !IsSpace(s[n]) && forall i :: 0 <= i < n ==> IsSpace(s[i])
    ensures Spaces(s) == n && Rest(s, n) == if OneLine(s[n..]) then Some(s[n..]) else None
  {
    hide IsSpace;
    hide OneLine;
    SpacesAre(s, n);
    if !OneLine(s[n..]) {
      NoRest(s, n, n);
    }
  }

  lemma {:induction false} SpacesAre(s: string, n: nat)
    requires n < |s| && !IsSpace(s[n]) && forall i :: 0 <= i < n ==> IsSpace(s[i])
    ensures Spaces(s) == n
  {
    if n > 0 {
      SpacesAre(s[1..], n - 1);
    }
  }

  lemma {:induction false} NoRest(s: string, n: nat, m: nat)
    requires m <= n <= |s| && !OneLine(s[n..])
    ensures Rest(s, m).None?
  {
    if m > 0 {
      assert forall c :: c in s[n..] ==> c in s[m..];
      NoRest(s, n, m - 1);
    }
  }

  /** Splitting undoes joining for lines that a split could have made. */
  lemma {:induction false} LinesOfJoin(lines: seq<string>)
    requires lines != [] && forall l :: l in lines ==> '\n' !in l && Chomp(l) == l
    ensures Lines(Join(lines)) == lines
  {
    hide Chomp;
    hide LineFeed;
    var s, l := Join(lines), lines[0];
    FirstFeed(l, s[|l|..]);
    assert l + s[|l|..] == s;
    if |lines| > 1 {
      assert s[..|l|] == l && s[|l| + 1..] == Join(lines[1..]);
      assert forall x :: x in lines[1..] ==> x in lines;
      LinesOfJoin(lines[1..]);
      assert Lines(s) == [l] + lines[1..];
    }
  }

  lemma {:induction false} FirstFeed(l: string, rest: string)
    requires '\n' !in l && (rest != "" ==> rest[0] == '\n')
    ensures LineFeed(l + rest) == |l|
  {
    if l == "" {
      assert l + rest == rest;
    } else {
      assert (l + rest)[1..] == l[1..] + rest && l[0] in l;
      FirstFeed(l[1..], rest);
    }
  }

  lemma {:induction false} LinesHaveNoFeed(s: string)
    ensures forall l :: l in Lines(s) ==> '\n' !in l
  {
    var i := LineFeed(s);
    if i == |s| {
      assert s[..i] == s;
    } else {
      LinesHaveNoFeed(s[i + 1..]);
      assert forall c :: c in Chomp(s[..i]) ==> c in s[..i];
    }
  }

  /** What every row that parsing makes is like. */
  predicate Plain(r: Row) {
    Trimmed(r.rule) && '\n' !in r.rule
  }

  lemma {:induction false} RestParts(s: string, n: nat)
    requires n <= |s|
    ensures Rest(s, n).Some? ==> Rest(s, n).value != "" && OneLine(Rest(s, n).value)
    ensures Rest(s, n).Some? ==> Rest(s, n).value[|Rest(s, n).value| - 1] == s[|s| - 1]
  {
    if n > 0 && !(s[n..] != "" && OneLine(s[n..])) {
      RestParts(s, n - 1);
    }
  }

  lemma ParseLinePlain(line: string)
    requires Trimmed(line) && '\n' !in line
    ensures Plain(ParseLine(line))
  {
    if Keyword(line).Some? {
      var s := line[5..];
      RestParts(s, Spaces(s));
      var rest := Rest(s, Spaces(s));
      if rest.Some? {
        TrimParts(rest.value);
        TrimKeepsLast(rest.value);
      }
    }
  }

  /** A string that ends in something else than a space does not trim away. */
  lemma {:induction false} TrimKeepsLast(s: string)
    requires s != "" && !IsSpace(s[|s| - 1])
    ensures Trim(s) != ""
  {
    if IsSpace(s[0]) {
      TrimKeepsLast(s[1..]);
    }
  }

  lemma {:induction false} ParseLinesPlain(lines: seq<string>)
    requires forall l :: l in lines ==> '\n' !in l
    ensures forall r :: r in ParseLines(lines) ==> Plain(r)
  {
    if lines != [] {
      assert lines[0] in lines && forall l :: l in lines[1..] ==> l in lines;
      TrimParts(lines[0]);
      if Trim(lines[0]) != "" {
        ParseLinePlain(Trim(lines[0]));
      }
      ParseLinesPlain(lines[1..]);
    }
  }

  lemma PrintedParts(r: Row)
    ensures var line := PrintRow(r);
            && |line| == 6 + |r.rule| && line[..5] == Name(r.typ) && line[5..] == " " + r.rule
  {
  }

  /** A printed row is a line that trimming and splitting leave as it is. */
  lemma PrintedTrimmed(r: Row)
    requires Plain(r)
    ensures Trimmed(PrintRow(r)) && '\n' !in PrintRow(r) && Chomp(PrintRow(r)) == PrintRow(r)
  {
    var line := PrintRow(r);
    PrintedParts(r);
    assert line[|line| - 1] == r.rule[|r.rule| - 1] && line[0] == Name(r.typ)[0];
  }

  /** Its keyword is recognised, and it is not mistaken for an exception rule. */
  lemma PrintedKeyword(r: Row)
    ensures Keyword(PrintRow(r)) == Some(r.typ) && PrintRow(r)[..2] != "@@"
  {
    PrintedParts(r);
    hide PrintRow;
    var line := PrintRow(r);
    assert line[..2][0] == line[..5][0];
  }

  /** A printed row parses back to itself, unless its rule has a line terminator
      inside: then the whole printed line becomes the rule of a blocking row. */
  lemma ParsePrintedRow(r: Row)
    requires Plain(r)
    ensures Trimmed(PrintRow(r)) && '\n' !in PrintRow(r) && Chomp(PrintRow(r)) == PrintRow(r)
    ensures ParseLine(PrintRow(r)) == if OneLine(r.rule) then r else Row(Block, PrintRow(r))
  {
    PrintedParts(r);
    PrintedTrimmed(r);
    PrintedKeyword(r);
    AfterOneSpace(r.rule);
    TrimParts(r.rule);
    hide PrintRow;
    hide Keyword;
    hide Rest;
    hide Spaces;
    hide Trim;
    hide Chomp;
    hide Trimmed;
    hide OneLine;
  }

  lemma AfterOneSpace(rule: string)
    requires Trimmed(rule)
    ensures Spaces(" " + rule) == 1
    ensures Rest(" " + rule, 1) == if OneLine(rule) then Some(rule) else None
  {
  }

  lemma {:induction false} ParseManyPrinted(rows: seq<Row>)
    requires forall r :: r in rows ==> Plain(r)
    ensures |ParseLines(PrintRows(rows))| == |rows|
    ensures forall i :: 0 <= i < |rows| ==> ParseLines(PrintRows(rows))[i] == ParseLine(PrintRow(rows[i]))
  {
    hide PrintRow;
    hide ParseLine;
    hide Trim;
    hide Plain;
    hide Chomp;
    if rows != [] {
      assert rows[0] in rows && forall r :: r in rows[1..] ==> r in rows;
      ParsePrintedRow(rows[0]);
      TrimParts(PrintRow(rows[0]));
      assert PrintRows(rows)[1..] == PrintRows(rows[1..]);
      ParseManyPrinted(rows[1..]);
    }
  }

  /** Parsing a printed list is parsing each printed row. */
  lemma ParsePrinted(rows: seq<Row>)
    requires forall r :: r in rows ==> Plain(r)
    ensures |Parse(Print(rows))| == |rows|
    ensures forall i :: 0 <= i < |rows| ==> Parse(Print(rows))[i] == ParseLine(PrintRow(rows[i]))
    ensures rows != [] ==> Lines(Print(rows)) == PrintRows(rows)
  {
    if rows == [] {
      assert Lines("") == [""] && ParseLines([""]) == [] + ParseLines([]);
    } else {
      forall l | l in PrintRows(rows) ensures '\n' !in l && Chomp(l) == l {
        var i :| 0 <= i < |rows| && PrintRows(rows)[i] == l;
        ParsePrintedRow(rows[i]);
      }
      LinesOfJoin(PrintRows(rows));
      ParseManyPrinted(rows);
    }
  }

  /** Parsing undoes printing for every list of rules that are trimmed, not empty
      and free of line terminators. */
  lemma ParseAfterPrint(rows: seq<Row>)
    requires forall r :: r in rows ==> Trimmed(r.rule) && OneLine(r.rule)
    ensures Parse(Print(rows)) == rows
  {
    assert IsLineTerminator('\n');
    ParsePrinted(rows);
    forall i | 0 <= i < |rows| ensures Parse(Print(rows))[i] == rows[i] {
      ParsePrintedRow(rows[i]);
    }
  }

  function Normalized(value: string): string {
    Print(Parse(value))
  }

  lemma ParsePlain(value: string)
    ensures forall r :: r in Parse(value) ==> Plain(r)
  {
    LinesHaveNoFeed(value);
    ParseLinesPlain(Lines(value));
  }

  /** Normalizing a text twice is normalizing it once exactly if no rule in it
      has a line terminator inside: a lone carriage return, U+2028 or U+2029. */
  lemma NormalizedTwice(value: string)
    ensures Normalized(Normalized(value)) == Normalized(value) <==> forall r :: r in Parse(value) ==> OneLine(r.rule)
  {
    hide Trim;
    hide OneLine;
    hide Parse;
    hide ParseLine;
    hide Lines;
    hide Join;
    var rows := Parse(value);
    ParsePlain(value);
    ParsePrinted(rows);
    if forall r :: r in rows ==> OneLine(r.rule) {
      ParseAfterPrint(rows);
    } else {
      var rows' := Parse(Print(rows));
      var i :| 0 <= i < |rows| && !OneLine(rows[i].rule);
      forall j | 0 <= j < |rows| ensures Plain(rows'[j]) {
        ParsePrintedRow(rows[j]);
      }
      ParsePrintedRow(rows[i]);
      ParsePrinted(rows');
      assert PrintRows(rows')[i] == PrintRow(rows'[i]) && PrintRows(rows)[i] == PrintRow(rows[i]);
      assert |PrintRow(rows'[i])| > |PrintRow(rows[i])|;
    }
  }

  /** A rule with a line terminator inside gains a word each time it is saved. */
  lemma TerminatorGrows(r: Row)
    requires Plain(r) && !OneLine(r.rule)
    ensures Parse(Print([r])) == [Row(Block, Name(r.typ) + " " + r.rule)]
    ensures Normalized(Print([r])) == "block " + Print([r])
  {
    var r' := Row(Block, PrintRow(r));
    ParsePrintedRow(r);
    ParsePrinted([r]);
    assert PrintRows([r]) == [PrintRow(r)] && PrintRows([r']) == [PrintRow(r')];
  }

  /** A trimmed text of one line is one row. */
  lemma ParseOneLine(v: string)
    requires Trimmed(v) && '\n' !in v
    ensures Parse(v) == [ParseLine(v)]
  {
    LinesOfJoin([v]);
    TrimParts(v);
    hide Lines;
    hide Trim;
    hide ParseLine;
    assert Lines(v) == [v];
    assert ParseLines([v]) == [ParseLine(v)] + ParseLines([]);
  }

  /** Such a rule: two letters and a lone carriage return between them. */
  lemma LoneCarriageReturn()
    ensures Parse("a\rb") == [Row(Block, "a\rb")]
    ensures Plain(Row(Block, "a\rb")) && !OneLine("a\rb")
  {
    var v := "a\rb";
    ParseOneLine(v);
    hide Parse;
    assert v[1] in v && IsLineTerminator('\r');
  }
}
