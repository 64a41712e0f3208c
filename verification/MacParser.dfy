/** The MAC address parser for switch output: normalised addresses and the Cisco address table.  A text is
    read line by line. */
module MacParser {
  import opened Options
  import opened Scanning

  // ---------- addresses ----------

  function Lower(c: char): char {
    if 'A' <= c <= 'Z' then (c as int + 32) as char else c
  }

  function LowerAll(s: string): string {
    seq(|s|, i requires 0 <= i < |s| => Lower(s[i]))
  }

  const UPPER := "ABCDEFGHIJKLMNOPQRSTUVWXYZ"
  const LOWER := "abcdefghijklmnopqrstuvwxyz"

  /** Every capital becomes the small letter at its place in the alphabet, and nothing else changes. */
  lemma LowerByAlphabet(c: char, i: nat)
    ensures i < 26 ==> Lower(UPPER[i]) == LOWER[i]
    ensures c !in UPPER ==> Lower(c) == c
  {
    if 'A' <= c <= 'Z' {
      assert UPPER[c as int - 'A' as int] == c;
    }
  }

  /** raw.replace(/[^0-9a-fA-F]/g, '').toLowerCase() */
  function HexDigits(raw: string): string {
    if raw == "" then "" else HexDigit(raw[0]) + HexDigits(raw[1..])
  }

  function HexDigit(c: char): string {
    if IsHex(c) then [Lower(c)] else ""
  }

  /** The pairs of d with colons between them. */
  function Colons(d: string): string {
    if |d| <= 2 then d else d[..2] + ":" + Colons(d[2..])
  }

  function NormalizeMac(raw: string): string {
    var cleaned := HexDigits(raw);
    if |cleaned| != 12 then "" else Colons(cleaned)
  }

  predicate StartsWith(s: string, prefix: string) {
    prefix <= s
  }

  predicate IsUsableMac(mac: string) {
    && mac != "" && mac != "00:00:00:00:00:00" && mac != "ff:ff:ff:ff:ff:ff"
    && !StartsWith(mac, "01:00:5e:") && !StartsWith(mac, "33:33:") && !StartsWith(mac, "01:80:c2:")
  }

  predicate IsLowerHex(c: char) { IsDigit(c) || 'a' <= c <= 'f' }

  lemma {:induction false} HexDigitsAreLowerHex(raw: string)
    ensures All(HexDigits(raw), IsLowerHex)
  {
    if raw != "" { HexDigitsAreLowerHex(raw[1..]); }
  }

  lemma {:induction false} HexDigitsConcat(a: string, b: string)
    ensures HexDigits(a + b) == HexDigits(a) + HexDigits(b)
  {
    if a == "" {
      assert a + b == b;
    } else {
      hide HexDigit;
      assert (a + b)[1..] == a[1..] + b;
      HexDigitsConcat(a[1..], b);
    }
  }

  lemma {:induction false} HexDigitsOfClean(d: string)
    requires All(d, IsLowerHex)
    ensures HexDigits(d) == d
  {
    if d != "" {
      HexDigitsOfClean(d[1..]);
      assert [d[0]] + d[1..] == d;
    }
  }

  lemma ColonHidden(rest: string)
    ensures HexDigits(":" + rest) == HexDigits(rest)
  {
    assert (":" + rest)[1..] == rest;
  }

  /** Colons neither add nor hide digits. */
  lemma {:induction false} HexDigitsOfColons(d: string)
    requires All(d, IsLowerHex)
    ensures HexDigits(Colons(d)) == d
  {
    hide HexDigits;
    if |d| <= 2 {
      HexDigitsOfClean(d);
    } else {
      var rest := Colons(d[2..]);
      HexDigitsOfColons(d[2..]);
      HexDigitsOfClean(d[..2]);
      HexDigitsConcat(d[..2], ":" + rest);
      ColonHidden(rest);
      assert d[..2] + ":" + rest == d[..2] + (":" + rest);
      assert d[..2] + d[2..] == d;
    }
  }

  lemma NormalizeMacIdempotent(raw: string)
    ensures NormalizeMac(NormalizeMac(raw)) == NormalizeMac(raw)
  {
    HexDigitsAreLowerHex(raw);
    if |HexDigits(raw)| == 12 { HexDigitsOfColons(HexDigits(raw)); }
  }

  /** Two spellings get one address exactly when their hex digits agree but for case, or neither has twelve. */
  lemma NormalizeMacSeesDigits(a: string, b: string)
    ensures NormalizeMac(a) == NormalizeMac(b) <==>
              HexDigits(a) == HexDigits(b) || (|HexDigits(a)| != 12 && |HexDigits(b)| != 12)
  {
    hide Colons;
    HexDigitsAreLowerHex(a);
    HexDigitsAreLowerHex(b);
    if |HexDigits(a)| == 12 { HexDigitsOfColons(HexDigits(a)); }
    if |HexDigits(b)| == 12 { HexDigitsOfColons(HexDigits(b)); }
  }

  /** A colon at every third place, the digits in order at the others. */
  lemma {:induction false} ColonsAt(d: string)
    requires |d| >= 2 && |d| % 2 == 0
    ensures |Colons(d)| == |d| + |d| / 2 - 1
    ensures forall i :: 0 <= i < |Colons(d)| ==> Colons(d)[i] == if i % 3 == 2 then ':' else d[i - i / 3]
  {
    if |d| > 2 {
      ColonsAt(d[2..]);
      forall i | 0 <= i < |Colons(d)| ensures Colons(d)[i] == if i % 3 == 2 then ':' else d[i - i / 3] {
        if i >= 3 {
          assert Colons(d)[i] == Colons(d[2..])[i - 3];
          assert (i - 3) / 3 == i / 3 - 1 && (i - 3) % 3 == i % 3;
        }
      }
    }
  }

  /** Usable addresses are all but zero, broadcast and the three group blocks, read off the digits. */
  lemma UsableByDigits(d: string)
    requires |d| == 12
    ensures IsUsableMac(Colons(d)) <==>
              && d != "000000000000" && d != "ffffffffffff"
              && !StartsWith(d, "01005e") && !StartsWith(d, "3333") && !StartsWith(d, "0180c2")
  {
    hide Colons, StartsWith;
    ColonsAt(d);
    ZeroSpelled(d);
    BroadcastSpelled(d);
    GroupsSpelled(d);
  }

  lemma ZeroSpelled(d: string)
    requires |d| == 12
    ensures Colons(d) == "00:00:00:00:00:00" <==> d == "000000000000"
  {
    hide Colons;
    SpelledBy(d, "000000000000", "00:00:00:00:00:00");
  }

  lemma BroadcastSpelled(d: string)
    requires |d| == 12
    ensures Colons(d) == "ff:ff:ff:ff:ff:ff" <==> d == "ffffffffffff"
  {
    hide Colons;
    SpelledBy(d, "ffffffffffff", "ff:ff:ff:ff:ff:ff");
  }

  lemma GroupsSpelled(d: string)
    requires |d| == 12
    ensures StartsWith(Colons(d), "01:00:5e:") <==> StartsWith(d, "01005e")
    ensures StartsWith(Colons(d), "33:33:") <==> StartsWith(d, "3333")
    ensures StartsWith(Colons(d), "01:80:c2:") <==> StartsWith(d, "0180c2")
  {
    hide Colons, StartsWith;
    PrefixSpelledBy(d, "01005e", "01:00:5e:");
    PrefixSpelledBy(d, "3333", "33:33:");
    PrefixSpelledBy(d, "0180c2", "01:80:c2:");
  }

  lemma SpelledBy(d: string, digits: string, mac: string)
    requires |d| == |digits| == 12 && |mac| == 17
    requires forall i :: 0 <= i < 17 ==> mac[i] == if i % 3 == 2 then ':' else digits[i - i / 3]
    ensures Colons(d) == mac <==> d == digits
  {
    ColonsAt(d);
    hide Colons;
    if Colons(d) == mac {
      forall j | 0 <= j < 12 ensures d[j] == digits[j] {
        assert (j + j / 2) - (j + j / 2) / 3 == j;
        assert Colons(d)[j + j / 2] == mac[j + j / 2];
      }
    }
  }

  lemma PrefixSpelledBy(d: string, digits: string, mac: string)
    requires |d| == 12 && |mac| <= 17 && 2 * |mac| == 3 * |digits|
    requires forall i :: 0 <= i < |mac| ==> mac[i] == if i % 3 == 2 then ':' else digits[i - i / 3]
    ensures StartsWith(Colons(d), mac) <==> StartsWith(d, digits)
  {
    ColonsAt(d);
    hide Colons;
    if StartsWith(Colons(d), mac) {
      forall j | 0 <= j < |digits| ensures d[j] == digits[j] {
        assert (j + j / 2) - (j + j / 2) / 3 == j;
        assert Colons(d)[j + j / 2] == mac[j + j / 2];
      }
    }
    if StartsWith(d, digits) {
      forall i | 0 <= i < |mac| ensures Colons(d)[i] == mac[i] {
      }
    }
  }

  // ---------- lines ----------

  /** text.split('\n') */
  function Lines(text: string): (lines: seq<string>)
    ensures lines != []
  {
    var n := SpanLen(text, NotNewline);
    if n == |text| then [text] else [text[..n]] + Lines(text[n + 1..])
  }

  function JoinLines(lines: seq<string>): string {
    if lines == [] then ""
    else if |lines| == 1 then lines[0]
    else lines[0] + "\n" + JoinLines(lines[1..])
  }

  lemma LinesCons(first: string, more: string)
    requires All(first, NotNewline)
    ensures Lines(first + "\n" + more) == [first] + Lines(more)
  {
    var text := first + "\n" + more;
    assert text == first + ("\n" + more);
    SpanAppend(first, "\n" + more, NotNewline);
    assert text[|first| + 1..] == more;
  }

  lemma OneLine(text: string)
    requires All(text, NotNewline)
    ensures Lines(text) == [text]
  {
    assert text + "" == text;
    SpanAppend(text, "", NotNewline);
  }

  lemma FirstLine(a: string) returns (first: string, more: string)
    requires !All(a, NotNewline)
    ensures a == first + "\n" + more && All(first, NotNewline)
  {
    var n := SpanLen(a, NotNewline);
    SpanSplits(a, NotNewline);
    assert a[..|a|] == a;
    first, more := a[..n], a[n + 1..];
  }

  /** The lines of two texts joined by a newline are the lines of the one and of the other. */
  lemma {:induction false} LinesConcat(a: string, b: string)
    ensures Lines(a + "\n" + b) == Lines(a) + Lines(b)
    decreases |a|
  {
    hide Lines;
    if All(a, NotNewline) {
      OneLine(a);
      LinesCons(a, b);
    } else {
      var first, more := FirstLine(a);
      hide All;
      LinesConcat(more, b);
      LinesCons(first, more);
      assert a + "\n" + b == first + "\n" + (more + "\n" + b);
      LinesCons(first, more + "\n" + b);
    }
  }

  lemma {:induction false} LinesOfJoin(lines: seq<string>)
    requires lines != [] && forall i :: 0 <= i < |lines| ==> All(lines[i], NotNewline)
    ensures Lines(JoinLines(lines)) == lines
  {
    if |lines| == 1 {
      OneLine(lines[0]);
    } else {
      LinesOfJoin(lines[1..]);
      LinesCons(lines[0], JoinLines(lines[1..]));
      assert lines == [lines[0]] + lines[1..];
    }
  }

  // ---------- one row of the Cisco table ----------

  datatype MacEntry = MacEntry(mac: string, port: string, vlan: nat, kind: string)

  datatype Groups = Groups(vlan: string, mac: string, kind: string, port: string)

  /** p+, and what follows */
  function Take(s: string, p: char -> bool): Option<(string, string)> {
    var n := SpanLen(s, p);
    if n == 0 then None else Some((s[..n], s[n..]))
  }

  /** Three groups of four hex digits between dots. */
  predicate IsDotted(m: string) {
    |m| == 14 && forall i :: 0 <= i < 14 ==> if i % 5 == 4 then m[i] == '.' else IsHex(m[i])
  }

  function TakeDotted(s: string): Option<(string, string)> {
    if |s| >= 14 && IsDotted(s[..14]) then Some((s[..14], s[14..])) else None
  }

  /** ^\s*(\d+)\s+([0-9a-fA-F]{4}\.[0-9a-fA-F]{4}\.[0-9a-fA-F]{4})\s+(\w+)\s+(\S+) */
  function MatchRow(line: string): Option<Groups> {
    var (vlan, afterVlan) :- Take(line[SpanLen(line, IsBlank)..], IsDigit);
    var (_, atMac) :- Take(afterVlan, IsBlank);
    var (mac, afterMac) :- TakeDotted(atMac);
    var (_, atKind) :- Take(afterMac, IsBlank);
    var (kind, afterKind) :- Take(atKind, IsWord);
    var (_, atPort) :- Take(afterKind, IsBlank);
    var (port, _) :- Take(atPort, NotBlank);
    Some(Groups(vlan, mac, kind, port))
  }

  /** The blanks of a row, and what follows its port. */
  datatype Layout = Layout(lead: string, g1: string, g2: string, g3: string, tail: string)

  function RowLine(g: Groups, l: Layout): string {
    l.lead + (g.vlan + (l.g1 + (g.mac + (l.g2 + (g.kind + (l.g3 + (g.port + l.tail)))))))
  }

  ghost predicate Spells(line: string, g: Groups, l: Layout) {
    && Run(g.vlan, IsDigit) && IsDotted(g.mac) && Run(g.kind, IsWord) && Run(g.port, NotBlank)
    && All(l.lead, IsBlank) && Run(l.g1, IsBlank) && Run(l.g2, IsBlank) && Run(l.g3, IsBlank)
    && Stops(l.tail, NotBlank)
    && line == RowLine(g, l)
  }

  lemma TakeBack(a: string, b: string, p: char -> bool)
    requires Run(a, p) && Stops(b, p)
    ensures Take(a + b, p) == Some((a, b))
  {
    SpanAppend(a, b, p);
  }

  lemma TakeSound(s: string, p: char -> bool)
    requires Take(s, p).Some?
    ensures var (a, b) := Take(s, p).value; Run(a, p) && Stops(b, p) && s == a + b
  {
    SpanSplits(s, p);
  }

  lemma MatchRowBack(line: string, g: Groups, l: Layout)
    requires Spells(line, g, l)
    ensures MatchRow(line) == Some(g)
  {
    hide Take;
    var s7 := g.port + l.tail;
    var s6 := l.g3 + s7;
    var s5 := g.kind + s6;
    var s4 := l.g2 + s5;
    var s3 := g.mac + s4;
    var s2 := l.g1 + s3;
    var s1 := g.vlan + s2;
    SpanAppend(l.lead, s1, IsBlank);
    TakeBack(g.vlan, s2, IsDigit);
    TakeBack(l.g1, s3, IsBlank);
    assert s3[..14] == g.mac && s3[14..] == s4;
    TakeBack(l.g2, s5, IsBlank);
    TakeBack(g.kind, s6, IsWord);
    TakeBack(l.g3, s7, IsBlank);
    TakeBack(g.port, l.tail, NotBlank);
  }

  lemma MatchRowSound(line: string) returns (l: Layout)
    requires MatchRow(line).Some?
    ensures Spells(line, MatchRow(line).value, l)
  {
    hide Take, IsDotted, Run, Stops;
    var n := SpanLen(line, IsBlank);
    SpanSplits(line, IsBlank);
    var s1 := line[n..];
    TakeSound(s1, IsDigit);
    var s2 := Take(s1, IsDigit).value.1;
    TakeSound(s2, IsBlank);
    var s3 := Take(s2, IsBlank).value.1;
    var s4 := s3[14..];
    assert s3 == s3[..14] + s4;
    TakeSound(s4, IsBlank);
    var s5 := Take(s4, IsBlank).value.1;
    TakeSound(s5, IsWord);
    var s6 := Take(s5, IsWord).value.1;
    TakeSound(s6, IsBlank);
    var s7 := Take(s6, IsBlank).value.1;
    TakeSound(s7, NotBlank);
    l := Layout(line[..n], Take(s2, IsBlank).value.0, Take(s4, IsBlank).value.0, Take(s6, IsBlank).value.0, Take(s7, NotBlank).value.1);
    assert line == line[..n] + s1;
  }

  /** The matcher is the expression: it yields groups exactly when the line is a row of them. */
  lemma MatchRowExactly(line: string, g: Groups)
    ensures MatchRow(line) == Some(g) <==> exists l :: Spells(line, g, l)
  {
    hide MatchRow, Spells;
    if MatchRow(line) == Some(g) {
      var l := MatchRowSound(line);
    }
    if l :| Spells(line, g, l) {
      MatchRowBack(line, g, l);
    }
  }

  // ---------- the Cisco table ----------

  /** The entry of a row that has been read. */
  function Entry(g: Groups): MacEntry
    requires All(g.vlan, IsDigit)
  {
    MacEntry(NormalizeMac(g.mac), g.port, Value(g.vlan), if LowerAll(g.kind) == "static" then "static" else "dynamic")
  }

  lemma VlanIsDigits(line: string)
    ensures MatchRow(line).Some? ==> All(MatchRow(line).value.vlan, IsDigit)
  {
    if MatchRow(line).Some? { var _ := MatchRowSound(line); }
  }

  /** What one line adds. */
  function CiscoLine(line: string): seq<MacEntry> {
    VlanIsDigits(line);
    var m := MatchRow(line);
    if m.None? || !IsUsableMac(NormalizeMac(m.value.mac)) then [] else [Entry(m.value)]
  }

  function CiscoEntries(lines: seq<string>): seq<MacEntry> {
    if lines == [] then [] else CiscoLine(lines[0]) + CiscoEntries(lines[1..])
  }

  lemma EntriesStep(lines: seq<string>, i: nat, results: seq<MacEntry>)
    requires i < |lines|
    ensures results + CiscoEntries(lines[i..]) == results + CiscoLine(lines[i]) + CiscoEntries(lines[i + 1..])
  {
    hide CiscoLine;
    assert lines[i..][1..] == lines[i + 1..];
  }

  /** parseCiscoMac */
  method ParseCiscoMac(text: string) returns (results: seq<MacEntry>)
    ensures results == CiscoEntries(Lines(text))
  {
    hide MatchRow, NormalizeMac, IsUsableMac, Lines, Entry;
    results := [];
    var lines := Lines(text);
    for i := 0 to |lines|
      invariant results + CiscoEntries(lines[i..]) == CiscoEntries(lines)
    {
      EntriesStep(lines, i, results);
      var m := MatchRow(lines[i]);
      if m.None? { continue; }
      var mac := NormalizeMac(m.value.mac);
      if !IsUsableMac(mac) { continue; }
      VlanIsDigits(lines[i]);
      results := results + [Entry(m.value)];
    }
  }

  lemma {:induction false} CiscoEntriesConcat(a: seq<string>, b: seq<string>)
    ensures CiscoEntries(a + b) == CiscoEntries(a) + CiscoEntries(b)
  {
    if a == [] {
      assert a + b == b;
    } else {
      assert (a + b)[1..] == a[1..] + b;
      CiscoEntriesConcat(a[1..], b);
    }
  }

  /** Parsing distributes over joining two texts by a newline. */
  lemma CiscoDistributes(a: string, b: string)
    ensures CiscoEntries(Lines(a + "\n" + b)) == CiscoEntries(Lines(a)) + CiscoEntries(Lines(b))
  {
    LinesConcat(a, b);
    CiscoEntriesConcat(Lines(a), Lines(b));
  }

  /** A row as printed. */
  datatype Row = Row(groups: Groups, layout: Layout) {
    function Line(): string { RowLine(groups, layout) }
    ghost predicate Printable() { Spells(Line(), groups, layout) && All(Line(), NotNewline) }

    /** The twelve digits of its address. */
    function Digits(): string { HexDigits(groups.mac) }

    predicate Usable() {
      && Digits() != "000000000000" && Digits() != "ffffffffffff"
      && !StartsWith(Digits(), "01005e") && !StartsWith(Digits(), "3333") && !StartsWith(Digits(), "0180c2")
    }
  }

  function RowLines(rows: seq<Row>): seq<string> {
    seq(|rows|, i requires 0 <= i < |rows| => rows[i].Line())
  }

  /** The word static, in small letters, capitals or both. */
  ghost predicate SaysStatic(kind: string) {
    |kind| == 6 && forall i :: 0 <= i < 6 ==> kind[i] == "static"[i] || kind[i] == "STATIC"[i]
  }

  lemma StaticInAnyCase(kind: string)
    ensures LowerAll(kind) == "static" <==> SaysStatic(kind)
  {
    if LowerAll(kind) == "static" {
      forall i | 0 <= i < 6 ensures kind[i] == "static"[i] || kind[i] == "STATIC"[i] {
        assert Lower(kind[i]) == LowerAll(kind)[i] == "static"[i];
        assert "STATIC"[i] as int + 32 == "static"[i] as int;
      }
    }
    if SaysStatic(kind) {
      forall i | 0 <= i < 6 ensures LowerAll(kind)[i] == "static"[i] {
        assert "STATIC"[i] as int + 32 == "static"[i] as int;
      }
    }
  }

  /** The entries of the usable rows, in order. */
  ghost function UsableEntries(rows: seq<Row>): seq<MacEntry>
    requires forall i :: 0 <= i < |rows| ==> rows[i].Printable()
  {
    if rows == [] then []
    else
      assert rows[0].Printable();
      (if rows[0].Usable() then
         [MacEntry(Colons(rows[0].Digits()), rows[0].groups.port, Value(rows[0].groups.vlan),
                   if SaysStatic(rows[0].groups.kind) then "static" else "dynamic")]
       else [])
      + UsableEntries(rows[1..])
  }

  lemma {:induction false} AllHexDigits(s: string)
    requires All(s, IsHex)
    ensures |HexDigits(s)| == |s|
  {
    if s != "" { AllHexDigits(s[1..]); }
  }

  lemma HexThenDot(digits: string, rest: string)
    requires All(digits, IsHex)
    ensures |HexDigits(digits + ("." + rest))| == |digits| + |HexDigits(rest)|
  {
    AllHexDigits(digits);
    HexDigitsConcat(digits, "." + rest);
    HexDigitsConcat(".", rest);
  }

  lemma DottedHasTwelve(m: string)
    requires IsDotted(m)
    ensures |HexDigits(m)| == 12
  {
    hide HexDigits;
    assert forall i :: 0 <= i < 4 ==> m[..4][i] == m[i] && m[5..9][i] == m[5 + i] && m[10..][i] == m[10 + i];
    HexThenDot(m[..4], m[5..9] + ("." + m[10..]));
    HexThenDot(m[5..9], m[10..]);
    AllHexDigits(m[10..]);
    assert m[..4] + ("." + (m[5..9] + ("." + m[10..]))) == m;
  }

  lemma {:induction false} RowsRead(rows: seq<Row>)
    requires forall i :: 0 <= i < |rows| ==> rows[i].Printable()
    ensures CiscoEntries(RowLines(rows)) == UsableEntries(rows)
  {
    if rows != [] {
      hide MatchRow, Spells, IsUsableMac, Colons, HexDigits, IsDotted, LowerAll, SaysStatic;
      RowsRead(rows[1..]);
      assert RowLines(rows)[1..] == RowLines(rows[1..]);
      RowRead(rows[0]);
      StaticInAnyCase(rows[0].groups.kind);
    }
  }

  lemma RowRead(row: Row)
    requires row.Printable()
    ensures IsDotted(row.groups.mac) && NormalizeMac(row.groups.mac) == Colons(row.Digits())
    ensures CiscoLine(row.Line()) == if row.Usable() then [Entry(row.groups)] else []
  {
    hide MatchRow, IsUsableMac, Colons, HexDigits, IsDotted;
    MatchRowBack(row.Line(), row.groups, row.layout);
    DottedHasTwelve(row.groups.mac);
    HexDigitsAreLowerHex(row.groups.mac);
    UsableByDigits(row.Digits());
  }

  lemma EmptyText()
    ensures CiscoEntries(Lines(JoinLines([]))) == []
  {
    OneLine("");
    assert CiscoLine("") == [];
    assert CiscoEntries([""]) == CiscoLine("") + CiscoEntries([""][1..]);
  }

  lemma PrintedLines(rows: seq<Row>)
    requires rows != [] && forall i :: 0 <= i < |rows| ==> rows[i].Printable()
    ensures Lines(JoinLines(RowLines(rows))) == RowLines(rows)
  {
    hide Lines, JoinLines, Row.Line, Spells;
    assert forall i :: 0 <= i < |rows| ==> RowLines(rows)[i] == rows[i].Line();
    LinesOfJoin(RowLines(rows));
  }

  /** Parsing a printed table returns exactly the usable rows, in the order printed. */
  lemma CiscoTableBack(rows: seq<Row>)
    requires forall i :: 0 <= i < |rows| ==> rows[i].Printable()
    ensures CiscoEntries(Lines(JoinLines(RowLines(rows)))) == UsableEntries(rows)
  {
    if rows == [] {
      assert RowLines(rows) == [];
      EmptyText();
    } else {
      hide *;
      PrintedLines(rows);
      RowsRead(rows);
    }
  }
}
