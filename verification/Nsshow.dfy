/** The parser for the name server listing of a Brocade switch: names are reported under the port line
    last seen, which the loop carries from line to line. */
module Nsshow {
  import opened Options
  import opened Scanning
  import opened MacParser

  datatype WwnEntry = WwnEntry(wwn: string, port: string, kind: string)

  // ---------- one line ----------

  /** Port\s+Index:\s*(\d+) at the start of s */
  function PortIndexHere(s: string): Option<string> {
    if !StartsWith(s, "Port") then None
    else
      var (_, atIndex) :- Take(s[4..], IsBlank);
      if !StartsWith(atIndex, "Index:") then None
      else
        var r := atIndex[6..];
        var (index, _) :- Take(r[SpanLen(r, IsBlank)..], IsDigit);
        Some(index)
  }

  /** The leftmost match in a line. */
  function PortIndex(line: string): Option<string> {
    if PortIndexHere(line).Some? then PortIndexHere(line)
    else if line == "" then None
    else PortIndex(line[1..])
  }

  /** Eight pairs of hex digits between colons. */
  predicate IsWwn(w: string) {
    |w| == 23 && forall i :: 0 <= i < 23 ==> if i % 3 == 2 then w[i] == ':' else IsHex(w[i])
  }

  /** (?:Port|Node)\s+Name:\s+(wwn) at the start of s, in either case */
  function NameHere(s: string): Option<string> {
    if !StartsWith(LowerAll(s), "port") && !StartsWith(LowerAll(s), "node") then None
    else
      var (_, atName) :- Take(s[4..], IsBlank);
      if !StartsWith(LowerAll(atName), "name:") then None
      else
        var (_, atWwn) :- Take(atName[5..], IsBlank);
        if |atWwn| >= 23 && IsWwn(atWwn[..23]) then Some(atWwn[..23]) else None
  }

  function Name(line: string): Option<string> {
    if NameHere(line).Some? then NameHere(line)
    else if line == "" then None
    else Name(line[1..])
  }

  predicate Contains(s: string, part: string) {
    StartsWith(s, part) || (s != "" && Contains(s[1..], part))
  }

  function Report(line: string, wwn: string, port: string): WwnEntry {
    WwnEntry(LowerAll(wwn), port, if Contains(LowerAll(line), "target") then "target" else "switch_port")
  }

  // ---------- the loop ----------

  /** The current port after a line. */
  function PortAfter(port: string, line: string): string {
    if PortIndex(line).Some? then "port" + PortIndex(line).value else port
  }

  /** What a line adds under the current port. */
  function Added(port: string, line: string): seq<WwnEntry> {
    if PortIndex(line).None? && Name(line).Some? && port != "" then [Report(line, Name(line).value, port)] else []
  }

  function LastPort(port: string, lines: seq<string>): string
    decreases |lines|
  {
    if lines == [] then port else LastPort(PortAfter(port, lines[0]), lines[1..])
  }

  function Entries(port: string, lines: seq<string>): seq<WwnEntry>
    decreases |lines|
  {
    if lines == [] then [] else Added(port, lines[0]) + Entries(PortAfter(port, lines[0]), lines[1..])
  }

  /** parseBrocadeNsshow */
  method ParseBrocadeNsshow(text: string) returns (results: seq<WwnEntry>)
    ensures results == Entries("", Lines(text))
  {
    hide PortIndex, Name, Lines, Report, Entries;
    results := [];
    var lines := Lines(text);
    var currentPort := "";
    for i := 0 to |lines|
      invariant results + Entries(currentPort, lines[i..]) == Entries("", lines)
    {
      EntriesStep(results, currentPort, lines, i);
      var portMatch := PortIndex(lines[i]);
      if portMatch.Some? {
        currentPort := "port" + portMatch.value;
        continue;
      }
      var wwnMatch := Name(lines[i]);
      if wwnMatch.Some? && currentPort != "" {
        results := results + [Report(lines[i], wwnMatch.value, currentPort)];
      }
    }
    assert lines[|lines|..] == [];
    EntriesNil(currentPort);
  }

  lemma EntriesNil(port: string)
    ensures Entries(port, []) == []
  {
  }

  lemma EntriesStep(results: seq<WwnEntry>, port: string, lines: seq<string>, i: nat)
    requires i < |lines|
    ensures results + Entries(port, lines[i..]) ==
              results + Added(port, lines[i]) + Entries(PortAfter(port, lines[i]), lines[i + 1..])
  {
    hide Added, PortAfter;
    assert lines[i..][1..] == lines[i + 1..];
  }

  // ---------- joining listings ----------

  lemma {:induction false} EntriesConcat(port: string, a: seq<string>, b: seq<string>)
    ensures Entries(port, a + b) == Entries(port, a) + Entries(LastPort(port, a), b)
    ensures LastPort(port, a + b) == LastPort(LastPort(port, a), b)
    decreases |a|
  {
    hide Added, PortAfter;
    if a == [] {
      assert a + b == b;
    } else {
      assert (a + b)[1..] == a[1..] + b;
      EntriesConcat(PortAfter(port, a[0]), a[1..], b);
    }
  }

  /** Parsing distributes over joining two texts by a newline, with the current port carried over. */
  lemma NsshowDistributes(a: string, b: string)
    ensures Entries("", Lines(a + "\n" + b)) == Entries("", Lines(a)) + Entries(LastPort("", Lines(a)), Lines(b))
  {
    hide Entries, LastPort, Lines;
    LinesConcat(a, b);
    EntriesConcat("", Lines(a), Lines(b));
  }

  /** A name comes before the first port line. */
  predicate NameBeforePort(lines: seq<string>) {
    lines != [] && PortIndex(lines[0]).None? && (Name(lines[0]).Some? || NameBeforePort(lines[1..]))
  }

  lemma {:induction false} MoreUnderAPort(port: string, lines: seq<string>)
    ensures |Entries(port, lines)| >= |Entries("", lines)|
    ensures Entries(port, lines) == Entries("", lines) <==> port == "" || !NameBeforePort(lines)
  {
    hide PortIndex, Name, Report;
    if lines != [] {
      var more := lines[1..];
      MoreUnderAPort(port, more);
      assert Entries("", lines) == Entries(PortAfter("", lines[0]), more);
      if PortIndex(lines[0]).None? && Name(lines[0]).Some? && port != "" {
        assert |Entries(port, lines)| == 1 + |Entries(port, more)|;
      } else {
        assert Entries(port, lines) == Entries(PortAfter(port, lines[0]), more);
      }
    }
  }

  /** The two listings may be parsed apart exactly when the first leaves no port, or the second names
      nothing before its first port line. */
  lemma NsshowSplitsExactly(a: string, b: string)
    ensures Entries("", Lines(a + "\n" + b)) == Entries("", Lines(a)) + Entries("", Lines(b)) <==>
              LastPort("", Lines(a)) == "" || !NameBeforePort(Lines(b))
  {
    hide Entries, LastPort, Lines, NameBeforePort;
    NsshowDistributes(a, b);
    MoreUnderAPort(LastPort("", Lines(a)), Lines(b));
    SameSuffix(Entries("", Lines(a)), Entries(LastPort("", Lines(a)), Lines(b)), Entries("", Lines(b)));
  }

  lemma SameSuffix<T>(a: seq<T>, b: seq<T>, c: seq<T>)
    ensures a + b == a + c <==> b == c
  {
    if a + b == a + c {
      assert (a + b)[|a|..] == b;
      assert (a + c)[|a|..] == c;
    }
  }

  // ---------- which port a name is reported under ----------

  /** The port line nearest before the end of these lines. */
  function Nearest(lines: seq<string>): string {
    if lines == [] then ""
    else
      var last := lines[|lines| - 1];
      if PortIndex(last).Some? then "port" + PortIndex(last).value else Nearest(lines[..|lines| - 1])
  }

  /** Each name line reported by itself, under the port line nearest before it. */
  function Attributed(lines: seq<string>): seq<WwnEntry> {
    if lines == [] then []
    else
      var before, last := lines[..|lines| - 1], lines[|lines| - 1];
      Attributed(before)
      + (if PortIndex(last).None? && Name(last).Some? && Nearest(before) != ""
         then [Report(last, Name(last).value, Nearest(before))] else [])
  }

  /** The loop reports every name under the port line nearest before it, and none that has no such line. */
  lemma {:induction false} CarriedPortIsNearest(lines: seq<string>)
    ensures Entries("", lines) == Attributed(lines) && LastPort("", lines) == Nearest(lines)
  {
    hide PortIndex, Name, Report;
    if lines != [] {
      var before, last := lines[..|lines| - 1], lines[|lines| - 1];
      CarriedPortIsNearest(before);
      assert lines == before + [last];
      EntriesConcat("", before, [last]);
      assert [last][1..] == [];
      assert Entries(Nearest(before), [last]) == Added(Nearest(before), last) + [];
      assert LastPort(Nearest(before), [last]) == PortAfter(Nearest(before), last);
    }
  }

  // ---------- printed listings ----------

  /** A port line as printed. */
  datatype PortRow = PortRow(lead: string, g1: string, g2: string, index: string, tail: string) {
    function Line(): string { lead + ("Port" + (g1 + ("Index:" + (g2 + (index + tail))))) }
    predicate Printable() {
      All(lead, IsBlank) && Run(g1, IsBlank) && All(g2, IsBlank) && Run(index, IsDigit) && Stops(tail, IsDigit)
    }
  }

  /** A name line as printed. */
  datatype NameRow = NameRow(lead: string, word: string, g1: string, name: string, g2: string, wwn: string, tail: string) {
    function Line(): string { lead + (word + (g1 + (name + (g2 + (wwn + tail))))) }
    predicate Spelled() {
      && All(lead, IsBlank) && (LowerAll(word) == "port" || LowerAll(word) == "node")
      && Run(g1, IsBlank) && LowerAll(name) == "name:" && Run(g2, IsBlank) && IsWwn(wwn)
    }

    /** What follows the address does not itself hold a port marker. */
    ghost predicate Printable() { Spelled() && !HasPortMark(tail) }
  }

  /** Somewhere in s stands Port, blanks, Index:, blanks or none, and a number. */
  ghost predicate HasPortMark(s: string) {
    exists lead, g1, g2, index, tail :: PortMark(s, lead, g1, g2, index, tail)
  }

  ghost predicate PortMark(s: string, lead: string, g1: string, g2: string, index: string, tail: string) {
    && Run(g1, IsBlank) && All(g2, IsBlank) && Run(index, IsDigit)
    && s == lead + ("Port" + (g1 + ("Index:" + (g2 + (index + tail)))))
  }

  lemma MarkHere(g1: string, g2: string, index: string, tail: string)
    requires Run(g1, IsBlank) && All(g2, IsBlank) && Run(index, IsDigit)
    ensures PortIndexHere("Port" + (g1 + ("Index:" + (g2 + (index + tail))))).Some?
  {
    hide Take;
    var more := index + tail;
    var r := g2 + more;
    var atIndex := "Index:" + r;
    var s := "Port" + (g1 + atIndex);
    assert s[4..] == g1 + atIndex && StartsWith(s, "Port");
    TakeBack(g1, atIndex, IsBlank);
    assert atIndex[6..] == r && StartsWith(atIndex, "Index:");
    assert more[0] == index[0];
    SpanAppend(g2, more, IsBlank);
    TakeSome(more, IsDigit);
  }

  lemma TakeSome(s: string, p: char -> bool)
    requires s != "" && p(s[0])
    ensures Take(s, p).Some?
  {
  }

  lemma {:induction false} MarkFound(lead: string, rest: string)
    requires PortIndexHere(rest).Some?
    ensures PortIndex(lead + rest).Some?
  {
    hide PortIndexHere;
    if lead == "" {
      assert lead + rest == rest;
    } else {
      assert (lead + rest)[1..] == lead[1..] + rest;
      MarkFound(lead[1..], rest);
    }
  }

  lemma HereIsMark(s: string) returns (g1: string, g2: string, index: string, tail: string)
    requires PortIndexHere(s).Some?
    ensures PortMark(s, "", g1, g2, index, tail)
  {
    hide Take, Run, Stops;
    TakeSound(s[4..], IsBlank);
    var atIndex := Take(s[4..], IsBlank).value.1;
    g1 := Take(s[4..], IsBlank).value.0;
    var r := atIndex[6..];
    var n := SpanLen(r, IsBlank);
    SpanSplits(r, IsBlank);
    TakeSound(r[n..], IsDigit);
    g2, index, tail := r[..n], Take(r[n..], IsDigit).value.0, Take(r[n..], IsDigit).value.1;
    assert r == g2 + (index + tail);
    assert atIndex == "Index:" + r;
    assert s == "Port" + s[4..];
  }

  lemma {:induction false} FoundIsMark(line: string) returns (lead: string, g1: string, g2: string, index: string, tail: string)
    requires PortIndex(line).Some?
    ensures PortMark(line, lead, g1, g2, index, tail)
  {
    hide PortIndexHere, Run, All;
    if PortIndexHere(line).Some? {
      lead := "";
      g1, g2, index, tail := HereIsMark(line);
    } else {
      lead, g1, g2, index, tail := FoundIsMark(line[1..]);
      assert line == [line[0]] + line[1..];
      lead := [line[0]] + lead;
    }
  }

  /** The port expression matches a line exactly when a port marker stands somewhere in it. */
  lemma PortIndexExactly(line: string)
    ensures PortIndex(line).Some? <==> HasPortMark(line)
  {
    hide PortMark, PortIndex;
    if PortIndex(line).Some? {
      var lead, g1, g2, index, tail := FoundIsMark(line);
    }
    if lead, g1, g2, index, tail :| PortMark(line, lead, g1, g2, index, tail) {
      MarkGiven(line, lead, g1, g2, index, tail);
    }
  }

  lemma MarkGiven(line: string, lead: string, g1: string, g2: string, index: string, tail: string)
    requires PortMark(line, lead, g1, g2, index, tail)
    ensures PortIndex(line).Some?
  {
    hide PortIndex, PortIndexHere;
    MarkHere(g1, g2, index, tail);
    MarkFound(lead, "Port" + (g1 + ("Index:" + (g2 + (index + tail)))));
  }

  predicate NotP(c: char) { c != 'P' }

  lemma {:induction false} SkipToP(a: string, rest: string)
    requires All(a, NotP)
    ensures PortIndex(a + rest) == PortIndex(rest)
  {
    if a == "" {
      assert a + rest == rest;
    } else {
      var s := a + rest;
      assert s[1..] == a[1..] + rest;
      assert s[0] == a[0] && NotP(a[0]);
      assert !StartsWith(s, "Port");
      SkipToP(a[1..], rest);
    }
  }

  lemma NoPInBlanks(s: string)
    requires All(s, IsBlank)
    ensures All(s, NotP)
  {
  }

  lemma NoPInWwn(w: string)
    requires IsWwn(w)
    ensures All(w, NotP)
  {
    forall i | 0 <= i < |w| ensures NotP(w[i]) {
      assert if i % 3 == 2 then w[i] == ':' else IsHex(w[i]);
    }
  }

  lemma NoPInName(s: string)
    requires LowerAll(s) == "name:"
    ensures |s| == 5 && All(s, NotP) && s[0] != 'I'
  {
    LowerLength(s);
    assert Lower(s[0]) == 'n' && Lower(s[1]) == 'a' && Lower(s[2]) == 'm' && Lower(s[3]) == 'e' && Lower(s[4]) == ':' by {
      assert LowerAll(s)[0] == 'n' && LowerAll(s)[1] == 'a' && LowerAll(s)[2] == 'm' && LowerAll(s)[3] == 'e' && LowerAll(s)[4] == ':';
    }
  }

  lemma OnePInWord(s: string)
    requires LowerAll(s) == "port" || LowerAll(s) == "node"
    ensures |s| == 4 && All(s[1..], NotP)
  {
    LowerLength(s);
    assert forall i :: 0 <= i < 4 ==> Lower(s[i]) == LowerAll(s)[i];
  }

  /** The word of a name line starts no port marker: after the blanks comes the name. */
  lemma WordIsNoMark(word: string, g1: string, name: string, rest: string)
    requires |word| == 4 && Run(g1, IsBlank) && LowerAll(name) == "name:"
    ensures PortIndexHere(word + (g1 + (name + rest))).None?
  {
    hide Take;
    NoPInName(name);
    LetterFirst(name, rest);
    var s := word + (g1 + (name + rest));
    assert s[4..] == g1 + (name + rest);
    TakeBack(g1, name + rest, IsBlank);
    assert (name + rest)[0] == name[0];
  }

  /** Whether a name line is taken for a port line is decided by what follows its address. */
  lemma NameRowPort(row: NameRow)
    requires row.Spelled()
    ensures PortIndex(row.Line()) == PortIndex(row.tail)
  {
    var afterName := row.g2 + (row.wwn + row.tail);
    var afterWord := row.g1 + (row.name + afterName);
    var s := row.word + afterWord;
    NoPInBlanks(row.lead);
    NoPInBlanks(row.g1);
    NoPInBlanks(row.g2);
    NoPInName(row.name);
    NoPInWwn(row.wwn);
    OnePInWord(row.word);
    WordIsNoMark(row.word, row.g1, row.name, afterName);
    hide PortIndexHere, IsWwn, LowerAll;
    SkipToP(row.lead, s);
    assert s[1..] == row.word[1..] + afterWord;
    assert PortIndex(s) == PortIndex(s[1..]);
    SkipToP(row.word[1..], afterWord);
    SkipToP(row.g1, row.name + afterName);
    SkipToP(row.name, afterName);
    SkipToP(row.g2, row.wwn + row.tail);
    SkipToP(row.wwn, row.tail);
  }

  lemma {:induction false} SkipBlanks(lead: string, rest: string)
    requires All(lead, IsBlank)
    ensures PortIndex(lead + rest) == PortIndex(rest) && Name(lead + rest) == Name(rest)
  {
    if lead == "" {
      assert lead + rest == rest;
    } else {
      var s := lead + rest;
      assert s[1..] == lead[1..] + rest;
      assert IsBlank(s[0]);
      assert !StartsWith(s, "Port");
      assert LowerAll(s)[0] == s[0];
      SkipBlanks(lead[1..], rest);
    }
  }

  lemma PortRowBack(row: PortRow)
    requires row.Printable()
    ensures PortIndex(row.Line()) == Some(row.index)
  {
    hide Take;
    var r := row.g2 + (row.index + row.tail);
    var atIndex := "Index:" + r;
    var s := "Port" + (row.g1 + atIndex);
    SkipBlanks(row.lead, s);
    assert s[4..] == row.g1 + atIndex && StartsWith(s, "Port");
    TakeBack(row.g1, atIndex, IsBlank);
    assert atIndex[6..] == r && StartsWith(atIndex, "Index:");
    SpanAppend(row.g2, row.index + row.tail, IsBlank);
    TakeBack(row.index, row.tail, IsDigit);
  }

  lemma LowerPrefix(a: string, b: string)
    ensures StartsWith(LowerAll(a + b), LowerAll(a))
  {
  }

  /** A name line, whatever its address, is a name line. */
  lemma NameRowBack(row: NameRow)
    requires row.Spelled()
    ensures Name(row.Line()) == Some(row.wwn)
  {
    hide Take, PortIndex, IsWwn, LowerAll;
    var atWwn := row.wwn + row.tail;
    var atName := row.name + (row.g2 + atWwn);
    var s := row.word + (row.g1 + atName);
    SkipBlanks(row.lead, s);
    assert |row.wwn| == 23 by { hide *; WwnLength(row.wwn); }
    LowerLength(row.word);
    LowerLength(row.name);
    LowerPrefix(row.word, row.g1 + atName);
    LowerPrefix(row.name, row.g2 + atWwn);
    assert s[4..] == row.g1 + atName;
    LetterFirst(row.name, row.g2 + atWwn);
    TakeBack(row.g1, atName, IsBlank);
    assert atName[5..] == row.g2 + atWwn;
    HexFirst(row.wwn, row.tail);
    TakeBack(row.g2, atWwn, IsBlank);
    assert atWwn[..23] == row.wwn;
  }

  lemma WwnLength(w: string)
    requires IsWwn(w)
    ensures |w| == 23
  {
  }

  lemma LowerLength(s: string)
    ensures |LowerAll(s)| == |s|
  {
  }

  lemma LetterFirst(name: string, rest: string)
    requires LowerAll(name) == "name:"
    ensures Stops(name + rest, IsBlank)
  {
    assert LowerAll(name)[0] == 'n';
  }

  lemma HexFirst(w: string, rest: string)
    requires IsWwn(w)
    ensures Stops(w + rest, IsBlank)
  {
    assert IsHex(w[0]);
  }

  /** A port and the names listed under it. */
  datatype Block = Block(port: PortRow, names: seq<NameRow>) {
    ghost predicate Printable() {
      port.Printable() && forall i :: 0 <= i < |names| ==> names[i].Printable()
    }
  }

  function NameLines(names: seq<NameRow>): seq<string> {
    if names == [] then [] else [names[0].Line()] + NameLines(names[1..])
  }

  function ListingLines(blocks: seq<Block>): seq<string> {
    if blocks == [] then [] else [blocks[0].port.Line()] + NameLines(blocks[0].names) + ListingLines(blocks[1..])
  }

  function NameEntries(port: string, names: seq<NameRow>): seq<WwnEntry> {
    if names == [] then [] else [Report(names[0].Line(), names[0].wwn, port)] + NameEntries(port, names[1..])
  }

  function ListingEntries(blocks: seq<Block>): seq<WwnEntry> {
    if blocks == [] then []
    else NameEntries("port" + blocks[0].port.index, blocks[0].names) + ListingEntries(blocks[1..])
  }

  lemma NameLineRead(row: NameRow)
    requires row.Printable()
    ensures PortIndex(row.Line()).None? && Name(row.Line()) == Some(row.wwn)
  {
    hide PortIndex, Name, NameRow.Line, HasPortMark, NameRow.Spelled;
    NameRowBack(row);
    NameRowPort(row);
    PortIndexExactly(row.tail);
  }

  lemma {:induction false} NamesRead(port: string, names: seq<NameRow>)
    requires port != "" && forall i :: 0 <= i < |names| ==> names[i].Printable()
    ensures Entries(port, NameLines(names)) == NameEntries(port, names) && LastPort(port, NameLines(names)) == port
  {
    if names != [] {
      assert names[0].Printable();
      hide PortIndex, Name, Report, NameRow.Line, NameRow.Printable;
      NameLineRead(names[0]);
      NamesRead(port, names[1..]);
      assert NameLines(names)[1..] == NameLines(names[1..]);
    }
  }

  lemma BlockRead(port: string, b: Block, more: seq<string>)
    requires b.Printable()
    ensures var here := "port" + b.port.index;
            Entries(port, [b.port.Line()] + NameLines(b.names) + more) == NameEntries(here, b.names) + Entries(here, more)
  {
    hide Entries, LastPort, PortRow.Line, PortRow.Printable, NameRow.Printable, NameEntries, NameLines;
    var first, here, names := b.port.Line(), "port" + b.port.index, NameLines(b.names);
    PortLineAlone(port, b.port);
    NamesRead(here, b.names);
    EntriesConcat(port, [first], names);
    EntriesConcat(port, [first] + names, more);
  }

  lemma PortLineAlone(port: string, row: PortRow)
    requires row.Printable()
    ensures Entries(port, [row.Line()]) == [] && LastPort(port, [row.Line()]) == "port" + row.index
  {
    hide PortIndex, Name, Report, PortRow.Line, PortRow.Printable;
    PortRowBack(row);
    assert [row.Line()][1..] == [];
  }

  /** A printed listing is read back in full: every name in order, each under the port of its block. */
  lemma {:induction false} ListingRead(port: string, blocks: seq<Block>)
    requires forall i :: 0 <= i < |blocks| ==> blocks[i].Printable()
    ensures Entries(port, ListingLines(blocks)) == ListingEntries(blocks)
    decreases |blocks|
  {
    if blocks != [] {
      hide Entries, Block.Printable, NameEntries, NameLines, PortRow.Line;
      BlockRead(port, blocks[0], ListingLines(blocks[1..]));
      ListingRead("port" + blocks[0].port.index, blocks[1..]);
    }
  }

  lemma ListingBack(blocks: seq<Block>)
    requires blocks != [] && forall i :: 0 <= i < |blocks| ==> blocks[i].Printable()
    requires forall i :: 0 <= i < |ListingLines(blocks)| ==> All(ListingLines(blocks)[i], NotNewline)
    ensures Entries("", Lines(JoinLines(ListingLines(blocks)))) == ListingEntries(blocks)
  {
    assert ListingLines(blocks) != [];
    hide *;
    LinesOfJoin(ListingLines(blocks));
    ListingRead("", blocks);
  }

  // ---------- what a report says ----------

  /** The word stands in the line from place i on, each letter small or capital. */
  predicate StandsAt(line: string, word: string, capitals: string, i: nat)
    requires |word| == |capitals|
  {
    i + |word| <= |line| && forall j :: 0 <= j < |word| ==> line[i + j] == word[j] || line[i + j] == capitals[j]
  }

  lemma {:induction false} ContainsAt(s: string, part: string)
    ensures Contains(s, part) <==> exists i: nat :: i <= |s| && StartsWith(s[i..], part)
  {
    assert s[0..] == s;
    if s != "" && !StartsWith(s, part) {
      ContainsAt(s[1..], part);
      if Contains(s, part) {
        var i: nat :| i <= |s[1..]| && StartsWith(s[1..][i..], part);
        assert s[i + 1..] == s[1..][i..];
      }
      if i: nat :| i <= |s| && StartsWith(s[i..], part) {
        assert s[1..][i - 1..] == s[i..];
      }
    }
  }

  lemma TargetLetters(c: char, j: nat)
    requires j < 6
    ensures Lower(c) == "target"[j] <==> c == "target"[j] || c == "TARGET"[j]
  {
    assert "TARGET"[j] as int + 32 == "target"[j] as int;
  }

  lemma TargetStarts(line: string, i: nat)
    requires i <= |line|
    ensures StartsWith(LowerAll(line)[i..], "target") <==> StandsAt(line, "target", "TARGET", i)
  {
    hide Lower;
    var rest := LowerAll(line)[i..];
    if i + 6 <= |line| {
      forall j | 0 <= j < 6 ensures rest[j] == "target"[j] <==> line[i + j] == "target"[j] || line[i + j] == "TARGET"[j] {
        TargetLetters(line[i + j], j);
      }
    }
  }

  /** A report gives the address in small letters and the port it is under, and calls the device a target
      exactly when that word stands somewhere in the line, in either case. */
  lemma ReportsExactly(line: string, wwn: string, port: string)
    requires IsWwn(wwn)
    ensures var e := Report(line, wwn, port);
            && e.port == port && |e.wwn| == 23
            && (forall i, j :: 0 <= i < 23 && 0 <= j < 6 && wwn[i] == "ABCDEF"[j] ==> e.wwn[i] == "abcdef"[j])
            && (forall i :: 0 <= i < 23 && wwn[i] !in "ABCDEF" ==> e.wwn[i] == wwn[i])
            && e.kind == if exists i: nat :: StandsAt(line, "target", "TARGET", i) then "target" else "switch_port"
  {
    ContainsAt(LowerAll(line), "target");
    forall i: nat | i <= |line| ensures StartsWith(LowerAll(line)[i..], "target") <==> StandsAt(line, "target", "TARGET", i) {
      TargetStarts(line, i);
    }
    SmallLetters(wwn);
  }

  lemma SmallLetters(wwn: string)
    requires IsWwn(wwn)
    ensures |LowerAll(wwn)| == 23
    ensures forall i, j :: 0 <= i < 23 && 0 <= j < 6 && wwn[i] == "ABCDEF"[j] ==> LowerAll(wwn)[i] == "abcdef"[j]
    ensures forall i :: 0 <= i < 23 && wwn[i] !in "ABCDEF" ==> LowerAll(wwn)[i] == wwn[i]
  {
    forall i, j | 0 <= i < 23 && 0 <= j < 6 && wwn[i] == "ABCDEF"[j] ensures LowerAll(wwn)[i] == "abcdef"[j] {
      assert "ABCDEF"[j] as int + 32 == "abcdef"[j] as int;
    }
    forall i | 0 <= i < 23 && wwn[i] !in "ABCDEF" ensures LowerAll(wwn)[i] == wwn[i] {
      Consecutive("ABCDEF", wwn[i]);
      assert IsHex(wwn[i]) || wwn[i] == ':';
    }
  }

  /** The port marker that is read stands at this place, and none before. */
  ghost predicate FirstMark(line: string, i: nat) {
    i <= |line| && PortIndex(line) == PortIndexHere(line[i..]) && forall j: nat :: j < i ==> PortIndexHere(line[j..]).None?
  }

  ghost predicate FirstName(line: string, i: nat) {
    i <= |line| && Name(line) == NameHere(line[i..]) && forall j: nat :: j < i ==> NameHere(line[j..]).None?
  }

  lemma OneLater(line: string, i: nat)
    requires line != ""
    ensures FirstMark(line[1..], i) && PortIndexHere(line).None? ==> FirstMark(line, i + 1)
    ensures FirstName(line[1..], i) && NameHere(line).None? ==> FirstName(line, i + 1)
  {
    hide PortIndexHere, NameHere;
    assert line[0..] == line;
    assert forall j: nat :: 0 < j <= |line| ==> line[1..][j - 1..] == line[j..];
  }

  /** Of several markers in a line the leftmost is read, and so of several names. */
  lemma {:induction false} LeftmostIsRead(line: string)
    ensures PortIndex(line).Some? ==> exists i: nat :: FirstMark(line, i)
    ensures Name(line).Some? ==> exists i: nat :: FirstName(line, i)
  {
    hide PortIndexHere, NameHere;
    assert line[0..] == line;
    if PortIndexHere(line).Some? { assert FirstMark(line, 0); }
    if NameHere(line).Some? { assert FirstName(line, 0); }
    if line != "" {
      hide FirstMark, FirstName;
      LeftmostIsRead(line[1..]);
      forall i: nat ensures FirstMark(line[1..], i) && PortIndexHere(line).None? ==> FirstMark(line, i + 1) { OneLater(line, i); }
      forall i: nat ensures FirstName(line[1..], i) && NameHere(line).None? ==> FirstName(line, i + 1) { OneLater(line, i); }
    }
  }
}
