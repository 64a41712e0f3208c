/** The syslog line parser: RFC 5424 first, then RFC 3164.  Both regular expressions are anchored and are
    written out here as matchers; timestamps stay text. */
module SyslogParser {
  import opened Options
  import opened Scanning

  datatype Format = RFC5424 | RFC3164

  datatype ParsedMessage = ParsedMessage(
    format: Format, facility: int, severity: int, stamp: string,
    hostname: string, program: string, message: string, raw: string)

  datatype ParseResult = Ok(msg: ParsedMessage) | EmptyMessage | Unrecognised

  /** \s of Go's regular expressions, which has no vertical tab. */
  predicate IsSpace(c: char) { c == ' ' || c == '\t' || c == '\n' || c == '\r' || c == '\U{0C}' }

  predicate NotSpace(c: char) { !IsSpace(c) }

  // ---------- trimming ----------

  function TrimEnd(s: string): string {
    if s != "" && IsBlank(s[|s| - 1]) then TrimEnd(s[..|s| - 1]) else s
  }

  function TrimSpace(s: string): string {
    TrimEnd(s[SpanLen(s, IsBlank)..])
  }

  lemma {:induction false} TrimEndBack(s: string, after: string)
    requires s != "" && !IsBlank(s[|s| - 1]) && All(after, IsBlank)
    ensures TrimEnd(s + after) == s
  {
    if after == "" {
      assert s + after == s;
    } else {
      var shorter := after[..|after| - 1];
      assert (s + after)[..|s + after| - 1] == s + shorter;
      TrimEndBack(s, shorter);
    }
  }

  lemma TrimBack(before: string, s: string, after: string)
    requires All(before, IsBlank) && All(after, IsBlank)
    requires s != "" && !IsBlank(s[0]) && !IsBlank(s[|s| - 1])
    ensures TrimSpace(before + s + after) == s
  {
    assert before + s + after == before + (s + after);
    SpanAppend(before, s + after, IsBlank);
    TrimEndBack(s, after);
  }

  // ---------- the parts of a line ----------

  /** <digits> */
  function Pri(s: string): Option<(string, string)> {
    if s == "" || s[0] != '<' then None
    else
      var n := SpanLen(s[1..], IsDigit);
      if n == 0 || n + 1 >= |s| || s[n + 1] != '>' then None else Some((s[1..n + 1], s[n + 2..]))
  }

  /** \s+(\S+), cut into the gap, the field and what follows */
  function Token(s: string): Option<(string, string, string)> {
    var g := SpanLen(s, IsSpace);
    var t := SpanLen(s[g..], NotSpace);
    if g == 0 || t == 0 then None else Some((s[..g], s[g..][..t], s[g..][t..]))
  }

  /** \s+(\S+), n times */
  function Fields(s: string, n: nat): Option<(seq<string>, string)>
    decreases n
  {
    if n == 0 then Some(([], s))
    else
      var token := Token(s);
      if token.None? then None
      else
        var more := Fields(token.value.2, n - 1);
        if more.None? then None else Some(([token.value.1] + more.value.0, more.value.1))
  }

  /** \s*(.*) */
  function Body(s: string): string {
    var r := s[SpanLen(s, IsSpace)..];
    r[..SpanLen(r, NotNewline)]
  }

  /** (?:\[(\d+)\])?: */
  function Tag(s: string): Option<(Option<string>, string)> {
    if s == "" then None
    else if s[0] == '[' then
      var k := SpanLen(s[1..], IsDigit);
      if k == 0 || |s| < k + 3 || s[k + 1] != ']' || s[k + 2] != ':' then None
      else Some((Some(s[1..k + 1]), s[k + 3..]))
    else if s[0] == ':' then Some((None, s[1..]))
    else None
  }

  /** (\S+?) in front of a tag, from n characters on: the shortest that fits. */
  function Program(s: string, n: nat): Option<(string, Option<string>, string)>
    requires n <= |s|
    decreases |s| - n
  {
    var tag := Tag(s[n..]);
    if n > 0 && tag.Some? then Some((s[..n], tag.value.0, tag.value.1))
    else if n < |s| && NotSpace(s[n]) then Program(s, n + 1)
    else None
  }

  datatype Groups5424 = Groups5424(pri: string, version: string, fields: seq<string>, message: string)

  /** ^<(\d+)>(\d+)\s+(\S+)\s+(\S+)\s+(\S+)\s+(\S+)\s+(\S+)\s*(.*) */
  function Match5424(s: string): Option<Groups5424> {
    var pri := Pri(s);
    if pri.None? then None
    else
      var r := pri.value.1;
      var v := SpanLen(r, IsDigit);
      var fields := Fields(r[v..], 5);
      if v == 0 || fields.None? then None
      else Some(Groups5424(pri.value.0, r[..v], fields.value.0, Body(fields.value.1)))
  }

  datatype Groups3164 = Groups3164(pri: string, stamp: string, host: string, program: string, pid: Option<string>, message: string)

  /** ^<(\d+)>(.{15})\s+(\S+)\s+(\S+?)(?:\[(\d+)\])?:\s*(.*) */
  function Match3164(s: string): Option<Groups3164> {
    var pri := Pri(s);
    if pri.None? || SpanLen(pri.value.1, NotNewline) < 15 then None
    else
      var r := pri.value.1;
      var host := Token(r[15..]);
      if host.None? then None
      else
        var after := host.value.2;
        var g := SpanLen(after, IsSpace);
        var program := Program(after[g..], 0);
        if g == 0 || program.None? then None
        else Some(Groups3164(pri.value.0, r[..15], host.value.1, program.value.0, program.value.1, Body(program.value.2)))
  }

  const MAX_INT := 0x7FFF_FFFF_FFFF_FFFF

  /** strconv.Atoi with its error ignored: a number out of range becomes the largest. */
  function Atoi(digits: string): (n: nat)
    requires All(digits, IsDigit)
  {
    if Value(digits) > MAX_INT then MAX_INT else Value(digits)
  }

  function Parse(raw: string): ParseResult {
    var s := TrimSpace(raw);
    if s == "" then EmptyMessage
    else
      var m := Match5424(s);
      if m.Some? then
        PriIsDigits(s);
        var pri := Atoi(m.value.pri);
        FieldsLength(s);
        Ok(ParsedMessage(RFC5424, pri / 8, pri % 8, m.value.fields[0], m.value.fields[1], m.value.fields[2], m.value.message, s))
      else
        var l := Match3164(s);
        if l.Some? then
          PriIsDigits(s);
          var pri := Atoi(l.value.pri);
          Ok(ParsedMessage(RFC3164, pri / 8, pri % 8, l.value.stamp, l.value.host, l.value.program, l.value.message, s))
        else Unrecognised
  }

  lemma PriIsDigits(s: string)
    ensures Pri(s).Some? ==> Run(Pri(s).value.0, IsDigit) && s == "<" + Pri(s).value.0 + ">" + Pri(s).value.1
  {
    if s != "" {
      var n := SpanLen(s[1..], IsDigit);
      SpanSplits(s[1..], IsDigit);
      assert s[1..][..n] == s[1..n + 1];
    }
  }

  lemma FieldsLength(s: string)
    ensures Match5424(s).Some? ==> |Match5424(s).value.fields| == 5
  {
    if Match5424(s).Some? {
      var r := Pri(s).value.1;
      var _ := FieldsSound(r[SpanLen(r, IsDigit)..], 5);
    }
  }

  // ---------- parts, printed and read ----------

  function Joined(gaps: seq<string>, fields: seq<string>): string
    requires |gaps| == |fields|
  {
    if gaps == [] then "" else gaps[0] + fields[0] + Joined(gaps[1..], fields[1..])
  }

  predicate AllRuns(ss: seq<string>, p: char -> bool) {
    forall i :: 0 <= i < |ss| ==> Run(ss[i], p)
  }

  lemma PriBack(pri: string, rest: string)
    requires Run(pri, IsDigit)
    ensures Pri("<" + pri + ">" + rest) == Some((pri, rest))
  {
    var s := "<" + pri + ">" + rest;
    assert s[1..] == pri + (">" + rest);
    SpanAppend(pri, ">" + rest, IsDigit);
    assert s[1..|pri| + 1] == pri && s[|pri| + 2..] == rest;
  }

  lemma TokenBack(gap: string, field: string, rest: string)
    requires Run(gap, IsSpace) && Run(field, NotSpace) && Stops(rest, NotSpace)
    ensures Token(gap + field + rest) == Some((gap, field, rest))
  {
    assert gap + field + rest == gap + (field + rest);
    SpanAppend(gap, field + rest, IsSpace);
    SpanAppend(field, rest, NotSpace);
  }

  lemma TokenSound(s: string)
    requires Token(s).Some?
    ensures var (gap, field, rest) := Token(s).value;
            Run(gap, IsSpace) && Run(field, NotSpace) && Stops(rest, NotSpace) && s == gap + field + rest
  {
    var g := SpanLen(s, IsSpace);
    SpanSplits(s, IsSpace);
    SpanSplits(s[g..], NotSpace);
  }

  /** s is cut into the fields, each after its gap, and the rest. */
  ghost predicate Cut(s: string, gaps: seq<string>, fields: seq<string>, rest: string) {
    && |gaps| == |fields| && AllRuns(gaps, IsSpace) && AllRuns(fields, NotSpace)
    && s == Joined(gaps, fields) + rest
    && (gaps != [] ==> Stops(rest, NotSpace))
  }

  lemma CutCons(gap: string, field: string, more: string, gaps: seq<string>, fields: seq<string>, rest: string)
    requires Run(gap, IsSpace) && Run(field, NotSpace) && Stops(more, NotSpace) && Cut(more, gaps, fields, rest)
    ensures Cut(gap + field + more, [gap] + gaps, [field] + fields, rest)
  {
    hide Run, Stops;
    assert ([gap] + gaps)[1..] == gaps && ([field] + fields)[1..] == fields;
    if gaps == [] { assert more == rest; }
  }

  lemma CutToken(s: string, gaps: seq<string>, fields: seq<string>, rest: string)
    requires Token(s).Some? && Cut(Token(s).value.2, gaps, fields, rest)
    ensures Cut(s, [Token(s).value.0] + gaps, [Token(s).value.1] + fields, rest)
  {
    hide Cut, Token, Run, Stops;
    TokenSound(s);
    var (gap, field, more) := Token(s).value;
    CutCons(gap, field, more, gaps, fields, rest);
  }

  lemma Uncons(s: string, gaps: seq<string>, fields: seq<string>, rest: string) returns (more: string)
    requires Cut(s, gaps, fields, rest) && gaps != []
    ensures Cut(more, gaps[1..], fields[1..], rest) && s == gaps[0] + fields[0] + more
    ensures Run(gaps[0], IsSpace) && Run(fields[0], NotSpace) && Stops(more, NotSpace)
  {
    more := Joined(gaps[1..], fields[1..]) + rest;
    if |gaps| > 1 { JoinedStarts(gaps[1..], fields[1..], rest); }
  }

  lemma FieldsCons(s: string, gap: string, field: string, more: string, fields: seq<string>, rest: string)
    requires Token(s) == Some((gap, field, more)) && Fields(more, |fields|) == Some((fields, rest))
    ensures Fields(s, |fields| + 1) == Some(([field] + fields, rest))
  {
    hide Token;
  }

  lemma {:induction false} FieldsBack(s: string, gaps: seq<string>, fields: seq<string>, rest: string)
    requires Cut(s, gaps, fields, rest) && |gaps| == |fields|
    ensures Fields(s, |fields|) == Some((fields, rest))
    decreases |gaps|
  {
    if gaps == [] {
      assert s == rest;
    } else {
      hide Cut, Token, Fields, Run, Stops;
      var more := Uncons(s, gaps, fields, rest);
      TokenBack(gaps[0], fields[0], more);
      FieldsBack(more, gaps[1..], fields[1..], rest);
      FieldsCons(s, gaps[0], fields[0], more, fields[1..], rest);
      assert [fields[0]] + fields[1..] == fields;
    }
  }

  lemma FieldsUncons(s: string, n: nat)
    requires n > 0 && Fields(s, n).Some?
    ensures Token(s).Some? && Fields(Token(s).value.2, n - 1).Some?
    ensures Fields(s, n).value.0 == [Token(s).value.1] + Fields(Token(s).value.2, n - 1).value.0
    ensures Fields(s, n).value.1 == Fields(Token(s).value.2, n - 1).value.1
  {
    hide Token;
  }

  lemma {:induction false} FieldsSound(s: string, n: nat) returns (gaps: seq<string>)
    requires Fields(s, n).Some?
    ensures |gaps| == n && Cut(s, gaps, Fields(s, n).value.0, Fields(s, n).value.1)
    decreases n
  {
    if n == 0 {
      gaps := [];
      assert Joined([], []) + s == s;
    } else {
      hide *;
      FieldsUncons(s, n);
      var more := Token(s).value.2;
      var gaps' := FieldsSound(more, n - 1);
      CutToken(s, gaps', Fields(more, n - 1).value.0, Fields(more, n - 1).value.1);
      gaps := [Token(s).value.0] + gaps';
    }
  }

  lemma BodyBack(gap: string, message: string, tail: string)
    requires All(gap, IsSpace) && Stops(message + tail, IsSpace)
    requires All(message, NotNewline) && Stops(tail, NotNewline)
    ensures Body(gap + message + tail) == message
  {
    assert gap + message + tail == gap + (message + tail);
    SpanAppend(gap, message + tail, IsSpace);
    SpanAppend(message, tail, NotNewline);
  }

  lemma BodySound(s: string) returns (gap: string, tail: string)
    ensures s == gap + Body(s) + tail && All(gap, IsSpace) && Stops(Body(s) + tail, IsSpace)
    ensures All(Body(s), NotNewline) && Stops(tail, NotNewline)
  {
    var g := SpanLen(s, IsSpace);
    SpanSplits(s, IsSpace);
    var n := SpanLen(s[g..], NotNewline);
    SpanSplits(s[g..], NotNewline);
    gap, tail := s[..g], s[g..][n..];
    assert Body(s) + tail == s[g..];
  }

  // ---------- RFC 5424 ----------

  function Line5424(m: Groups5424, gaps: seq<string>, gap: string): string
    requires |gaps| == |m.fields|
  {
    "<" + m.pri + ">" + m.version + Joined(gaps, m.fields) + gap + m.message
  }

  /** s is the line of these groups with these gaps, followed by tail. */
  ghost predicate Reads5424(s: string, m: Groups5424, gaps: seq<string>, gap: string, tail: string) {
    && Run(m.pri, IsDigit) && Run(m.version, IsDigit)
    && |gaps| == |m.fields| == 5 && AllRuns(gaps, IsSpace) && AllRuns(m.fields, NotSpace)
    && All(gap, IsSpace) && (gap == "" ==> m.message + tail == "")
    && All(m.message, NotNewline) && Stops(m.message + tail, IsSpace) && Stops(tail, NotNewline)
    && s == Line5424(m, gaps, gap) + tail
  }

  lemma Match5424Back(s: string, m: Groups5424, gaps: seq<string>, gap: string, tail: string)
    requires Reads5424(s, m, gaps, gap, tail)
    ensures Match5424(s) == Some(m)
  {
    hide Joined, Body, Fields, Pri;
    var rest := gap + m.message + tail;
    var line := Joined(gaps, m.fields) + rest;
    assert s == "<" + m.pri + ">" + (m.version + line);
    PriBack(m.pri, m.version + line);
    assert Stops(line, IsDigit) by { JoinedStarts(gaps, m.fields, rest); }
    SpanAppend(m.version, line, IsDigit);
    FieldsBack(line, gaps, m.fields, rest);
    BodyBack(gap, m.message, tail);
  }

  lemma JoinedStarts(gaps: seq<string>, fields: seq<string>, rest: string)
    requires |gaps| == |fields| > 0 && AllRuns(gaps, IsSpace)
    ensures Stops(Joined(gaps, fields) + rest, NotSpace) && Stops(Joined(gaps, fields) + rest, IsDigit)
  {
    assert (Joined(gaps, fields) + rest)[0] == gaps[0][0];
  }

  lemma LineAssembled(m: Groups5424, gaps: seq<string>, gap: string, tail: string, fields: string, rest: string)
    requires |gaps| == |m.fields| && fields == Joined(gaps, m.fields) + rest && rest == gap + m.message + tail
    ensures "<" + m.pri + ">" + (m.version + fields) == Line5424(m, gaps, gap) + tail
  {
    hide Joined;
  }

  lemma Match5424Sound(s: string) returns (gaps: seq<string>, gap: string, tail: string)
    requires Match5424(s).Some?
    ensures Reads5424(s, Match5424(s).value, gaps, gap, tail)
  {
    hide Joined, Body, Fields, Pri, AllRuns;
    var m := Match5424(s).value;
    PriIsDigits(s);
    var r := Pri(s).value.1;
    var v := SpanLen(r, IsDigit);
    SpanSplits(r, IsDigit);
    gaps := FieldsSound(r[v..], 5);
    var rest := Fields(r[v..], 5).value.1;
    gap, tail := BodySound(rest);
    assert rest == gap + m.message + tail;
    LineAssembled(m, gaps, gap, tail, r[v..], rest);
    if gap == "" {
      assert rest == m.message + tail;
    }
  }

  /** The matcher is the expression: it yields groups exactly when the line is made of them. */
  lemma Match5424Exactly(s: string, m: Groups5424)
    ensures Match5424(s) == Some(m) <==> exists gaps, gap, tail :: Reads5424(s, m, gaps, gap, tail)
  {
    hide Match5424, Reads5424;
    if Match5424(s) == Some(m) {
      var gaps, gap, tail := Match5424Sound(s);
    }
    if gaps, gap, tail :| Reads5424(s, m, gaps, gap, tail) {
      Match5424Back(s, m, gaps, gap, tail);
    }
  }

  /** Parsing undoes printing in the RFC 5424 form, whatever the gaps and the blanks around the line. */
  lemma Parse5424Back(before: string, m: Groups5424, gaps: seq<string>, gap: string, after: string)
    requires |gaps| == |m.fields|
    requires Reads5424(Line5424(m, gaps, gap), m, gaps, gap, "")
    requires All(before, IsBlank) && All(after, IsBlank)
    requires var line := Line5424(m, gaps, gap); !IsBlank(line[|line| - 1])
    ensures var line := Line5424(m, gaps, gap);
            Parse(before + line + after) ==
              Ok(ParsedMessage(RFC5424, Atoi(m.pri) / 8, Atoi(m.pri) % 8, m.fields[0], m.fields[1], m.fields[2], m.message, line))
  {
    hide Joined, TrimSpace, Match5424;
    var line := Line5424(m, gaps, gap);
    assert line[0] == '<';
    TrimBack(before, line, after);
    Match5424Back(line, m, gaps, gap, "");
  }

  // ---------- RFC 3164 ----------

  function Bracketed(pid: Option<string>): string {
    if pid.None? then "" else "[" + pid.value + "]"
  }

  predicate GoodPid(pid: Option<string>) {
    pid.Some? ==> Run(pid.value, IsDigit)
  }

  lemma TagBack(pid: Option<string>, rest: string)
    requires GoodPid(pid)
    ensures Tag(Bracketed(pid) + ":" + rest) == Some((pid, rest))
  {
    var s := Bracketed(pid) + ":" + rest;
    if pid.Some? {
      var more := "]:" + rest;
      assert s == "[" + (pid.value + more);
      SpanAppend(pid.value, more, IsDigit);
      BracketsBack(pid.value, more);
    } else {
      assert s[1..] == rest;
    }
  }

  lemma BracketsBack(pid: string, more: string)
    requires |more| >= 2
    ensures var s := "[" + (pid + more);
            && s[1..] == pid + more && s[1..|pid| + 1] == pid && s[|pid| + 3..] == more[2..]
            && s[|pid| + 1] == more[0] && s[|pid| + 2] == more[1]
  {
  }

  lemma TagSound(s: string)
    ensures Tag(s).Some? ==>
              && GoodPid(Tag(s).value.0)
              && s == Bracketed(Tag(s).value.0) + ":" + Tag(s).value.1
  {
    if s != "" {
      var k := SpanLen(s[1..], IsDigit);
      SpanSplits(s[1..], IsDigit);
      assert s[1..][..k] == s[1..k + 1];
    }
  }

  /** No shorter program is followed by a tag. */
  ghost predicate Shortest(program: string, rest: string) {
    forall i :: 1 <= i < |program| ==> Tag(program[i..] + rest).None?
  }

  lemma {:induction false} ProgramBack(program: string, pid: Option<string>, rest: string, n: nat)
    requires Run(program, NotSpace) && GoodPid(pid) && n <= |program|
    requires Shortest(program, Bracketed(pid) + ":" + rest)
    ensures Program(program + (Bracketed(pid) + ":" + rest), n) == Some((program, pid, rest))
    decreases |program| - n
  {
    hide Tag, Bracketed;
    var more := Bracketed(pid) + ":" + rest;
    var s := program + more;
    assert s[n..] == program[n..] + more;
    if n == |program| {
      assert s[n..] == more && s[..n] == program;
      TagBack(pid, rest);
    } else {
      ProgramBack(program, pid, rest, n + 1);
    }
  }

  lemma {:induction false} ProgramSound(s: string, n: nat)
    requires n <= |s| && Program(s, n).Some?
    requires All(s[..n], NotSpace) && forall i :: 1 <= i < n ==> Tag(s[i..]).None?
    ensures var (program, pid, rest) := Program(s, n).value;
            && Run(program, NotSpace) && GoodPid(pid)
            && s == program + (Bracketed(pid) + ":" + rest)
            && Shortest(program, Bracketed(pid) + ":" + rest)
    decreases |s| - n
  {
    hide Tag, Bracketed, GoodPid;
    if n > 0 && Tag(s[n..]).Some? {
      var (program, pid, rest) := Program(s, n).value;
      TagSound(s[n..]);
      assert s == s[..n] + s[n..];
      forall i | 1 <= i < |program| ensures Tag(program[i..] + (Bracketed(pid) + ":" + rest)).None? {
        assert program[i..] + s[n..] == s[i..];
      }
    } else {
      ProgramSound(s, n + 1);
    }
  }

  /** The last characters are a bracketed number, and are not the whole. */
  predicate EndsBracketed(program: string) {
    exists i :: 1 <= i < |program| - 2 && program[i] == '[' && program[|program| - 1] == ']'
                && Run(program[i + 1..|program| - 1], IsDigit)
  }

  /** Programs the expression reads whole: no colon after the first character, and no bracketed
      number at the end unless one more follows. */
  predicate ReadWhole(program: string, pid: Option<string>) {
    (forall i :: 1 <= i < |program| ==> program[i] != ':') && (pid.None? ==> !EndsBracketed(program))
  }

  lemma ColonIsTag(program: string, rest: string, i: int)
    requires 1 <= i < |program| && program[i] == ':'
    ensures !Shortest(program, rest)
  {
    assert (program[i..] + rest)[0] == ':';
  }

  lemma BracketIsTag(program: string, rest: string)
    requires EndsBracketed(program)
    ensures !Shortest(program, ":" + rest)
  {
    hide Tag;
    var i :| 1 <= i < |program| - 2 && program[i] == '[' && program[|program| - 1] == ']'
             && Run(program[i + 1..|program| - 1], IsDigit);
    var pid := program[i + 1..|program| - 1];
    assert program[i..] == Bracketed(Some(pid));
    TagBack(Some(pid), rest);
    assert Bracketed(Some(pid)) + ":" + rest == program[i..] + (":" + rest);
  }

  lemma EarlyTag(program: string, pid: Option<string>, rest: string, i: int)
    requires GoodPid(pid) && 1 <= i < |program|
    ensures Tag(program[i..] + (Bracketed(pid) + ":" + rest)).Some? ==> !ReadWhole(program, pid)
  {
    var s := program[i..] + (Bracketed(pid) + ":" + rest);
    if Tag(s).Some? && program[i] != ':' {
      var k := SpanLen(s[1..], IsDigit);
      SpanSplits(s[1..], IsDigit);
      var end := |program| - i;
      assert s[end] == if pid.None? then ':' else '[';
      assert forall j :: 1 <= j <= k ==> s[j] == s[1..][..k][j - 1];
      if k + 2 < end {
        assert program[i + k + 2] == ':';
      } else {
        assert pid.None? && end == k + 2;
        assert program[i + 1..|program| - 1] == s[1..][..k];
      }
    }
  }

  lemma ShortestExactly(program: string, pid: Option<string>, rest: string)
    requires GoodPid(pid)
    ensures Shortest(program, Bracketed(pid) + ":" + rest) <==> ReadWhole(program, pid)
  {
    hide Tag;
    var more := Bracketed(pid) + ":" + rest;
    if ReadWhole(program, pid) {
      forall i | 1 <= i < |program| ensures Tag(program[i..] + more).None? {
        EarlyTag(program, pid, rest, i);
      }
    } else if i :| 1 <= i < |program| && program[i] == ':' {
      ColonIsTag(program, more, i);
    } else {
      assert more == ":" + rest;
      BracketIsTag(program, rest);
    }
  }

  function Line3164(m: Groups3164, g0: string, g1: string, gap: string): string {
    "<" + m.pri + ">" + m.stamp + g0 + m.host + g1 + m.program + Bracketed(m.pid) + ":" + gap + m.message
  }

  /** What the groups must be like for the expression to read them back. */
  ghost predicate Readable(m: Groups3164) {
    && Run(m.pri, IsDigit) && |m.stamp| == 15 && All(m.stamp, NotNewline)
    && Run(m.host, NotSpace) && Run(m.program, NotSpace) && GoodPid(m.pid)
    && All(m.message, NotNewline)
  }

  /** s is the line of these groups with these gaps, followed by tail. */
  ghost predicate Spells3164(s: string, m: Groups3164, g0: string, g1: string, gap: string, tail: string) {
    && Readable(m) && Run(g0, IsSpace) && Run(g1, IsSpace) && All(gap, IsSpace)
    && Stops(m.message + tail, IsSpace) && Stops(tail, NotNewline)
    && s == Line3164(m, g0, g1, gap) + tail
  }

  lemma {:induction false} SpanAtLeast(a: string, b: string, p: char -> bool)
    requires All(a, p)
    ensures SpanLen(a + b, p) >= |a|
  {
    if a != "" {
      assert (a + b)[1..] == a[1..] + b;
      SpanAtLeast(a[1..], b, p);
    }
  }

  lemma LineRegrouped(m: Groups3164, g0: string, g1: string, gap: string, tail: string)
    ensures Line3164(m, g0, g1, gap) + tail ==
              "<" + m.pri + ">" + (m.stamp + (g0 + m.host + (g1 + (m.program + (Bracketed(m.pid) + ":" + (gap + m.message + tail))))))
  {
    hide Bracketed;
  }

  /** Everything up to the program is read as printed, whatever the program is. */
  lemma ReadsUpToProgram(s: string, m: Groups3164, g0: string, g1: string, gap: string, tail: string)
    requires Spells3164(s, m, g0, g1, gap, tail)
    ensures var program := Program(m.program + (Bracketed(m.pid) + ":" + (gap + m.message + tail)), 0);
            Match3164(s) ==
              if program.None? then None
              else Some(Groups3164(m.pri, m.stamp, m.host, program.value.0, program.value.1, Body(program.value.2)))
  {
    hide Pri, Token, Program, Body, Bracketed, Line3164;
    var z := m.program + (Bracketed(m.pid) + ":" + (gap + m.message + tail));
    LineRegrouped(m, g0, g1, gap, tail);
    var r := m.stamp + (g0 + m.host + (g1 + z));
    PriBack(m.pri, r);
    SpanAtLeast(m.stamp, g0 + m.host + (g1 + z), NotNewline);
    assert r[15..] == g0 + m.host + (g1 + z) && r[..15] == m.stamp;
    assert (g1 + z)[0] == g1[0];
    TokenBack(g0, m.host, g1 + z);
    assert z[0] == m.program[0];
    SpanAppend(g1, z, IsSpace);
  }

  lemma {:induction false} ProgramNoLonger(program: string, rest: string, n: nat)
    requires Run(program, NotSpace) && n <= |program| && !Shortest(program, rest)
    ensures Program(program + rest, n).Some? ==> forall j :: n <= j && 1 <= j < |program| && Tag(program[j..] + rest).Some? ==>
              |Program(program + rest, n).value.0| <= j
    decreases |program| - n
  {
    hide Tag;
    var s := program + rest;
    if n < |program| && !(n > 0 && Tag(s[n..]).Some?) {
      ProgramNoLonger(program, rest, n + 1);
    }
    assert forall j :: n <= j < |program| ==> s[j..] == program[j..] + rest;
  }

  /** The groups come back exactly when the program is one the expression reads whole. */
  lemma Match3164Back(s: string, m: Groups3164, g0: string, g1: string, gap: string, tail: string)
    requires Spells3164(s, m, g0, g1, gap, tail)
    ensures Match3164(s) == Some(m) <==> ReadWhole(m.program, m.pid)
    ensures Match3164(s).Some? && Match3164(s).value.program == m.program ==> ReadWhole(m.program, m.pid)
  {
    hide Match3164, ReadWhole, Program, Body, Bracketed, Line3164, Shortest, Run;
    var more := gap + m.message + tail;
    var rest := Bracketed(m.pid) + ":" + more;
    ReadsUpToProgram(s, m, g0, g1, gap, tail);
    ShortestExactly(m.program, m.pid, more);
    BodyBack(gap, m.message, tail);
    if Shortest(m.program, rest) {
      assert Run(m.program, NotSpace);
      ProgramBack(m.program, m.pid, more, 0);
    } else {
      NotShortestMissed(m.program, rest);
    }
  }

  lemma NotShortestMissed(program: string, rest: string)
    requires Run(program, NotSpace) && !Shortest(program, rest)
    ensures Program(program + rest, 0).Some? ==> Program(program + rest, 0).value.0 != program
  {
    hide Tag, Program;
    ProgramNoLonger(program, rest, 0);
    var i :| 1 <= i < |program| && Tag(program[i..] + rest).Some?;
  }

  lemma Match3164Sound(s: string) returns (g0: string, g1: string, gap: string, tail: string)
    requires Match3164(s).Some?
    ensures var m := Match3164(s).value;
            Spells3164(s, m, g0, g1, gap, tail) && ReadWhole(m.program, m.pid)
  {
    hide Pri, Token, Program, Body, Bracketed, Line3164, GoodPid, Shortest, ReadWhole;
    var m := Match3164(s).value;
    PriIsDigits(s);
    var r := Pri(s).value.1;
    SpanSplits(r, NotNewline);
    assert forall i :: 0 <= i < 15 ==> r[i] == r[..SpanLen(r, NotNewline)][i];
    TokenSound(r[15..]);
    g0 := Token(r[15..]).value.0;
    var after := Token(r[15..]).value.2;
    var g := SpanLen(after, IsSpace);
    SpanSplits(after, IsSpace);
    g1 := after[..g];
    ProgramSound(after[g..], 0);
    var body := Program(after[g..], 0).value.2;
    gap, tail := BodySound(body);
    ShortestExactly(m.program, m.pid, body);
    Line3164Assembled(m, s, r, after, g0, g1, gap, tail);
  }

  lemma Line3164Assembled(m: Groups3164, s: string, r: string, after: string, g0: string, g1: string, gap: string, tail: string)
    requires s == "<" + m.pri + ">" + r && |r| >= 15 && r[..15] == m.stamp
    requires r[15..] == g0 + m.host + after && |g1| <= |after| && after[..|g1|] == g1
    requires after[|g1|..] == m.program + (Bracketed(m.pid) + ":" + (gap + m.message + tail))
    ensures s == Line3164(m, g0, g1, gap) + tail
  {
    hide Bracketed;
    LineRegrouped(m, g0, g1, gap, tail);
    assert after == g1 + after[|g1|..];
    assert r == m.stamp + r[15..];
  }

  /** The matcher is the expression: it yields groups exactly when the line is made of them and the
      program is the shortest the expression can read. */
  lemma Match3164Exactly(s: string, m: Groups3164)
    ensures Match3164(s) == Some(m) <==>
              ReadWhole(m.program, m.pid) && exists g0, g1, gap, tail :: Spells3164(s, m, g0, g1, gap, tail)
  {
    hide Match3164, Spells3164, ReadWhole;
    if Match3164(s) == Some(m) {
      var g0, g1, gap, tail := Match3164Sound(s);
    }
    if g0, g1, gap, tail :| Spells3164(s, m, g0, g1, gap, tail) {
      Match3164Back(s, m, g0, g1, gap, tail);
    }
  }

  /** A line whose timestamp does not start with a digit is never taken as RFC 5424. */
  lemma NoDigitNever5424(pri: string, rest: string)
    requires Run(pri, IsDigit) && Stops(rest, IsDigit)
    ensures Match5424("<" + pri + ">" + rest).None?
  {
    hide Pri, Fields;
    PriBack(pri, rest);
  }

  /** Parsing undoes printing in the RFC 3164 form exactly for the programs that can be read whole. */
  lemma Parse3164Back(before: string, m: Groups3164, g0: string, g1: string, gap: string, after: string)
    requires Spells3164(Line3164(m, g0, g1, gap), m, g0, g1, gap, "")
    requires All(before, IsBlank) && All(after, IsBlank)
    requires var line := Line3164(m, g0, g1, gap); !IsBlank(line[|line| - 1])
    requires !IsDigit(m.stamp[0])
    ensures var line := Line3164(m, g0, g1, gap);
            var read := Parse(before + line + after);
            && (ReadWhole(m.program, m.pid) <==>
                  read == Ok(ParsedMessage(RFC3164, Atoi(m.pri) / 8, Atoi(m.pri) % 8, m.stamp, m.host, m.program, m.message, line)))
            && (read.Ok? ==> read.msg.format == RFC3164 && read.msg.hostname == m.host && read.msg.stamp == m.stamp)
  {
    hide TrimSpace, Match5424, Match3164, ReadWhole, Bracketed;
    var line := Line3164(m, g0, g1, gap);
    assert line[0] == '<';
    TrimBack(before, line, after);
    var rest := m.stamp + (g0 + m.host + (g1 + (m.program + (Bracketed(m.pid) + ":" + (gap + m.message + "")))));
    LineRegrouped(m, g0, g1, gap, "");
    assert line + "" == line;
    assert rest[0] == m.stamp[0];
    NoDigitNever5424(m.pri, rest);
    ReadsUpToProgram(line, m, g0, g1, gap, "");
    Match3164Back(line, m, g0, g1, gap, "");
  }

  // ---------- the priority ----------

  /** PRI = 8 * facility + severity with 0 <= severity < 8, for every PRI that fits an int. */
  lemma PriorityBack(facility: nat, severity: nat)
    requires severity < 8 && 8 * facility + severity <= MAX_INT
    ensures var pri := Atoi(Decimal(8 * facility + severity)); pri / 8 == facility && pri % 8 == severity
  {
    ValueOfDecimal(8 * facility + severity);
  }

  /** The number read, or the largest signed 64-bit one if it is too large. */
  lemma AtoiCaps(digits: string)
    requires All(digits, IsDigit)
    ensures Atoi(digits) == if Value(digits) < 9_223_372_036_854_775_808 then Value(digits) else 9_223_372_036_854_775_807
  {
  }

  lemma ParsedPriority(raw: string)
    ensures Parse(raw).Ok? ==>
              var p := Parse(raw).msg;
              && 0 <= p.severity < 8 && p.facility >= 0
              && Pri(p.raw).Some? && Run(Pri(p.raw).value.0, IsDigit)
              && var read := Value(Pri(p.raw).value.0);
                 8 * p.facility + p.severity == if read < 9_223_372_036_854_775_808 then read else 9_223_372_036_854_775_807
  {
    hide Pri, Fields, Token, Program, Body, TrimSpace, Atoi;
    var s := TrimSpace(raw);
    PriIsDigits(s);
    if Pri(s).Some? { AtoiCaps(Pri(s).value.0); }
  }

  // ---------- the stored line ----------

  lemma {:induction false} TrimEndClean(s: string)
    ensures TrimEnd(s) != "" ==> !IsBlank(TrimEnd(s)[|TrimEnd(s)| - 1]) && TrimEnd(s)[0] == s[0]
  {
    if s != "" && IsBlank(s[|s| - 1]) { TrimEndClean(s[..|s| - 1]); }
  }

  /** The stored raw line parses to the message it is stored with. */
  lemma RawParsesAgain(raw: string)
    ensures Parse(raw).Ok? ==> Parse(Parse(raw).msg.raw) == Parse(raw)
  {
    hide Match5424, Match3164, Atoi;
    var s := TrimSpace(raw);
    if s != "" {
      var r := raw[SpanLen(raw, IsBlank)..];
      SpanSplits(raw, IsBlank);
      TrimEndClean(r);
      TrimBack("", s, "");
      assert "" + s + "" == s;
    }
  }

  // ---------- what is refused ----------

  /** \s is the blanks that trimming knows but for the vertical tab. */
  lemma SpacesAreBlanks(c: char)
    ensures IsSpace(c) <==> IsBlank(c) && c != '\U{0B}'
    ensures IsBlank(c) <==> c in {' ', '\t', '\n', '\r', '\U{0B}', '\U{0C}'}
  {
  }

  lemma {:induction false} TrimEndEmpty(s: string)
    ensures TrimEnd(s) == "" <==> All(s, IsBlank)
  {
    if s != "" {
      TrimEndEmpty(s[..|s| - 1]);
      assert s == s[..|s| - 1] + [s[|s| - 1]];
    }
  }

  /** A line is refused as empty exactly when all of it is blank, and as unrecognised exactly when something
      is left that is neither a line of the one form nor of the other. */
  lemma RefusedExactly(raw: string)
    ensures Parse(raw) == EmptyMessage <==> All(raw, IsBlank)
    ensures Parse(raw) == Unrecognised <==>
              && !All(raw, IsBlank)
              && (forall g :: Match5424(TrimSpace(raw)) != Some(g)) && (forall g :: Match3164(TrimSpace(raw)) != Some(g))
  {
    hide Match5424, Match3164, IsBlank;
    var n := SpanLen(raw, IsBlank);
    SpanSplits(raw, IsBlank);
    TrimEndEmpty(raw[n..]);
    assert raw == raw[..n] + raw[n..];
    var s := TrimSpace(raw);
    if Match5424(s).Some? { assert Match5424(s) == Some(Match5424(s).value); }
    if Match3164(s).Some? { assert Match3164(s) == Some(Match3164(s).value); }
  }
}
