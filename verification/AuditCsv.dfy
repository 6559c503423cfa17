/** The CSV export of the audit log (internal/audit/audit.go), and a reader for it in the style of section 2 of
    RFC 4180 that recovers every row. */
module AuditCsv {
  import opened Text

  const HEADER := "ID,Timestamp,Action,Resource,ResourceID,UserID,Username,IPAddress,Status,Error,Source\n"

  /** The characters of an RFC 3339 time. */
  predicate TimeText(s: string) {
    forall i :: 0 <= i < |s| ==> s[i] in "0123456789-:TZ+."
  }

  type Timestamp = s: string | TimeText(s)

  datatype AuditLog = AuditLog(id: string, timestamp: Timestamp, action: string, resource: string, resourceID: string,
                               userID: string, username: string, ipAddress: string, status: string, error: string,
                               source: string)

  function Columns(log: AuditLog): (cells: seq<string>)
    ensures |cells| == 11
  {
    [log.id, log.timestamp, log.action, log.resource, log.resourceID, log.userID, log.username, log.ipAddress,
     log.status, log.error, log.source]
  }

  // ----- writing -----

  predicate NeedsQuotes(s: string) {
    ',' in s || '"' in s || '\n' in s
  }

  function OneDoubled(c: char): string {
    if c == '"' then "\"\"" else [c]
  }

  function Doubled(s: string): string {
    if s == "" then "" else OneDoubled(s[0]) + Doubled(s[1..])
  }

  function Escape(s: string): string {
    if NeedsQuotes(s) then "\"" + Doubled(s) + "\"" else s
  }

  function Line(cells: seq<string>): string
    requires cells != []
  {
    Escape(cells[0]) + if |cells| == 1 then "\n" else "," + Line(cells[1..])
  }

  function Lines(logs: seq<AuditLog>): string {
    if logs == [] then "" else Line(Columns(logs[0])) + Lines(logs[1..])
  }

  function Exported(logs: seq<AuditLog>): string {
    HEADER + Lines(logs)
  }

  /** The cells before `k` have been written: with the rest of the line the buffer will be `goal`. */
  ghost predicate Written(buf: string, cells: seq<string>, k: nat, goal: string) {
    k < |cells| && buf + Line(cells[k..]) == goal
  }

  /** Writes one escaped cell and the comma after it. */
  method WriteCell(buf: string, text: string, ghost cells: seq<string>, ghost k: nat, ghost goal: string)
    returns (out: string)
    requires k + 1 < |cells| && text == Escape(cells[k]) && Written(buf, cells, k, goal)
    ensures Written(out, cells, k + 1, goal)
  {
    out := buf + text + ",";
    assert cells[k..][1..] == cells[k + 1..];
    hide Escape;
  }

  /** Writes the last cell and the line end. */
  method WriteLast(buf: string, text: string, ghost cells: seq<string>, ghost goal: string) returns (out: string)
    requires cells != [] && text == Escape(cells[|cells| - 1]) && Written(buf, cells, |cells| - 1, goal)
    ensures out == goal
  {
    out := buf + text + "\n";
    hide Escape;
  }

  method WriteRow(buf: string, log: AuditLog) returns (out: string)
    ensures out == buf + Line(Columns(log))
  {
    hide Written, Line, Escape, TimeText, Columns;
    ghost var cells, goal := Columns(log), buf + Line(Columns(log));
    ColumnsInOrder(log);
    NothingWritten(buf, cells);
    PlainTimestamp(log.timestamp);
    out := WriteCell(buf, Escape(log.id), cells, 0, goal);
    out := WriteCell(out, log.timestamp, cells, 1, goal);
    out := WriteCell(out, Escape(log.action), cells, 2, goal);
    out := WriteCell(out, Escape(log.resource), cells, 3, goal);
    out := WriteCell(out, Escape(log.resourceID), cells, 4, goal);
    out := WriteCell(out, Escape(log.userID), cells, 5, goal);
    out := WriteCell(out, Escape(log.username), cells, 6, goal);
    out := WriteCell(out, Escape(log.ipAddress), cells, 7, goal);
    out := WriteCell(out, Escape(log.status), cells, 8, goal);
    out := WriteCell(out, Escape(log.error), cells, 9, goal);
    out := WriteLast(out, Escape(log.source), cells, goal);
  }

  lemma ColumnsInOrder(log: AuditLog)
    ensures var cells := Columns(log);
      && cells[0] == log.id && cells[1] == log.timestamp && cells[2] == log.action && cells[3] == log.resource
      && cells[4] == log.resourceID && cells[5] == log.userID && cells[6] == log.username
      && cells[7] == log.ipAddress && cells[8] == log.status && cells[9] == log.error && cells[10] == log.source
  {
  }

  lemma NothingWritten(buf: string, cells: seq<string>)
    requires cells != []
    ensures Written(buf, cells, 0, buf + Line(cells))
  {
    assert cells[0..] == cells;
  }

  lemma PlainTimestamp(t: Timestamp)
    ensures Escape(t) == t
  {
    forall c | c in t ensures c != ',' && c != '"' && c != '\n' {
      var i :| 0 <= i < |t| && t[i] == c;
    }
  }

  lemma WrittenRow(buf: string, logs: seq<AuditLog>, i: nat)
    requires i < |logs|
    ensures buf + Lines(logs[i..]) == (buf + Line(Columns(logs[i]))) + Lines(logs[i + 1..])
  {
    hide Line, Columns;
    assert logs[i..][1..] == logs[i + 1..];
  }

  method ExportAuditLogsCSV(logs: seq<AuditLog>) returns (buf: string)
    ensures buf == Exported(logs)
  {
    hide Line, Columns;
    buf := HEADER;
    var i := 0;
    assert logs[0..] == logs;
    while i < |logs|
      invariant 0 <= i <= |logs|
      invariant buf + Lines(logs[i..]) == Exported(logs)
    {
      hide Lines, Exported;
      WrittenRow(buf, logs, i);
      buf := WriteRow(buf, logs[i]);
      i := i + 1;
    }
  }

  // ----- reading -----

  /** A value read from the front of a text, and the text after it. */
  datatype Read<T> = Fail | Got(value: T, rest: string)

  /** A line ends at a line feed, or, for a reader that accepts `crlf`, also at a carriage return and a line feed. */
  predicate LineEnds(s: string, crlf: bool) {
    s != "" && (s[0] == '\n' || (crlf && |s| > 1 && s[0] == '\r' && s[1] == '\n'))
  }

  function ReadBare(s: string, crlf: bool): (r: Read<string>)
    ensures r.Got? && |r.rest| <= |s|
  {
    if s == "" || s[0] == ',' || LineEnds(s, crlf) then Got("", s)
    else
      var r := ReadBare(s[1..], crlf);
      Got([s[0]] + r.value, r.rest)
  }

  /** Reads up to the closing quote, taking each pair of quotes for one. */
  function ReadQuoted(s: string): (r: Read<string>)
    ensures r.Got? ==> |r.rest| < |s|
  {
    if s == "" then Fail
    else if s[0] != '"' then
      var r := ReadQuoted(s[1..]);
      if r.Got? then Got([s[0]] + r.value, r.rest) else Fail
    else if |s| > 1 && s[1] == '"' then
      var r := ReadQuoted(s[2..]);
      if r.Got? then Got(['"'] + r.value, r.rest) else Fail
    else Got("", s[1..])
  }

  function ReadCell(s: string, crlf: bool): (r: Read<string>)
    ensures r.Got? ==> |r.rest| <= |s|
  {
    if s != "" && s[0] == '"' then ReadQuoted(s[1..]) else ReadBare(s, crlf)
  }

  function ReadLine(s: string, crlf: bool): (r: Read<seq<string>>)
    ensures r.Got? ==> |r.rest| < |s|
    decreases |s|
  {
    var cell := ReadCell(s, crlf);
    if cell.Fail? || cell.rest == "" then Fail
    else if LineEnds(cell.rest, crlf) then Got([cell.value], cell.rest[if cell.rest[0] == '\n' then 1 else 2..])
    else if cell.rest[0] != ',' then Fail
    else
      var more := ReadLine(cell.rest[1..], crlf);
      if more.Got? then Got([cell.value] + more.value, more.rest) else Fail
  }

  function ReadLines(s: string, crlf: bool): Option<seq<seq<string>>>
    decreases |s|
  {
    if s == "" then Some([])
    else
      var line := ReadLine(s, crlf);
      if line.Fail? then None
      else
        var more := ReadLines(line.rest, crlf);
        if more.Some? then Some([line.value] + more.value) else None
  }

  function ReadExport(s: string, crlf: bool): Option<seq<seq<string>>> {
    if HEADER <= s then ReadLines(s[|HEADER|..], crlf) else None
  }

  // ----- the reader undoes the writer -----

  /** A field is written as it is exactly when it has no comma, no quote and no line feed. */
  lemma EscapedExactly(s: string)
    ensures Escape(s) == s <==> forall i :: 0 <= i < |s| ==> s[i] != ',' && s[i] != '"' && s[i] != '\n'
  {
    if NeedsQuotes(s) {
      DoubledIsLonger(s);
    }
  }

  lemma {:induction false} DoubledIsLonger(s: string)
    ensures |Doubled(s)| >= |s|
  {
    if s != "" {
      DoubledIsLonger(s[1..]);
    }
  }

  predicate CellEnds(tail: string, crlf: bool) {
    tail != "" && (tail[0] == ',' || LineEnds(tail, crlf))
  }

  predicate EndsInCr(s: string) {
    s != "" && s[|s| - 1] == '\r'
  }

  lemma {:induction false} ReadsBare(s: string, tail: string, crlf: bool)
    requires !NeedsQuotes(s) && CellEnds(tail, crlf) && !(crlf && EndsInCr(s) && tail[0] == '\n')
    ensures ReadBare(s + tail, crlf) == Got(s, tail)
  {
    if s == "" {
      assert s + tail == tail;
    } else {
      assert s[0] in s && (|s| > 1 ==> s[1] in s);
      assert (s + tail)[1..] == s[1..] + tail;
      ReadsBare(s[1..], tail, crlf);
      assert [s[0]] + s[1..] == s;
    }
  }

  lemma {:induction false} ReadsQuoted(s: string, closing: string)
    requires closing != "" && closing[0] == '"' && (|closing| > 1 ==> closing[1] != '"')
    ensures ReadQuoted(Doubled(s) + closing) == Got(s, closing[1..])
  {
    if s == "" {
      assert Doubled(s) + closing == closing;
    } else {
      var text := Doubled(s[1..]) + closing;
      ReadsQuoted(s[1..], closing);
      ReadsOneQuoted(s[0], s[1..], text, closing[1..]);
      hide ReadQuoted, OneDoubled;
      assert [s[0]] + s[1..] == s;
      assert (OneDoubled(s[0]) + Doubled(s[1..])) + closing == OneDoubled(s[0]) + text;
    }
  }

  lemma ReadsOneQuoted(c: char, s: string, text: string, tail: string)
    requires ReadQuoted(text) == Got(s, tail)
    ensures ReadQuoted(OneDoubled(c) + text) == Got([c] + s, tail)
  {
    if c == '"' {
      assert ("\"\"" + text)[2..] == text;
    } else {
      assert ([c] + text)[1..] == text;
    }
  }

  lemma ReadsQuotedCell(doubled: string, s: string, tail: string, crlf: bool)
    requires ReadQuoted(doubled + ("\"" + tail)) == Got(s, tail)
    ensures ReadCell(("\"" + doubled + "\"") + tail, crlf) == Got(s, tail)
  {
    hide ReadQuoted, ReadBare;
    assert (("\"" + doubled + "\"") + tail)[1..] == doubled + ("\"" + tail);
  }

  lemma ReadsBareCell(s: string, tail: string, crlf: bool)
    requires !NeedsQuotes(s) && CellEnds(tail, crlf) && !(crlf && EndsInCr(s) && tail[0] == '\n')
    ensures ReadCell(s + tail, crlf) == Got(s, tail)
  {
    ReadsBare(s, tail, crlf);
    hide ReadQuoted, ReadBare;
    assert s != "" ==> s[0] in s;
  }

  /** A bare cell that ends in a carriage return loses it to a reader that takes the line end for "\r\n". */
  function Chomped(s: string, crlf: bool): string {
    if crlf && !NeedsQuotes(s) && EndsInCr(s) then s[..|s| - 1] else s
  }

  /** An escaped cell in front of a separator is read back, with the separator left over. */
  lemma ReadsCell(s: string, tail: string, crlf: bool)
    requires CellEnds(tail, crlf) && (tail[0] == '\n' ==> Chomped(s, crlf) == s)
    ensures ReadCell(Escape(s) + tail, crlf) == Got(s, tail)
  {
    hide ReadCell, ReadQuoted, Doubled;
    if NeedsQuotes(s) {
      ReadsQuoted(s, "\"" + tail);
      assert ("\"" + tail)[1..] == tail;
      ReadsQuotedCell(Doubled(s), s, tail, crlf);
    } else {
      ReadsBareCell(s, tail, crlf);
    }
  }

  lemma ReadsLastCell(s: string, tail: string, crlf: bool)
    ensures var r := ReadCell(Escape(s) + ("\n" + tail), crlf);
      && r.Got? && r.value == Chomped(s, crlf) && LineEnds(r.rest, crlf)
      && r.rest[if r.rest[0] == '\n' then 1 else 2..] == tail
  {
    hide ReadCell;
    if Chomped(s, crlf) == s {
      ReadsCell(s, "\n" + tail, crlf);
      assert ("\n" + tail)[1..] == tail;
    } else {
      var front := s[..|s| - 1];
      assert s == front + ['\r'];
      assert s + ("\n" + tail) == front + ("\r\n" + tail);
      ReadsBareCell(front, "\r\n" + tail, crlf);
      assert ("\r\n" + tail)[2..] == tail;
    }
  }

  /** The cells of a line as they are read. */
  function AsRead(cells: seq<string>, crlf: bool): seq<string>
    requires cells != []
  {
    cells[|cells| - 1 := Chomped(cells[|cells| - 1], crlf)]
  }

  lemma {:induction false} ReadsLine(cells: seq<string>, tail: string, crlf: bool)
    requires cells != []
    ensures ReadLine(Line(cells) + tail, crlf) == Got(AsRead(cells, crlf), tail)
    decreases |cells|
  {
    hide Escape, ReadCell, Chomped;
    var text := Line(cells) + tail;
    if |cells| == 1 {
      assert text == Escape(cells[0]) + ("\n" + tail);
      ReadsLastCell(cells[0], tail, crlf);
      assert AsRead(cells, crlf) == [Chomped(cells[0], crlf)];
    } else {
      var after := Line(cells[1..]) + tail;
      assert text == Escape(cells[0]) + ("," + after);
      ReadsCell(cells[0], "," + after, crlf);
      assert ("," + after)[1..] == after;
      ReadsLine(cells[1..], tail, crlf);
      assert AsRead(cells, crlf) == [cells[0]] + AsRead(cells[1..], crlf);
    }
  }

  function Table(logs: seq<AuditLog>): seq<seq<string>> {
    if logs == [] then [] else [Columns(logs[0])] + Table(logs[1..])
  }

  /** The logs as they are read: only the last column can differ. */
  function LogsAsRead(logs: seq<AuditLog>, crlf: bool): (r: seq<AuditLog>)
    ensures |r| == |logs|
    ensures forall i :: 0 <= i < |r| ==> r[i] == logs[i].(source := Chomped(logs[i].source, crlf))
  {
    if logs == [] then []
    else [logs[0].(source := Chomped(logs[0].source, crlf))] + LogsAsRead(logs[1..], crlf)
  }

  lemma LogAsRead(log: AuditLog, crlf: bool)
    ensures AsRead(Columns(log), crlf) == Columns(log.(source := Chomped(log.source, crlf)))
  {
    hide Chomped;
  }

  lemma {:induction false} ReadsLines(logs: seq<AuditLog>, crlf: bool)
    ensures ReadLines(Lines(logs), crlf) == Some(Table(LogsAsRead(logs, crlf)))
  {
    if logs != [] {
      ReadsLine(Columns(logs[0]), Lines(logs[1..]), crlf);
      LogAsRead(logs[0], crlf);
      hide Line, Columns, AsRead, Chomped, ReadLine;
      ReadsLines(logs[1..], crlf);
      var first := logs[0].(source := Chomped(logs[0].source, crlf));
      assert LogsAsRead(logs, crlf)[1..] == LogsAsRead(logs[1..], crlf);
    }
  }

  lemma {:induction false} TableInjective(a: seq<AuditLog>, b: seq<AuditLog>)
    requires Table(a) == Table(b)
    ensures a == b
  {
    if a != [] && b != [] {
      assert Table(a)[0] == Columns(a[0]) && Table(b)[0] == Columns(b[0]);
      assert Table(a)[1..] == Table(a[1..]) && Table(b)[1..] == Table(b[1..]);
      TableInjective(a[1..], b[1..]);
      SameColumns(a[0], b[0]);
    }
  }

  lemma SameColumns(a: AuditLog, b: AuditLog)
    requires Columns(a) == Columns(b)
    ensures a == b
  {
    hide Columns;
    ColumnsInOrder(a);
    ColumnsInOrder(b);
  }

  lemma ReadsExport(logs: seq<AuditLog>, crlf: bool)
    ensures ReadExport(Exported(logs), crlf) == Some(Table(LogsAsRead(logs, crlf)))
  {
    hide Lines, Table, LogsAsRead;
    assert Exported(logs)[|HEADER|..] == Lines(logs);
    ReadsLines(logs, crlf);
  }

  /** Whatever the fields contain, a reader whose lines end in "\n" recovers every column of every row. */
  lemma ExportIsReadable(logs: seq<AuditLog>)
    ensures ReadExport(Exported(logs), false) == Some(Table(logs))
  {
    hide Table, ReadExport;
    ReadsExport(logs, false);
    assert LogsAsRead(logs, false) == logs;
  }

  /** A reader that also accepts "\r\n" recovers everything exactly when no last column is written without quotes
      and ends in a carriage return. */
  lemma ExportIsReadableWithCrlf(logs: seq<AuditLog>)
    ensures ReadExport(Exported(logs), true) == Some(Table(logs)) <==>
            forall i :: 0 <= i < |logs| ==> NeedsQuotes(logs[i].source) || !EndsInCr(logs[i].source)
  {
    hide Table, ReadExport, Exported, NeedsQuotes;
    ReadsExport(logs, true);
    var read := LogsAsRead(logs, true);
    if Table(read) == Table(logs) {
      TableInjective(read, logs);
      forall i | 0 <= i < |logs| ensures NeedsQuotes(logs[i].source) || !EndsInCr(logs[i].source) {
        assert read[i].source == logs[i].source;
      }
    }
    if forall i :: 0 <= i < |logs| ==> NeedsQuotes(logs[i].source) || !EndsInCr(logs[i].source) {
      assert read == logs;
    }
  }

  /** A log whose last column is "api" and a carriage return is not recovered by that reader. */
  lemma CarriageReturnIsLost(log: AuditLog)
    requires log.source == "api\r"
    ensures ReadExport(Exported([log]), true) != Some(Table([log]))
  {
    ExportIsReadableWithCrlf([log]);
    assert [log][0].source == "api\r";
  }

  /** Two log lists that differ in any exported column are exported to different texts. */
  lemma ExportIsUnambiguous(a: seq<AuditLog>, b: seq<AuditLog>)
    ensures Exported(a) == Exported(b) <==> a == b
  {
    if Exported(a) == Exported(b) {
      ExportIsReadable(a);
      ExportIsReadable(b);
      TableInjective(a, b);
    }
  }
}
