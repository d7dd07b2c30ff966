/** The CSV export of ledger entries and the reader it is meant for. */
module LedgerCsv {
  import opened Wrappers

  // ----- the printer

  const COMMA: char := ','
  const QUOTE: char := '"'
  const LF: char := '\n'

  function DoubleQuotes(s: string): string {
    if s == "" then ""
    else if s[0] == QUOTE then [QUOTE, QUOTE] + DoubleQuotes(s[1..])
    else [s[0]] + DoubleQuotes(s[1..])
  }

  predicate NeedsQuotes(s: string) {
    COMMA in s || QUOTE in s || LF in s
  }

  function EscapeCsv(s: string): string {
    if NeedsQuotes(s) then [QUOTE] + DoubleQuotes(s) + [QUOTE] else s
  }

  function Join(parts: seq<string>, separator: char): string {
    if parts == [] then ""
    else if |parts| == 1 then parts[0]
    else parts[0] + [separator] + Join(parts[1..], separator)
  }

  function EscapeAll(fields: seq<string>): seq<string> {
    seq(|fields|, i requires 0 <= i < |fields| => EscapeCsv(fields[i]))
  }

  function PrintRow(fields: seq<string>): string {
    Join(EscapeAll(fields), COMMA)
  }

  datatype Row = Row(date: string, kind: string, memberId: string, amount: string, balance: string, description: string)

  function Fields(r: Row): seq<string> {
    [r.date, r.kind, r.memberId, r.amount, r.balance, r.description]
  }

  const HEADERS: seq<string> :=
    ["Date", "Transaction Type", "Member ID", "Amount", "Running Balance", "Description"]

  function Records(rows: seq<Row>): seq<seq<string>> {
    [HEADERS] + seq(|rows|, i requires 0 <= i < |rows| => Fields(rows[i]))
  }

  /** The header is joined without escaping, every row with it. */
  function ExportCsv(rows: seq<Row>): string {
    Join([Join(HEADERS, COMMA)] + seq(|rows|, i requires 0 <= i < |rows| => PrintRow(Fields(rows[i]))), LF)
  }

  // ----- the reader: section 2 of RFC 4180, records separated by LF, a bare CR being plain text

  datatype Mode = Start | Plain | Quoted | Closing

  /** What has been read: finished records, finished fields of the current one, and the current field. */
  datatype Reader = Reader(records: seq<seq<string>>, fields: seq<string>, field: string, mode: Mode)

  function Advance(r: Reader, c: char): Option<Reader> {
    if r.mode.Quoted? then
      if c == QUOTE then Some(r.(mode := Closing)) else Some(r.(field := r.field + [c]))
    else if c == COMMA then
      Some(Reader(r.records, r.fields + [r.field], "", Start))
    else if c == LF then
      Some(Reader(r.records + [r.fields + [r.field]], [], "", Start))
    else if c == QUOTE then
      if r.mode.Start? then Some(r.(mode := Quoted))
      else if r.mode.Closing? then Some(r.(field := r.field + [QUOTE], mode := Quoted))
      else None
    else if r.mode.Closing? then None
    else Some(r.(field := r.field + [c], mode := Plain))
  }

  function Feed(r: Reader, s: string): Option<Reader>
    decreases s
  {
    if s == "" then Some(r)
    else
      match Advance(r, s[0])
      case None => None
      case Some(r') => Feed(r', s[1..])
  }

  /** A line break at the very end of the text ends the last record; it does not begin another. */
  function Finish(r: Reader): Option<seq<seq<string>>> {
    if r.mode.Quoted? then None
    else if r.mode.Start? && r.fields == [] then Some(r.records)
    else Some(r.records + [r.fields + [r.field]])
  }

  function ReadCsv(text: string): Option<seq<seq<string>>> {
    match Feed(Reader([], [], "", Start), text)
    case None => None
    case Some(r) => Finish(r)
  }

  // ----- the reader undoes the printer

  lemma {:induction false} FeedAppend(r: Reader, s: string, t: string)
    ensures Feed(r, s + t) == match Feed(r, s) case None => None case Some(r') => Feed(r', t)
    decreases s
  {
    if s == "" {
      assert s + t == t;
    } else {
      assert (s + t)[0] == s[0] && (s + t)[1..] == s[1..] + t;
      var r1 := Advance(r, s[0]);
      if r1.Some? {
        FeedAppend(r1.value, s[1..], t);
      }
    }
  }

  lemma {:induction false} FeedQuoted(r: Reader, s: string)
    requires r.mode.Quoted?
    ensures Feed(r, DoubleQuotes(s)) == Some(r.(field := r.field + s))
    decreases s
  {
    if s == "" {
      assert r.field + s == r.field;
    } else {
      var r' := r.(field := r.field + [s[0]]);
      FeedQuoted(r', s[1..]);
      assert r.field + [s[0]] + s[1..] == r.field + s;
      if s[0] == QUOTE {
        FeedTwo(r, QUOTE, QUOTE, DoubleQuotes(s[1..]));
      } else {
        FeedOne(r, s[0], DoubleQuotes(s[1..]));
      }
    }
  }

  lemma FeedOne(r: Reader, c: char, rest: string)
    ensures Feed(r, [c] + rest) == match Advance(r, c) case None => None case Some(r') => Feed(r', rest)
  {
    assert ([c] + rest)[1..] == rest;
  }

  lemma FeedTwo(r: Reader, c: char, d: char, rest: string)
    requires Advance(r, c).Some?
    ensures Feed(r, [c, d] + rest) ==
            match Advance(Advance(r, c).value, d) case None => None case Some(r') => Feed(r', rest)
  {
    assert [c, d] + rest == [c] + ([d] + rest);
    FeedOne(r, c, [d] + rest);
    FeedOne(Advance(r, c).value, d, rest);
  }

  lemma {:induction false} FeedPlain(r: Reader, s: string)
    requires r.mode.Start? || r.mode.Plain?
    requires !NeedsQuotes(s)
    ensures Feed(r, s) == Some(r.(field := r.field + s, mode := if s == "" then r.mode else Plain))
    decreases s
  {
    if s == "" {
      assert r.field + s == r.field;
    } else {
      FeedPlain(r.(field := r.field + [s[0]], mode := Plain), s[1..]);
      assert r.field + [s[0]] + s[1..] == r.field + s;
    }
  }

  /** A printed field reads as its text, ready for a separator, and an empty one leaves no trace. */
  lemma FeedField(r: Reader, s: string)
    requires r.mode.Start? && r.field == ""
    ensures var mode := if NeedsQuotes(s) then Closing else if s == "" then Start else Plain;
            Feed(r, EscapeCsv(s)) == Some(r.(field := s, mode := mode))
  {
    assert "" + s == s;
    if NeedsQuotes(s) {
      var q := r.(mode := Quoted);
      FeedOne(r, QUOTE, DoubleQuotes(s) + [QUOTE]);
      assert [QUOTE] + DoubleQuotes(s) + [QUOTE] == [QUOTE] + (DoubleQuotes(s) + [QUOTE]);
      FeedQuoted(q, s);
      FeedAppend(q, DoubleQuotes(s), [QUOTE]);
      assert [QUOTE] + "" == [QUOTE];
      FeedOne(q.(field := s), QUOTE, "");
    } else {
      FeedPlain(r, s);
    }
  }

  /** A printed row leaves its fields, the last one still current. */
  lemma {:induction false} FeedRow(r: Reader, fields: seq<string>)
    requires r.mode.Start? && r.field == "" && fields != []
    ensures var n := |fields| - 1;
            var mode := if NeedsQuotes(fields[n]) then Closing else if fields[n] == "" then Start else Plain;
            Feed(r, PrintRow(fields)) == Some(Reader(r.records, r.fields + fields[..n], fields[n], mode))
    decreases |fields|
  {
    FeedField(r, fields[0]);
    if |fields| == 1 {
      assert r.fields + fields[..0] == r.fields;
    } else {
      var rest := fields[1..];
      assert EscapeAll(fields)[1..] == EscapeAll(rest);
      var first, tail := EscapeCsv(fields[0]), PrintRow(rest);
      assert PrintRow(fields) == first + ([COMMA] + tail);
      FeedAppend(r, first, [COMMA] + tail);
      var after := Feed(r, first).value;
      FeedOne(after, COMMA, tail);
      var next := Reader(r.records, r.fields + [fields[0]], "", Start);
      FeedRow(next, rest);
      assert r.fields + [fields[0]] + rest[..|rest| - 1] == r.fields + fields[..|fields| - 1];
    }
  }

  function PrintAll(records: seq<seq<string>>): string {
    Join(seq(|records|, i requires 0 <= i < |records| => PrintRow(records[i])), LF)
  }

  lemma PrintAllStep(records: seq<seq<string>>)
    requires |records| >= 2
    ensures PrintAll(records) == PrintRow(records[0]) + ([LF] + PrintAll(records[1..]))
  {
    hide PrintRow;
    var rest := records[1..];
    var lines := seq(|records|, i requires 0 <= i < |records| => PrintRow(records[i]));
    assert lines[1..] == seq(|rest|, i requires 0 <= i < |rest| => PrintRow(rest[i]));
  }

  lemma PrintOne(records: seq<seq<string>>)
    requires |records| == 1
    ensures PrintAll(records) == PrintRow(records[0])
  {
  }

  /** A text of printed records, each of two fields or more, reads back as exactly those records. */
  lemma {:induction false} FeedAll(r: Reader, records: seq<seq<string>>)
    requires r.mode.Start? && r.field == "" && r.fields == []
    requires records != [] && forall i :: 0 <= i < |records| ==> |records[i]| >= 2
    ensures var end := Feed(r, PrintAll(records));
            end.Some? && Finish(end.value) == Some(r.records + records)
    decreases |records|
  {
    hide PrintAll, PrintRow, Feed;
    var head := records[0];
    var n := |head| - 1;
    FeedRow(r, head);
    assert r.fields + head[..n] == head[..n];
    assert head[..n] + [head[n]] == head;
    var after := Feed(r, PrintRow(head)).value;
    if |records| == 1 {
      PrintOne(records);
      assert r.records + [head] == r.records + records;
    } else {
      var rest := records[1..];
      PrintAllStep(records);
      FeedAppend(r, PrintRow(head), [LF] + PrintAll(rest));
      FeedOne(after, LF, PrintAll(rest));
      FeedAll(Reader(r.records + [head], [], "", Start), rest);
      assert r.records + [head] + rest == r.records + records;
    }
  }

  lemma ShortHeadersArePlain()
    ensures !NeedsQuotes("Date") && !NeedsQuotes("Member ID") && !NeedsQuotes("Amount")
  {
  }

  lemma LongHeadersArePlain()
    ensures !NeedsQuotes("Transaction Type")
    ensures !NeedsQuotes("Running Balance")
    ensures !NeedsQuotes("Description")
  {
  }

  lemma HeaderNeedsNoQuotes()
    ensures EscapeAll(HEADERS) == HEADERS
  {
    hide NeedsQuotes;
    ShortHeadersArePlain();
    LongHeadersArePlain();
    forall i | 0 <= i < |HEADERS| ensures EscapeCsv(HEADERS[i]) == HEADERS[i] {
      assert i == 0 || i == 1 || i == 2 || i == 3 || i == 4 || i == 5;
    }
  }

  lemma {:induction false} DoublingKeeps(s: string)
    ensures QUOTE !in s ==> DoubleQuotes(s) == s
    ensures |DoubleQuotes(s)| >= |s|
  {
    if s != "" {
      DoublingKeeps(s[1..]);
      assert s == [s[0]] + s[1..];
    }
  }

  /** A field is exported as it stands exactly when it has no comma, no quote and no line break. */
  lemma QuotedExactly(s: string)
    ensures EscapeCsv(s) == s <==> ',' !in s && '"' !in s && '\n' !in s
  {
    DoublingKeeps(s);
    assert NeedsQuotes(s) ==> |EscapeCsv(s)| == |DoubleQuotes(s)| + 2;
  }

  /** The export is uniquely readable: whatever the fields contain, the reader recovers the header and every field. */
  lemma ExportReadsBack(rows: seq<Row>)
    ensures ReadCsv(ExportCsv(rows)) == Some(Records(rows))
    ensures |Records(rows)| == |rows| + 1
    ensures Records(rows)[0] ==
            ["Date", "Transaction Type", "Member ID", "Amount", "Running Balance", "Description"]
    ensures forall i :: 0 <= i < |rows| ==>
              Records(rows)[i + 1] ==
              [rows[i].date, rows[i].kind, rows[i].memberId, rows[i].amount, rows[i].balance, rows[i].description]
  {
    hide Feed, EscapeAll, Finish;
    HeaderNeedsNoQuotes();
    var records := Records(rows);
    assert PrintRow(HEADERS) == Join(HEADERS, COMMA);
    assert [Join(HEADERS, COMMA)] + seq(|rows|, i requires 0 <= i < |rows| => PrintRow(Fields(rows[i])))
        == seq(|records|, i requires 0 <= i < |records| => PrintRow(records[i]));
    FeedAll(Reader([], [], "", Start), records);
    assert [] + records == records;
  }

  /** So two different sets of rows are never exported as the same text. */
  lemma ExportIsInjective(rows: seq<Row>, rows': seq<Row>)
    requires ExportCsv(rows) == ExportCsv(rows')
    ensures rows == rows'
  {
    hide ExportCsv, ReadCsv, Fields;
    ExportReadsBack(rows);
    ExportReadsBack(rows');
    assert |Records(rows)| == |rows| + 1 && |Records(rows')| == |rows'| + 1;
    forall i | 0 <= i < |rows| ensures rows[i] == rows'[i] {
      assert Records(rows)[i + 1] == Fields(rows[i]);
      assert Records(rows')[i + 1] == Fields(rows'[i]);
      FieldsDetermine(rows[i], rows'[i]);
    }
  }

  lemma FieldsDetermine(r: Row, r': Row)
    requires Fields(r) == Fields(r')
    ensures r == r'
  {
    assert Fields(r)[0] == r.date && Fields(r')[0] == r'.date;
    assert Fields(r)[1] == r.kind && Fields(r')[1] == r'.kind;
    assert Fields(r)[2] == r.memberId && Fields(r')[2] == r'.memberId;
    assert Fields(r)[3] == r.amount && Fields(r')[3] == r'.amount;
    assert Fields(r)[4] == r.balance && Fields(r')[4] == r'.balance;
    assert Fields(r)[5] == r.description && Fields(r')[5] == r'.description;
  }
}
