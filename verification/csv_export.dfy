/** `exportToCSV` in App.tsx: the session history as comma-separated text, one
    header line and one line per entry. Number-to-text conversion
    (`String(number)`) and the locale rendering of the timestamp
    (`new Date(ts).toLocaleString()`) are parameters, since both depend on the
    JavaScript engine and the browser's locale. */
module CsvExport {
  import opened Wrappers
  import opened Patient
  import opened Csv

  /** The twelve column titles, in order. */
  const Header: seq<string> := [
    "ID", "Timestamp", "Glucose (mg/dL)", "Creatinine (mg/dL)", "Age", "Gender",
    "Risk Score (%)", "Risk Level", "Glucose Status", "Creatinine Status",
    "Recommendation", "Explanation"]

  const Columns: nat := 12

  /** The text each column is meant to carry for an entry. */
  function RowValues(item: HistoryItem, number: real -> string, localTime: string -> string): (v: seq<string>)
    ensures |v| == Columns
  {
    [item.id, localTime(item.timestamp), number(item.input.glucose), number(item.input.creatinine),
     number(item.input.age), GenderText(item.input.gender), number(item.riskScore), item.riskLevel,
     item.glucoseStatus, item.creatinineStatus, item.recommendation, item.explanation]
  }

  /** The cells of an entry's line as written: the first eight verbatim, the
      four free-text statuses and advice quoted. */
  function RowCells(item: HistoryItem, number: real -> string, localTime: string -> string): (cells: seq<string>)
    ensures |cells| == Columns
    ensures cells[..8] == RowValues(item, number, localTime)[..8]
    ensures forall i :: 8 <= i < Columns ==> cells[i] == Escape(RowValues(item, number, localTime)[i])
  {
    var v := RowValues(item, number, localTime);
    v[..8] + [Escape(v[8]), Escape(v[9]), Escape(v[10]), Escape(v[11])]
  }

  function Rows(history: seq<HistoryItem>, number: real -> string, localTime: string -> string): (rows: seq<seq<string>>)
    ensures |rows| == |history|
    ensures forall i :: 0 <= i < |history| ==> rows[i] == RowCells(history[i], number, localTime)
  {
    if |history| == 0 then [] else [RowCells(history[0], number, localTime)] + Rows(history[1..], number, localTime)
  }

  /** The table the export is meant to hold: the header, then every entry's
      values, in history order (newest first). */
  function Table(history: seq<HistoryItem>, number: real -> string, localTime: string -> string): (t: seq<seq<string>>)
    ensures |t| == |history| + 1 && t[0] == Header
    ensures forall i :: 0 <= i < |history| ==> t[i + 1] == RowValues(history[i], number, localTime)
  {
    [Header] + seq(|history|, i requires 0 <= i < |history| => RowValues(history[i], number, localTime))
  }

  /** `exportToCSV`: nothing for an empty history, else the header line and
      the entries' lines joined with line breaks. */
  function ExportCsv(history: seq<HistoryItem>, number: real -> string, localTime: string -> string): (r: Option<string>)
    ensures r.None? <==> |history| == 0
  {
    if |history| == 0 then None else Some(Render([Header] + Rows(history, number, localTime)))
  }

  /** The cells written verbatim need no quotes. */
  predicate VerbatimCellsPlain(item: HistoryItem, number: real -> string, localTime: string -> string) {
    forall i :: 0 <= i < 8 ==> Plain(RowValues(item, number, localTime)[i])
  }

  lemma HeaderPlain()
    ensures forall i :: 0 <= i < |Header| ==> Plain(Header[i])
  {
    HeaderPlainLeft();
    HeaderPlainRight();
  }

  lemma HeaderPlainLeft()
    ensures forall i :: 0 <= i < 6 ==> Plain(Header[i])
  {
  }

  lemma HeaderPlainRight()
    ensures forall i :: 6 <= i < 12 ==> Plain(Header[i])
  {
  }

  lemma RowEncodes(item: HistoryItem, number: real -> string, localTime: string -> string)
    requires VerbatimCellsPlain(item, number, localTime)
    ensures EncodesAll(RowCells(item, number, localTime), RowValues(item, number, localTime))
  {
    var cells := RowCells(item, number, localTime);
    var v := RowValues(item, number, localTime);
    forall i | 0 <= i < Columns
      ensures Encodes(cells[i], v[i])
    {
      if i < 8 {
        assert cells[i] == cells[..8][i];
      }
    }
  }

  /** As long as no verbatim cell contains a comma or a line break (or starts
      with a quote), the export reads back as the header followed by one
      twelve-field record per entry, newest first, with every text field
      exactly as the service returned it. */
  lemma ExportReadsBack(history: seq<HistoryItem>, number: real -> string, localTime: string -> string)
    requires |history| > 0
    requires forall i :: 0 <= i < |history| ==> VerbatimCellsPlain(history[i], number, localTime)
    ensures ReadDocument(ExportCsv(history, number, localTime).value) == Some(Table(history, number, localTime))
  {
    var rows := [Header] + Rows(history, number, localTime);
    var table := Table(history, number, localTime);
    HeaderPlain();
    assert EncodesAll(Header, Header);
    assert EncodesTable(rows, table) by {
      forall j | 0 <= j < |rows|
        ensures |rows[j]| >= 2 && EncodesAll(rows[j], table[j])
      {
        if j > 0 {
          RowEncodes(history[j - 1], number, localTime);
        }
      }
    }
    RenderReadsBack(rows, table);
  }

  /** The cells of an entry's line with the Timestamp cell cut at a comma. */
  lemma SplitRowEncodes(item: HistoryItem, number: real -> string, localTime: string -> string,
                        date: string, time: string)
    requires forall i :: 0 <= i < 8 && i != 1 ==> Plain(RowValues(item, number, localTime)[i])
    requires Plain(date) && Plain(time)
    ensures
      var cells := RowCells(item, number, localTime);
      var v := RowValues(item, number, localTime);
      EncodesAll(cells[..1] + [date, time] + cells[2..], v[..1] + [date, time] + v[2..])
  {
    var cells := RowCells(item, number, localTime);
    var v := RowValues(item, number, localTime);
    var sc := cells[..1] + [date, time] + cells[2..];
    var sv := v[..1] + [date, time] + v[2..];
    forall i | 0 <= i < |sc|
      ensures Encodes(sc[i], sv[i])
    {
      if i == 0 {
        assert sc[0] == cells[..8][0];
      } else if 3 <= i < 9 {
        assert sc[i] == cells[..8][i - 1] && sv[i] == v[i - 1];
      } else if i >= 9 {
        assert sc[i] == cells[i - 1] && sv[i] == v[i - 1];
      }
    }
  }

  lemma TwoLines(a: seq<string>, b: seq<string>)
    ensures Render([a, b]) == Join(a, ',') + ("\n" + Join(b, ','))
  {
    RenderFirstLine([a, b]);
    assert [a, b][1..] == [b];
    RenderFirstLine([b]);
  }

  lemma SingleEntryExport(item: HistoryItem, number: real -> string, localTime: string -> string)
    ensures ExportCsv([item], number, localTime).value == Render([Header, RowCells(item, number, localTime)])
  {
    assert Rows([item], number, localTime) == [RowCells(item, number, localTime)];
  }

  function SplitCells(item: HistoryItem, number: real -> string, localTime: string -> string,
                      date: string, time: string): seq<string>
  {
    var cells := RowCells(item, number, localTime);
    cells[..1] + [date, time] + cells[2..]
  }

  lemma SameLine(item: HistoryItem, number: real -> string, localTime: string -> string,
                 date: string, time: string)
    requires localTime(item.timestamp) == date + "," + time
    ensures Join(RowCells(item, number, localTime), ',') == Join(SplitCells(item, number, localTime, date, time), ',')
  {
    var cells := RowCells(item, number, localTime);
    var v := RowValues(item, number, localTime);
    assert cells == cells[..1] + [date + [','] + time] + cells[2..] by {
      assert cells[1] == cells[..8][1] == v[1];
    }
    JoinSplits(cells[..1], date, time, cells[2..], ',');
  }

  lemma SplitLineReads(item: HistoryItem, number: real -> string, localTime: string -> string,
                       date: string, time: string)
    requires forall i :: 0 <= i < 8 && i != 1 ==> Plain(RowValues(item, number, localTime)[i])
    requires Plain(date) && Plain(time)
    ensures
      var v := RowValues(item, number, localTime);
      ReadDocument(Render([Header, SplitCells(item, number, localTime, date, time)]))
        == Some([Header, v[..1] + [date, time] + v[2..]])
  {
    var v := RowValues(item, number, localTime);
    var sc := SplitCells(item, number, localTime, date, time);
    var sv := v[..1] + [date, time] + v[2..];
    SplitRowEncodes(item, number, localTime, date, time);
    HeaderPlain();
    assert EncodesTable([Header, sc], [Header, sv]);
    RenderReadsBack([Header, sc], [Header, sv]);
  }

  lemma ExportSplitsLine(item: HistoryItem, number: real -> string, localTime: string -> string,
                         date: string, time: string)
    requires localTime(item.timestamp) == date + "," + time
    ensures ExportCsv([item], number, localTime).value == Render([Header, SplitCells(item, number, localTime, date, time)])
  {
    var cells := RowCells(item, number, localTime);
    var sc := SplitCells(item, number, localTime, date, time);
    SingleEntryExport(item, number, localTime);
    TwoLines(Header, cells);
    SameLine(item, number, localTime, date, time);
    TwoLines(Header, sc);
  }

  /** As written, a locale time with a comma in it (the usual form, as in
      "1/2/2026, 10:00:00 AM") is not quoted, so the comma splits the
      Timestamp column in two and the entry's record has thirteen fields. */
  lemma CommaInTimestampSplitsRecord(item: HistoryItem, number: real -> string, localTime: string -> string,
                                     date: string, time: string)
    requires forall i :: 0 <= i < 8 && i != 1 ==> Plain(RowValues(item, number, localTime)[i])
    requires localTime(item.timestamp) == date + "," + time
    requires Plain(date) && Plain(time)
    ensures
      var doc := ReadDocument(ExportCsv([item], number, localTime).value);
      doc.Some? && |doc.value| == 2 && doc.value[0] == Header && |doc.value[1]| == Columns + 1
  {
    var v := RowValues(item, number, localTime);
    SplitRecordRead(item, number, localTime, date, time);
    assert |v[..1] + [date, time] + v[2..]| == Columns + 1;
  }

  lemma SplitRecordRead(item: HistoryItem, number: real -> string, localTime: string -> string,
                        date: string, time: string)
    requires forall i :: 0 <= i < 8 && i != 1 ==> Plain(RowValues(item, number, localTime)[i])
    requires localTime(item.timestamp) == date + "," + time
    requires Plain(date) && Plain(time)
    ensures
      var v := RowValues(item, number, localTime);
      ReadDocument(ExportCsv([item], number, localTime).value) == Some([Header, v[..1] + [date, time] + v[2..]])
  {
    ExportSplitsLine(item, number, localTime, date, time);
    SplitLineReads(item, number, localTime, date, time);
  }

  /** The export with every cell quoted, which section 2 of RFC 4180 allows
      for any field. */
  function QuotedRowCells(item: HistoryItem, number: real -> string, localTime: string -> string): (cells: seq<string>)
    ensures |cells| == Columns
    ensures forall i :: 0 <= i < Columns ==> cells[i] == Escape(RowValues(item, number, localTime)[i])
  {
    var v := RowValues(item, number, localTime);
    seq(Columns, i requires 0 <= i < Columns => Escape(v[i]))
  }

  function QuotedRows(history: seq<HistoryItem>, number: real -> string, localTime: string -> string): (rows: seq<seq<string>>)
    ensures |rows| == |history|
    ensures forall i :: 0 <= i < |history| ==> rows[i] == QuotedRowCells(history[i], number, localTime)
  {
    if |history| == 0 then [] else [QuotedRowCells(history[0], number, localTime)] + QuotedRows(history[1..], number, localTime)
  }

  function ExportCsvQuoted(history: seq<HistoryItem>, number: real -> string, localTime: string -> string): (r: Option<string>)
    ensures r.None? <==> |history| == 0
  {
    if |history| == 0 then None else Some(Render([Header] + QuotedRows(history, number, localTime)))
  }

  /** With every cell quoted the export reads back as the header and the
      entries' values for any history and any rendering of numbers and times. */
  lemma ExportQuotedReadsBack(history: seq<HistoryItem>, number: real -> string, localTime: string -> string)
    requires |history| > 0
    ensures ReadDocument(ExportCsvQuoted(history, number, localTime).value) == Some(Table(history, number, localTime))
  {
    var rows := [Header] + QuotedRows(history, number, localTime);
    var table := Table(history, number, localTime);
    HeaderPlain();
    assert EncodesAll(Header, Header);
    assert EncodesTable(rows, table) by {
      forall j | 0 <= j < |rows|
        ensures |rows[j]| >= 2 && EncodesAll(rows[j], table[j])
      {
        if j > 0 {
          assert table[j] == RowValues(history[j - 1], number, localTime);
        }
      }
    }
    RenderReadsBack(rows, table);
  }
}
