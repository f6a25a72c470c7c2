/**
 * The text of the CSV download of static/script.js (`downloadScheduleAsCSV`)
 * and the name it is saved under. JavaScript's number-to-text conversion is
 * the parameter `show`; the Blob and link mechanics are left out.
 */
module CsvExport {
  import opened Schedule
  import opened Amortization

  /** `parts.join(sep)`: the parts with one separator between neighbours; "" for no parts. */
  function Join(parts: seq<string>, sep: char): string
  {
    if |parts| == 0 then ""
    else if |parts| == 1 then parts[0]
    else parts[0] + [sep] + Join(parts[1..], sep)
  }

  /**
   * `s.split(sep)`: the maximal pieces of `s` between separators, always at
   * least one, with an empty piece before a leading or after a trailing
   * separator.
   */
  function Split(s: string, sep: char): (pieces: seq<string>)
    ensures |pieces| >= 1
    ensures |pieces| == 1 <==> sep !in s
  {
    if s == [] then [[]]
    else if s[0] == sep then [[]] + Split(s[1..], sep)
    else
      var rest := Split(s[1..], sep);
      [[s[0]] + rest[0]] + rest[1..]
  }

  /** A text without the separator is one piece. */
  lemma {:induction false} SplitWithoutSeparator(s: string, sep: char)
    requires sep !in s
    ensures Split(s, sep) == [s]
  {
    if s != [] {
      SplitWithoutSeparator(s[1..], sep);
      assert [s[0]] + s[1..] == s;
    }
  }

  /** A first piece free of the separator is split off at the separator that follows it. */
  lemma {:induction false} SplitAtSeparator(a: string, b: string, sep: char)
    requires sep !in a
    ensures Split(a + [sep] + b, sep) == [a] + Split(b, sep)
  {
    var s := a + [sep] + b;
    if a == [] {
      assert s[0] == sep && s[1..] == b;
    } else {
      assert s[0] == a[0] && s[1..] == a[1..] + [sep] + b;
      SplitAtSeparator(a[1..], b, sep);
      assert [a[0]] + a[1..] == a;
    }
  }

  /** Splitting undoes joining when no part holds the separator. */
  lemma {:induction false} SplitJoin(parts: seq<string>, sep: char)
    requires |parts| >= 1
    requires forall i :: 0 <= i < |parts| ==> sep !in parts[i]
    ensures Split(Join(parts, sep), sep) == parts
  {
    if |parts| == 1 {
      SplitWithoutSeparator(parts[0], sep);
    } else {
      SplitJoin(parts[1..], sep);
      SplitAtSeparator(parts[0], Join(parts[1..], sep), sep);
      assert [parts[0]] + parts[1..] == parts;
    }
  }

  /** The text ends in the separator exactly when its last piece is empty. */
  lemma {:induction false} LastPieceEmpty(s: string, sep: char)
    ensures var pieces := Split(s, sep);
      pieces[|pieces| - 1] == [] <==> s == [] || s[|s| - 1] == sep
  {
    if s != [] {
      LastPieceEmpty(s[1..], sep);
      if |s| > 1 {
        assert s[|s| - 1] == s[1..][|s[1..]| - 1];
      }
    }
  }

  /** Joining two or more parts always puts a separator in the text. */
  lemma JoinHasSeparator(parts: seq<string>, sep: char)
    requires |parts| >= 2
    ensures sep in Join(parts, sep)
  {
    assert Join(parts, sep) == parts[0] + [sep] + Join(parts[1..], sep);
    assert Join(parts, sep)[|parts[0]|] == sep;
  }

  const Header: seq<string> :=
    ["Month", "EMI Amount", "Principal", "Interest", "Remaining Balance", "Total Interest Paid"]

  /** The six exported values of a row, in header order; the running principal total is not exported. */
  function Fields(row: Row, show: real -> string): (fields: seq<string>)
    ensures |fields| == |Header|
  {
    [show(row.month as real), show(row.emi), show(row.principal), show(row.interest),
     show(row.remainingBalance), show(row.totalInterestPaid)]
  }

  /** One data line of the file. */
  function CsvLine(row: Row, show: real -> string): string
  {
    Join(Fields(row, show), ',')
  }

  /** The data lines, one per row and in schedule order. */
  function CsvLines(rows: seq<Row>, show: real -> string): (lines: seq<string>)
    ensures |lines| == |rows|
    ensures forall i :: 0 <= i < |rows| ==> lines[i] == CsvLine(rows[i], show)
  {
    if rows == [] then [] else CsvLines(rows[..|rows| - 1], show) + [CsvLine(rows[|rows| - 1], show)]
  }

  /** The file: the header line, then the data lines, separated by line breaks. */
  function CsvContent(data: Response, show: real -> string): string
    requires data.Success?
  {
    Join(FileLines(data.schedule, show), '\n')
  }

  /** A number's text that holds neither a comma nor a line break. */
  predicate PlainText(t: string)
  {
    ',' !in t && '\n' !in t
  }

  /** The header line reads back as the header. */
  lemma HeaderReadsBack()
    ensures Split(Join(Header, ','), ',') == Header
    ensures '\n' !in Join(Header, ',')
  {
    assert forall j :: 0 <= j < |Header| ==> ',' !in Header[j] && '\n' !in Header[j];
    SplitJoin(Header, ',');
    JoinAvoids(Header, ',', '\n');
  }

  /** A data line reads back as its row's six values and holds no line break. */
  lemma CsvLineReadsBack(row: Row, show: real -> string)
    requires forall x :: PlainText(show(x))
    ensures Split(CsvLine(row, show), ',') == Fields(row, show)
    ensures '\n' !in CsvLine(row, show)
  {
    var fields := Fields(row, show);
    assert forall j :: 0 <= j < |fields| ==> PlainText(fields[j]);
    SplitJoin(fields, ',');
    JoinAvoids(fields, ',', '\n');
  }

  /**
   * Parts free of the separator whose last part is not empty join into a
   * text that splits back into them and does not end in the separator.
   */
  lemma JoinReadsBack(parts: seq<string>, sep: char)
    requires |parts| >= 1 && parts[|parts| - 1] != []
    requires forall i :: 0 <= i < |parts| ==> sep !in parts[i]
    ensures Split(Join(parts, sep), sep) == parts
    ensures var text := Join(parts, sep); text != [] && text[|text| - 1] != sep
  {
    SplitJoin(parts, sep);
    LastPieceEmpty(Join(parts, sep), sep);
  }

  /** Every data line reads back as its row's six values and holds no line break. */
  lemma DataLinesReadBack(rows: seq<Row>, show: real -> string)
    requires forall x :: PlainText(show(x))
    ensures var lines := CsvLines(rows, show);
      forall i :: 0 <= i < |lines| ==>
        Split(lines[i], ',') == Fields(rows[i], show) && '\n' !in lines[i]
  {
    var lines := CsvLines(rows, show);
    forall i | 0 <= i < |lines|
      ensures Split(lines[i], ',') == Fields(rows[i], show) && '\n' !in lines[i]
    {
      CsvLineReadsBack(rows[i], show);
    }
  }

  /** The lines of the file: the header line, then one line per row. */
  function FileLines(rows: seq<Row>, show: real -> string): (lines: seq<string>)
    ensures |lines| == |rows| + 1
    ensures lines[0] == Join(Header, ',')
    ensures lines[1..] == CsvLines(rows, show)
  {
    [Join(Header, ',')] + CsvLines(rows, show)
  }

  /** No line of the file breaks, and the last one is not empty. */
  lemma FileLinesPlain(rows: seq<Row>, show: real -> string)
    requires forall x :: PlainText(show(x))
    ensures var lines := FileLines(rows, show);
      && (forall i :: 0 <= i < |lines| ==> '\n' !in lines[i])
      && lines[|lines| - 1] != []
  {
    var lines := FileLines(rows, show);
    var data := CsvLines(rows, show);
    HeaderReadsBack();
    DataLinesReadBack(rows, show);
    forall i | 0 <= i < |lines| ensures '\n' !in lines[i] {
      if i > 0 {
        assert lines[i] == data[i - 1];
      }
    }
    var last := if rows == [] then Header else Fields(rows[|rows| - 1], show);
    assert lines[|lines| - 1] == Join(last, ',');
    JoinHasSeparator(last, ',');
  }

  /**
   * Read back line by line and field by field, the file is the header
   * followed by the six values of every row in schedule order; it never ends
   * in a line break.
   */
  lemma CsvContentReadsBack(data: Response, show: real -> string)
    requires data.Success?
    requires forall x :: PlainText(show(x))
    ensures var content := CsvContent(data, show);
      var lines := Split(content, '\n');
      && |lines| == |data.schedule| + 1
      && Split(lines[0], ',') == Header
      && (forall i :: 0 <= i < |data.schedule| ==>
            Split(lines[i + 1], ',') == Fields(data.schedule[i], show))
      && content != [] && content[|content| - 1] != '\n'
  {
    var rows := data.schedule;
    var lines := FileLines(rows, show);
    assert CsvContent(data, show) == Join(lines, '\n');
    FileLinesPlain(rows, show);
    JoinReadsBack(lines, '\n');
    HeaderReadsBack();
    DataLinesReadBack(rows, show);
    forall i | 0 <= i < |rows|
      ensures Split(lines[i + 1], ',') == Fields(rows[i], show)
    {
      assert lines[i + 1] == CsvLines(rows, show)[i];
    }
  }

  /** Joining parts free of a character other than the separator leaves the text free of it. */
  lemma {:induction false} JoinAvoids(parts: seq<string>, sep: char, c: char)
    requires c != sep
    requires forall i :: 0 <= i < |parts| ==> c !in parts[i]
    ensures c !in Join(parts, sep)
  {
    if |parts| > 1 {
      JoinAvoids(parts[1..], sep, c);
    }
  }

  const FileNamePrefix := "EMI_Schedule_"
  const FileNameSuffix := "months.csv"

  /** The name the file is saved under: the loan amount and the month count between fixed parts. */
  function FileName(data: Response, show: real -> string): (name: string)
    requires data.Success?
  {
    FileNamePrefix + show(data.principal) + "_" + show(data.tenureMonths as real) + FileNameSuffix
  }

  /** A text of four underscore-free pieces joined by underscores splits back into them. */
  lemma {:induction false} FourPieces(a: string, b: string, c: string, d: string)
    requires '_' !in a && '_' !in b && '_' !in c && '_' !in d
    ensures Split(a + "_" + (b + "_" + (c + "_" + d)), '_') == [a, b, c, d]
  {
    SplitWithoutSeparator(d, '_');
    SplitAtSeparator(c, d, '_');
    SplitAtSeparator(b, c + "_" + d, '_');
    SplitAtSeparator(a, b + "_" + (c + "_" + d), '_');
  }

  /**
   * When neither number's text holds an underscore, the name splits at its
   * underscores into the fixed words, the loan amount, and the month count
   * followed by the fixed ending; and it ends in ".csv".
   */
  lemma FileNameReadsBack(data: Response, show: real -> string)
    requires data.Success?
    requires '_' !in show(data.principal) && '_' !in show(data.tenureMonths as real)
    ensures var name := FileName(data, show);
      && Split(name, '_') ==
           ["EMI", "Schedule", show(data.principal), show(data.tenureMonths as real) + FileNameSuffix]
      && name[|name| - 4..] == ".csv"
  {
    var p := show(data.principal);
    var m := show(data.tenureMonths as real);
    var head := FileNamePrefix + p + "_" + m;
    var name := FileName(data, show);
    assert name == head + FileNameSuffix;
    assert name[|name| - 4..] == FileNameSuffix[6..];
    var tail := m + FileNameSuffix;
    assert '_' !in tail by {
      assert '_' !in FileNameSuffix;
    }
    assert name == "EMI" + "_" + ("Schedule" + "_" + (p + "_" + tail));
    FourPieces("EMI", "Schedule", p, tail);
  }
}
