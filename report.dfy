/**
 * Reporting over the store: the remaining capacity of each prize
 * (`getRemain`) and the text of the winners export (`exportWinners`).
 */
module Report {
  import opened Text
  import opened Records
  import Draw

  // -------------------------------------------------------- remaining

  /** One entry of `getRemain`: a prize with its remaining capacity. */
  datatype RemainEntry = RemainEntry(name: string, limit: int, count: int, remain: int)

  /** The `map` of script.js:145-150: each prize with its remaining capacity. */
  function Remaining(awards: seq<Prize>): (r: seq<RemainEntry>)
    ensures |r| == |awards|
    ensures forall k :: 0 <= k < |r| ==>
              r[k].name == awards[k].name && r[k].limit == awards[k].limit
              && r[k].count == awards[k].count && r[k].count + r[k].remain == r[k].limit
  {
    seq(|awards|, k requires 0 <= k < |awards| =>
      RemainEntry(awards[k].name, awards[k].limit, awards[k].count, awards[k].limit - awards[k].count))
  }

  /** While every count is within its limit, no remaining capacity is negative or above the limit. */
  lemma RemainingBounds(awards: seq<Prize>)
    requires Draw.WithinLimits(awards)
    ensures forall k :: 0 <= k < |awards| ==> 0 <= Remaining(awards)[k].remain <= awards[k].limit
  {
  }

  /** A prize has capacity left exactly when the draw may pick it. */
  lemma RemainingPositiveIffAvailable(awards: seq<Prize>, k: nat)
    requires k < |awards|
    ensures Remaining(awards)[k].remain > 0 <==> awards[k] in Draw.Available(awards)
  {
  }

  /** A draw that awards `name` takes one from the remaining capacity of each prize so called. */
  lemma RemainingAfterBump(awards: seq<Prize>, name: string, k: nat)
    requires k < |awards|
    ensures Remaining(Draw.Bump(awards, name))[k].remain
            == Remaining(awards)[k].remain - (if awards[k].name == name then 1 else 0)
  {
  }

  // ----------------------------------------------------------- export

  /** The header line of the export. */
  const CsvHeader: string := "姓名,好运,时间"

  /**
   * The line of one winner (script.js:108): name, award and time separated by
   * commas, with no quoting or escaping.
   */
  function CsvRow(w: WinnerRecord): (line: string)
    ensures |line| == |w.name| + |w.award| + |w.time| + 2
    ensures line[..|w.name|] == w.name && line[|w.name|] == ','
    ensures line[|w.name| + 1..|w.name| + 1 + |w.award|] == w.award
    ensures line[|w.name| + 1 + |w.award|] == ','
    ensures line[|w.name| + |w.award| + 2..] == w.time
  {
    w.name + "," + w.award + "," + w.time
  }

  function CsvRows(winners: seq<WinnerRecord>): (rows: seq<string>)
    ensures |rows| == |winners|
    ensures forall k :: 0 <= k < |rows| ==> rows[k] == CsvRow(winners[k])
  {
    seq(|winners|, k requires 0 <= k < |winners| => CsvRow(winners[k]))
  }

  /**
   * The text `exportWinners` downloads: the header line, a newline, and the
   * rows joined by newlines; nothing at all when the log is empty.
   */
  function ExportCsv(winners: seq<WinnerRecord>): (csv: Option<string>)
    ensures csv.None? <==> |winners| == 0
    ensures csv.Some? ==> |CsvHeader| + 1 + |CsvRow(winners[0])| <= |csv.value|
    ensures csv.Some? ==> csv.value[..|CsvHeader| + 1] == CsvHeader + "\n"
    ensures csv.Some? ==> csv.value[|CsvHeader| + 1..][..|CsvRow(winners[0])|] == CsvRow(winners[0])
  {
    if |winners| == 0 then None
    else Some(CsvHeader + "\n" + Join(CsvRows(winners), '\n'))
  }

  /** No field of the record holds `c`. */
  predicate FieldsAvoid(w: WinnerRecord, c: char)
  {
    c !in w.name && c !in w.award && c !in w.time
  }

  lemma CsvRowIsJoin(w: WinnerRecord)
    ensures CsvRow(w) == Join([w.name, w.award, w.time], ',')
  {
    var parts := [w.name, w.award, w.time];
    assert parts[1..] == [w.award, w.time];
    assert parts[1..][1..] == [w.time];
    assert Join(parts[1..], ',') == w.award + [','] + w.time;
  }

  /** A row splits back into name, award and time when no field holds a comma. */
  lemma CsvRowFields(w: WinnerRecord)
    requires FieldsAvoid(w, ',')
    ensures Split(CsvRow(w), ',') == [w.name, w.award, w.time]
  {
    CsvRowIsJoin(w);
    SplitJoin([w.name, w.award, w.time], ',');
  }

  /**
   * Fields are not escaped: a name holding one comma reads back as two
   * columns, so the row has four fields instead of three.
   */
  lemma CsvRowCommaInName(first: string, last: string, w: WinnerRecord)
    requires w.name == first + "," + last
    requires ',' !in first && ',' !in last && ',' !in w.award && ',' !in w.time
    ensures Split(CsvRow(w), ',') == [first, last, w.award, w.time]
  {
    var parts := [first, last, w.award, w.time];
    assert parts[1..] == [last, w.award, w.time];
    assert parts[1..][1..] == [w.award, w.time];
    assert parts[1..][1..][1..] == [w.time];
    assert Join(parts[1..][1..], ',') == w.award + [','] + w.time;
    assert Join(parts[1..], ',') == last + [','] + w.award + [','] + w.time;
    assert CsvRow(w) == Join(parts, ',');
    SplitJoin(parts, ',');
  }

  /**
   * When no field holds a newline, the export consists of exactly the header
   * line followed by one line per winner, in log order.
   */
  lemma ExportCsvLines(winners: seq<WinnerRecord>)
    requires |winners| > 0
    requires forall k :: 0 <= k < |winners| ==> FieldsAvoid(winners[k], '\n')
    ensures Split(ExportCsv(winners).value, '\n') == [CsvHeader] + CsvRows(winners)
  {
    var lines := [CsvHeader] + CsvRows(winners);
    assert lines[1..] == CsvRows(winners);
    assert ExportCsv(winners).value == Join(lines, '\n');
    forall k | 0 <= k < |lines| ensures '\n' !in lines[k] {
      if k > 0 {
        assert lines[k] == CsvRow(winners[k - 1]);
      }
    }
    SplitJoin(lines, '\n');
  }

  /** One winner `{Alice, Gold, T}` exports as the header line and `Alice,Gold,T`. */
  lemma ExportCsvExample()
    ensures ExportCsv([WinnerRecord("Alice", "Gold", "T")]) == Some(CsvHeader + "\n" + "Alice,Gold,T")
    ensures Split(ExportCsv([WinnerRecord("Alice", "Gold", "T")]).value, '\n') == [CsvHeader, "Alice,Gold,T"]
  {
    var ws := [WinnerRecord("Alice", "Gold", "T")];
    ExportCsvLines(ws);
    assert CsvRow(ws[0]) == "Alice,Gold,T";
    assert CsvRows(ws) == ["Alice,Gold,T"];
  }
}
