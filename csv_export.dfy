/** The text half of exportToCSV: a fixed header line followed by one line per
    winner, lines joined by '\n' and fields by ','. Fields are written as they are,
    without quoting. */
module CsvExport {
  import opened Seqs
  import opened Contestants

  /** A recorded winner: the drawn contestant plus the record's identity, its draw
      date (here already rendered as the display text the export prints) and the
      campaign it was drawn in. */
  datatype Winner = Winner(contestant: Contestant, id: string, drawDate: string, drawType: string)

  const Header: seq<string> := ["Name", "Department", "Supervisor", "Tickets", "Draw Type", "Draw Date"]

  /** The draw-type column: "discovery-70" reads "70% Discovery", anything else "80% Discovery". */
  function DrawTypeLabel(drawType: string): (text: string)
    ensures text == "70% Discovery" <==> drawType == "discovery-70"
    ensures text == "70% Discovery" || text == "80% Discovery"
  {
    if drawType == "discovery-70" then "70% Discovery" else "80% Discovery"
  }

  predicate IsDigit(ch: char) {
    '0' <= ch <= '9'
  }

  /** The decimal numeral of n, as a number is printed: digits only, no leading zero. */
  function Decimal(n: nat): (s: string)
    ensures |s| >= 1
    ensures forall k :: 0 <= k < |s| ==> IsDigit(s[k])
    ensures n > 0 ==> s[0] != '0'
  {
    if n < 10 then [(48 + n) as char]
    else Decimal(n / 10) + [(48 + n % 10) as char]
  }

  /** The number a string of decimal digits denotes. */
  function DecimalValue(s: string): nat
    requires forall k :: 0 <= k < |s| ==> IsDigit(s[k])
  {
    if s == [] then 0
    else
      assert IsDigit(s[|s| - 1]);
      DecimalValue(s[..|s| - 1]) * 10 + (s[|s| - 1] as int - 48)
  }

  /** Reading the ticket column back gives the ticket count. */
  lemma {:induction false} DecimalRoundTrip(n: nat)
    ensures DecimalValue(Decimal(n)) == n
  {
    var s := Decimal(n);
    if n >= 10 {
      DecimalRoundTrip(n / 10);
      assert s[..|s| - 1] == Decimal(n / 10);
    }
  }

  /** The six fields of a winner's row, in header order. */
  function RowFields(w: Winner): (fields: seq<string>)
    ensures |fields| == |Header|
  {
    [w.contestant.name, w.contestant.department, w.contestant.supervisor, Decimal(w.contestant.tickets), DrawTypeLabel(w.drawType), w.drawDate]
  }

  /** One line per winner, in winner order. */
  function Rows(winners: seq<Winner>): (rows: seq<string>)
    ensures |rows| == |winners|
  {
    seq(|winners|, k requires 0 <= k < |winners| => Join(RowFields(winners[k]), ','))
  }

  /** The file content exportToCSV builds: it starts with the header line, and with
      no winners it is that line alone. */
  function CsvContent(winners: seq<Winner>): (content: string)
    ensures Join(Header, ',') <= content
    ensures winners == [] ==> content == Join(Header, ',')
  {
    Join([Join(Header, ',')] + Rows(winners), '\n')
  }

  /** Text that can stand in a field without breaking the line or the columns. */
  predicate PlainText(s: string) {
    ',' !in s && '\n' !in s
  }

  /** The winner's free-text fields are all plain. */
  predicate PlainFields(w: Winner) {
    PlainText(w.contestant.name) && PlainText(w.contestant.department) && PlainText(w.contestant.supervisor) && PlainText(w.drawDate)
  }

  /** A row of plain fields holds no line break, and splitting it at ',' gives back
      its six fields: the ticket column reads back as the ticket count and the
      draw-type column reads "70% Discovery" exactly for the "discovery-70" campaign. */
  lemma CsvRowRoundTrip(w: Winner)
    requires PlainFields(w)
    ensures '\n' !in Join(RowFields(w), ',')
    ensures var fields := Split(Join(RowFields(w), ','), ',');
      fields == RowFields(w) &&
      DecimalValue(fields[3]) == w.contestant.tickets &&
      (fields[4] == "70% Discovery" <==> w.drawType == "discovery-70")
  {
    var fields := RowFields(w);
    var digits := Decimal(w.contestant.tickets);
    forall k | 0 <= k < |digits| ensures digits[k] != ',' && digits[k] != '\n' {
      assert IsDigit(digits[k]);
    }
    assert forall k :: 0 <= k < |fields| ==> PlainText(fields[k]);
    PlainLine(fields);
    DecimalRoundTrip(w.contestant.tickets);
  }

  /** The header line splits at ',' into the six column names. */
  lemma CsvHeaderRoundTrip()
    ensures '\n' !in Join(Header, ',')
    ensures Split(Join(Header, ','), ',') == Header
  {
    PlainLine(Header);
  }

  /** A line of plain fields holds no line break and splits at ',' back into its fields. */
  lemma PlainLine(fields: seq<string>)
    requires fields != []
    requires forall k :: 0 <= k < |fields| ==> PlainText(fields[k])
    ensures '\n' !in Join(fields, ',')
    ensures Split(Join(fields, ','), ',') == fields
  {
    JoinAvoids(fields, ',', '\n');
    SplitJoin(fields, ',');
  }

  /** The winner's free-text fields hold no line break (they may hold ','). */
  predicate NoBreak(w: Winner) {
    '\n' !in w.contestant.name && '\n' !in w.contestant.department &&
    '\n' !in w.contestant.supervisor && '\n' !in w.drawDate
  }

  /** A winner whose free-text fields hold no line break gets a row without one. */
  lemma RowNoBreak(w: Winner)
    requires NoBreak(w)
    ensures '\n' !in Join(RowFields(w), ',')
  {
    var fields := RowFields(w);
    var digits := Decimal(w.contestant.tickets);
    forall k | 0 <= k < |digits| ensures digits[k] != '\n' {
      assert IsDigit(digits[k]);
    }
    assert forall k :: 0 <= k < |fields| ==> '\n' !in fields[k];
    JoinAvoids(fields, ',', '\n');
  }

  /** CSV shape: when the free-text fields hold no '\n' (commas are allowed), the
      content splits at '\n' into the header line followed by one line per winner,
      in winner order. */
  lemma CsvLines(winners: seq<Winner>)
    requires forall k :: 0 <= k < |winners| ==> NoBreak(winners[k])
    ensures Split(CsvContent(winners), '\n') == [Join(Header, ',')] + Rows(winners)
    ensures |Split(CsvContent(winners), '\n')| == |winners| + 1
  {
    var rows := Rows(winners);
    forall k | 0 <= k < |rows| ensures '\n' !in rows[k] {
      RowNoBreak(winners[k]);
    }
    CsvHeaderRoundTrip();
    SplitLines(Join(Header, ','), rows);
  }

  /** A first line followed by further lines, none holding '\n', splits back apart. */
  lemma SplitLines(first: string, rest: seq<string>)
    requires '\n' !in first
    requires forall k :: 0 <= k < |rest| ==> '\n' !in rest[k]
    ensures Split(Join([first] + rest, '\n'), '\n') == [first] + rest
  {
    if rest == [] {
      SplitPlain(first, '\n');
    } else {
      SplitJoin(rest, '\n');
      SplitCons(first, '\n', Join(rest, '\n'));
      assert ([first] + rest)[1..] == rest;
    }
  }
}
