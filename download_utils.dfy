/**
  * The text of the CSV export of the teams: a header line and one line per
  * team, every cell wrapped in double quotes with inner quotes doubled (the
  * quoting rule of RFC 4180, section 2, rule 7), cells separated by `;` and
  * lines by a single `\n`.
  *
  * `ParseCsv` is a reader for exactly that format. It is not part of the
  * application; it is the partner the writer is proved against: reading the
  * exported text gives back the header and the team rows.
  */
module DownloadUtils {
  import opened Text
  import opened Teams

  // ---------------------------------------------------------------------------
  // Writer
  // ---------------------------------------------------------------------------

  /** `s.replace(/"/g, '""')`: every double quote doubled. */
  function Escape(s: string): (r: string)
    ensures |r| >= |s|
  {
    if s == [] then []
    else (if s[0] == '"' then "\"\"" else [s[0]]) + Escape(s[1..])
  }

  /** One cell: the escaped text between double quotes. */
  function QuoteCell(cell: string): string
  {
    "\"" + Escape(cell) + "\""
  }

  function QuoteAll(cells: seq<string>): (r: seq<string>)
    ensures |r| == |cells|
    ensures forall i | 0 <= i < |cells| :: r[i] == QuoteCell(cells[i])
  {
    seq(|cells|, i requires 0 <= i < |cells| => QuoteCell(cells[i]))
  }

  /** One line: the quoted cells joined with `;`. */
  function Line(cells: seq<string>): string
  {
    Join(QuoteAll(cells), ";")
  }

  function Lines(records: seq<seq<string>>): (r: seq<string>)
    ensures |r| == |records|
    ensures forall i | 0 <= i < |records| :: r[i] == Line(records[i])
  {
    seq(|records|, i requires 0 <= i < |records| => Line(records[i]))
  }

  /** The whole text: the lines joined with `\n`, with no newline after the last. */
  function Csv(records: seq<seq<string>>): string
  {
    Join(Lines(records), "\n")
  }

  const Headers: seq<string> := ["Equipe", "Integrantes", "Pontuacao", "Atividade"]

  /** The four cells of a team: label, members joined by " | ", score, activity or empty. */
  function Row(team: Team): (r: seq<string>)
    ensures |r| == 4
  {
    [ team.name,
      Join(team.members, " | "),
      IntToString(team.score),
      match team.activityLabel
      case Some(l) => l
      case None => "" ]
  }

  function Rows(teams: seq<Team>): (r: seq<seq<string>>)
    ensures |r| == |teams|
    ensures forall k | 0 <= k < |teams| :: r[k] == Row(teams[k])
  {
    seq(|teams|, k requires 0 <= k < |teams| => Row(teams[k]))
  }

  /**
    * The string-building part of `exportTeamsAsCSV(teams)`: the text reads
    * back as the header record followed by one record per team.
    */
  function ExportTeamsAsCsv(teams: seq<Team>): (r: string)
    ensures ParseCsv(r) == Some([Headers] + Rows(teams))
  {
    CsvRoundTrip([Headers] + Rows(teams));
    Csv([Headers] + Rows(teams))
  }

  // ---------------------------------------------------------------------------
  // Reader
  // ---------------------------------------------------------------------------

  /**
    * The rest of a quoted cell after its opening quote: the cell's text with
    * `""` read as `"`, and what follows the closing quote.
    */
  function ParseQuoted(s: string): (r: Option<(string, string)>)
    ensures r.Some? ==> |r.value.1| < |s|
    decreases |s|
  {
    if s == [] then None
    else if s[0] == '"' then
      if |s| >= 2 && s[1] == '"' then
        match ParseQuoted(s[2..])
        case None => None
        case Some((c, rest)) => Some((['"'] + c, rest))
      else Some(([], s[1..]))
    else
      match ParseQuoted(s[1..])
      case None => None
      case Some((c, rest)) => Some(([s[0]] + c, rest))
  }

  /**
    * Reads records of quoted cells: after a cell, `;` starts the next cell
    * of the same record, `\n` the next record, and the end of the text ends
    * the last record.
    */
  function ParseCsv(s: string): (r: Option<seq<seq<string>>>)
    ensures r.Some? ==> |r.value| >= 1 && forall k | 0 <= k < |r.value| :: |r.value[k]| >= 1
    decreases |s|
  {
    if s == [] || s[0] != '"' then None
    else
      match ParseQuoted(s[1..])
      case None => None
      case Some((cell, rest)) =>
        if rest == [] then Some([[cell]])
        else if rest[0] == ';' then
          match ParseCsv(rest[1..])
          case None => None
          case Some(records) => Some([[cell] + records[0]] + records[1..])
        else if rest[0] == '\n' then
          match ParseCsv(rest[1..])
          case None => None
          case Some(records) => Some([[cell]] + records)
        else None
  }

  // ---------------------------------------------------------------------------
  // Round trip
  // ---------------------------------------------------------------------------

  /** Un-doubling the quotes of an escaped cell gives the cell back, and stops at its closing quote. */
  lemma {:induction false} CellRoundTrip(c: string, rest: string)
    requires rest == [] || rest[0] != '"'
    ensures ParseQuoted(Escape(c) + "\"" + rest) == Some((c, rest))
  {
    var s := Escape(c) + "\"" + rest;
    if c == [] {
      assert s == ['"'] + rest;
    } else {
      var tail := Escape(c[1..]) + "\"" + rest;
      CellRoundTrip(c[1..], rest);
      if c[0] == '"' {
        assert s == "\"\"" + tail;
        ParseDoubledQuote(tail, c[1..], rest);
      } else {
        assert s == [c[0]] + tail;
        ParsePlainChar(c[0], tail, c[1..], rest);
      }
      assert [c[0]] + c[1..] == c;
    }
  }

  /** A doubled quote inside a cell reads as one quote. */
  lemma ParseDoubledQuote(tail: string, cell: string, rest: string)
    requires ParseQuoted(tail) == Some((cell, rest))
    ensures ParseQuoted("\"\"" + tail) == Some((['"'] + cell, rest))
  {
    var s := "\"\"" + tail;
    assert s[0] == '"' && s[1] == '"' && s[2..] == tail;
  }

  /** Any other character inside a cell reads as itself. */
  lemma ParsePlainChar(x: char, tail: string, cell: string, rest: string)
    requires x != '"' && ParseQuoted(tail) == Some((cell, rest))
    ensures ParseQuoted([x] + tail) == Some(([x] + cell, rest))
  {
    var s := [x] + tail;
    assert s[0] == x && s[1..] == tail;
  }

  /** A line followed by the end of the text, or by `\n` and more records, reads as that record first. */
  lemma {:induction false} LineRoundTrip(cells: seq<string>, rest: string, more: seq<seq<string>>)
    requires |cells| >= 1
    requires (rest == [] && more == []) || (rest != [] && rest[0] == '\n' && ParseCsv(rest[1..]) == Some(more))
    ensures ParseCsv(Line(cells) + rest) == Some([cells] + more)
  {
    var escaped := Escape(cells[0]);
    var s := Line(cells) + rest;
    if |cells| == 1 {
      LineShapeOne(cells, rest);
      CellRoundTrip(cells[0], rest);
      ParseCsvLastCell(s, cells[0], rest, more);
      assert [cells[0]] == cells;
    } else {
      var tail := Line(cells[1..]);
      var after := ";" + (tail + rest);
      LineShapeMore(cells, rest);
      CellRoundTrip(cells[0], after);
      LineRoundTrip(cells[1..], rest, more);
      assert after[1..] == tail + rest;
      ParseCsvNextCell(s, cells[0], after, [cells[1..]] + more);
      assert [cells[0]] + cells[1..] == cells;
    }
  }

  /** A one-cell line followed by `rest`: a quote, the cell escaped, a quote, `rest`. */
  lemma LineShapeOne(cells: seq<string>, rest: string)
    requires |cells| == 1
    ensures var s := Line(cells) + rest;
      s != [] && s[0] == '"' && s[1..] == Escape(cells[0]) + "\"" + rest
  {
    var e := Escape(cells[0]);
    assert Line(cells) == QuoteAll(cells)[0];
    var s := Line(cells) + rest;
    assert s == "\"" + (e + "\"" + rest);
  }

  /** A line of several cells followed by `rest`: a quote, the first cell escaped, a quote, `;`, the other cells' line, `rest`. */
  lemma LineShapeMore(cells: seq<string>, rest: string)
    requires |cells| >= 2
    ensures var s := Line(cells) + rest;
      s != [] && s[0] == '"' && s[1..] == Escape(cells[0]) + "\"" + (";" + (Line(cells[1..]) + rest))
  {
    var q := QuoteAll(cells);
    var e := Escape(cells[0]);
    var tail := Line(cells[1..]);
    assert QuoteAll(cells[1..]) == q[1..];
    assert Line(cells) == q[0] + ";" + tail;
    var s := Line(cells) + rest;
    assert s == "\"" + (e + "\"" + (";" + (tail + rest)));
  }

  /** A cell followed by `;` joins the first record read after it. */
  lemma ParseCsvNextCell(s: string, cell: string, after: string, records: seq<seq<string>>)
    requires s != [] && s[0] == '"' && ParseQuoted(s[1..]) == Some((cell, after))
    requires after != [] && after[0] == ';' && ParseCsv(after[1..]) == Some(records)
    ensures ParseCsv(s) == Some([[cell] + records[0]] + records[1..])
  {
  }

  /** A cell followed by the end of the text, or by `\n` and more records, is a record of its own. */
  lemma ParseCsvLastCell(s: string, cell: string, rest: string, more: seq<seq<string>>)
    requires s != [] && s[0] == '"' && ParseQuoted(s[1..]) == Some((cell, rest))
    requires (rest == [] && more == []) || (rest != [] && rest[0] == '\n' && ParseCsv(rest[1..]) == Some(more))
    ensures ParseCsv(s) == Some([[cell]] + more)
  {
    if rest == [] {
      assert [[cell]] + more == [[cell]];
    }
  }

  /** Reading the text of any non-empty list of non-empty records gives the records back. */
  lemma {:induction false} CsvRoundTrip(records: seq<seq<string>>)
    requires |records| >= 1
    requires forall k | 0 <= k < |records| :: |records[k]| >= 1
    ensures ParseCsv(Csv(records)) == Some(records)
  {
    var ls := Lines(records);
    if |records| == 1 {
      assert Csv(records) == Line(records[0]);
      assert Line(records[0]) + [] == Line(records[0]);
      LineRoundTrip(records[0], [], []);
      assert [records[0]] + [] == records;
    } else {
      var rest := Csv(records[1..]);
      CsvCons(records);
      CsvRoundTrip(records[1..]);
      assert ("\n" + rest)[1..] == rest;
      LineRoundTrip(records[0], "\n" + rest, records[1..]);
      assert [records[0]] + records[1..] == records;
    }
  }

  /** The cells of row `k + 1`: label, members joined by " | ", the score (which reads back as a number), activity or empty. */
  lemma ExportRowCells(teams: seq<Team>, k: nat)
    requires k < |teams|
    ensures var row := ([Headers] + Rows(teams))[k + 1];
      && row[0] == teams[k].name
      && row[1] == Join(teams[k].members, " | ")
      && ParseInt(row[2]) == teams[k].score
      && (teams[k].activityLabel.None? ==> row[3] == [])
      && (teams[k].activityLabel.Some? ==> row[3] == teams[k].activityLabel.value)
  {
    ParseIntToString(teams[k].score);
  }

  lemma {:induction false} EscapePlain(s: string)
    requires '"' !in s
    ensures Escape(s) == s
  {
    if s != [] {
      EscapePlain(s[1..]);
      assert [s[0]] + s[1..] == s;
    }
  }

  predicate NoQuote(s: string) {
    forall i | 0 <= i < |s| :: s[i] != '"'
  }

  /** A cell without double quotes is written as itself between quotes. */
  lemma QuotePlain(s: string)
    requires NoQuote(s)
    ensures QuoteCell(s) == "\"" + s + "\""
  {
    EscapePlain(s);
  }

  /** The text of two or more records: the first line, a newline, the text of the rest. */
  lemma CsvCons(records: seq<seq<string>>)
    requires |records| >= 2
    ensures Csv(records) == Line(records[0]) + ("\n" + Csv(records[1..]))
  {
    assert Lines(records[1..]) == Lines(records)[1..];
  }

  lemma HeadersPlain()
    ensures forall k | 0 <= k < |Headers| :: NoQuote(Headers[k])
  {
  }

  /** Each header is written as itself between double quotes. */
  lemma HeaderCells()
    ensures forall k | 0 <= k < |Headers| :: QuoteAll(Headers)[k] == "\"" + Headers[k] + "\""
  {
    HeadersPlain();
    forall k | 0 <= k < |Headers|
      ensures QuoteAll(Headers)[k] == "\"" + Headers[k] + "\""
    {
      QuotePlain(Headers[k]);
    }
  }

  /** The text starts with the header line, `"Equipe";"Integrantes";"Pontuacao";"Atividade"`, ended by `\n` or by the end of the text. */
  lemma ExportHeader(teams: seq<Team>)
    ensures var h := Line(Headers);
      var csv := ExportTeamsAsCsv(teams);
      |csv| >= |h| && csv[..|h|] == h && (|csv| == |h| || csv[|h|] == '\n')
  {
    var records := [Headers] + Rows(teams);
    assert records[0] == Headers;
    if |teams| == 0 {
      assert records == [Headers];
      assert Csv(records) == Line(Headers);
    } else {
      CsvCons(records);
    }
  }

  /** Every line ends with a closing quote, so the text never ends with a newline. */
  lemma {:induction false} CsvEndsWithQuote(records: seq<seq<string>>)
    requires |records| >= 1
    requires forall k | 0 <= k < |records| :: |records[k]| >= 1
    ensures var csv := Csv(records); |csv| >= 2 && csv[|csv| - 1] == '"'
  {
    var ls := Lines(records);
    if |records| == 1 {
      LineEndsWithQuote(records[0]);
    } else {
      assert Lines(records[1..]) == ls[1..];
      CsvEndsWithQuote(records[1..]);
    }
  }

  lemma {:induction false} LineEndsWithQuote(cells: seq<string>)
    requires |cells| >= 1
    ensures var l := Line(cells); |l| >= 2 && l[|l| - 1] == '"'
  {
    var q := QuoteAll(cells);
    if |cells| > 1 {
      assert QuoteAll(cells[1..]) == q[1..];
      LineEndsWithQuote(cells[1..]);
    }
  }

  /** The export never ends with a newline. */
  lemma ExportNoTrailingNewline(teams: seq<Team>)
    ensures var csv := ExportTeamsAsCsv(teams); csv != [] && csv[|csv| - 1] != '\n'
  {
    var records := [Headers] + Rows(teams);
    assert ExportTeamsAsCsv(teams) == Csv(records);
    CsvEndsWithQuote(records);
  }
}
