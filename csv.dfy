/** The CSV text the leaderboard exports: every cell in double quotes with
    embedded quotes doubled, cells joined by ",", records by "\n" (the
    quoting of section 2 of RFC 4180). The reader here is the partner of
    the writer: it recovers every table the writer produces. */
module Csv {
  import opened Text

  /** `String(c).replace(/"/g, '""')` */
  function Escape(s: string): string {
    if s == [] then [] else (if s[0] == '"' then ['"', '"'] else [s[0]]) + Escape(s[1..])
  }

  /** A cell as the export writes it. */
  function Quote(s: string): string {
    ['"'] + Escape(s) + ['"']
  }

  /** Reads the inside of a quoted cell up to its closing quote, turning
      each doubled quote back into one; returns the cell and what follows
      the closing quote. */
  function ReadBody(t: string): (r: Option<(string, string)>)
    ensures r.Some? ==> |r.value.1| < |t|
    decreases |t|
  {
    if t == [] then None
    else if t[0] == '"' then
      if |t| > 1 && t[1] == '"' then
        match ReadBody(t[2..])
        case None => None
        case Some((f, rest)) => Some((['"'] + f, rest))
      else Some(([], t[1..]))
    else
      match ReadBody(t[1..])
      case None => None
      case Some((f, rest)) => Some(([t[0]] + f, rest))
  }

  /** Reads one quoted cell at the start of `s`. */
  function ReadCell(s: string): (r: Option<(string, string)>)
    ensures r.Some? ==> |r.value.1| < |s|
  {
    if s != [] && s[0] == '"' then ReadBody(s[1..]) else None
  }

  /** Reading back the escaped text of a cell and its closing quote gives
      the cell, as long as what follows does not continue the quote. */
  lemma {:induction false} ReadBodyEscape(s: string, rest: string)
    requires rest == [] || rest[0] != '"'
    ensures ReadBody(Escape(s) + ['"'] + rest) == Some((s, rest))
  {
    if s == [] {
      assert Escape(s) + ['"'] + rest == ['"'] + rest;
    } else {
      ReadBodyEscape(s[1..], rest);
      var u := Escape(s[1..]) + ['"'] + rest;
      var t := Escape(s) + ['"'] + rest;
      if s[0] == '"' {
        assert Escape(s) == ['"', '"'] + Escape(s[1..]);
        assert t == ['"', '"'] + u;
        assert t[2..] == u;
        assert ['"'] + s[1..] == s;
      } else {
        assert Escape(s) == [s[0]] + Escape(s[1..]);
        assert t == [s[0]] + u;
        assert t[1..] == u;
        assert [s[0]] + s[1..] == s;
      }
    }
  }

  /** A quoted cell reads back as itself. */
  lemma ReadCellQuote(s: string, rest: string)
    requires rest == [] || rest[0] != '"'
    ensures ReadCell(Quote(s) + rest) == Some((s, rest))
  {
    ReadBodyEscape(s, rest);
    assert (Quote(s) + rest)[1..] == Escape(s) + ['"'] + rest;
  }

  /** Reads the cells of one record: quoted cells separated by ",", up to a
      "\n" or the end. Returns the cells and the text from the "\n" on. */
  function ReadRecord(s: string): (r: Option<(seq<string>, string)>)
    ensures r.Some? ==> |r.value.1| < |s| && |r.value.0| >= 1
    ensures r.Some? ==> r.value.1 == [] || r.value.1[0] == '\n'
    decreases |s|
  {
    match ReadCell(s)
    case None => None
    case Some((cell, rest)) =>
      if rest != [] && rest[0] == ',' then
        match ReadRecord(rest[1..])
        case None => None
        case Some((cells, tail)) => Some(([cell] + cells, tail))
      else if rest == [] || rest[0] == '\n' then Some(([cell], rest))
      else None
  }

  /** Reads a whole table. */
  function ReadTable(s: string): Option<seq<seq<string>>>
    decreases |s|
  {
    match ReadRecord(s)
    case None => None
    case Some((cells, tail)) =>
      if tail == [] then Some([cells])
      else
        match ReadTable(tail[1..])
        case None => None
        case Some(rows) => Some([cells] + rows)
  }

  /** The quoted form of each cell. */
  function QuoteAll(cells: seq<string>): (r: seq<string>)
    ensures |r| == |cells|
  {
    if cells == [] then [] else [Quote(cells[0])] + QuoteAll(cells[1..])
  }

  /** `r.map(quote).join(",")` */
  function RenderRecord(cells: seq<string>): string
    requires |cells| >= 1
  {
    Join(QuoteAll(cells), ',')
  }

  /** Every record rendered. */
  function RenderAll(rows: seq<seq<string>>): (r: seq<string>)
    requires forall i :: 0 <= i < |rows| ==> |rows[i]| >= 1
    ensures |r| == |rows|
  {
    if rows == [] then [] else [RenderRecord(rows[0])] + RenderAll(rows[1..])
  }

  /** `rows.map(...).join("\n")`: the exported text. */
  function Render(rows: seq<seq<string>>): string
    requires |rows| >= 1
    requires forall i :: 0 <= i < |rows| ==> |rows[i]| >= 1
  {
    Join(RenderAll(rows), '\n')
  }

  /** A rendered record reads back as its cells. */
  lemma {:induction false} ReadRecordRender(cells: seq<string>, rest: string)
    requires |cells| >= 1
    requires rest == [] || rest[0] == '\n'
    ensures ReadRecord(RenderRecord(cells) + rest) == Some((cells, rest))
    decreases |cells|
  {
    var q := QuoteAll(cells);
    if |cells| == 1 {
      assert RenderRecord(cells) == Quote(cells[0]);
      ReadCellQuote(cells[0], rest);
      assert [cells[0]] == cells;
    } else {
      var tail := RenderRecord(cells[1..]) + rest;
      assert q[1..] == QuoteAll(cells[1..]);
      assert RenderRecord(cells) + rest == Quote(cells[0]) + ([','] + tail);
      ReadCellQuote(cells[0], [','] + tail);
      assert ([','] + tail)[1..] == tail;
      ReadRecordRender(cells[1..], rest);
      assert [cells[0]] + cells[1..] == cells;
    }
  }

  /** Round trip: reading the exported text gives back exactly the rows,
      whatever quotes, commas or line breaks the cells contain. */
  lemma {:induction false} ReadTableRender(rows: seq<seq<string>>)
    requires |rows| >= 1
    requires forall i :: 0 <= i < |rows| ==> |rows[i]| >= 1
    ensures ReadTable(Render(rows)) == Some(rows)
    decreases |rows|
  {
    var lines := RenderAll(rows);
    if |rows| == 1 {
      ReadRecordRender(rows[0], []);
      assert Render(rows) == RenderRecord(rows[0]) + [];
      assert [rows[0]] == rows;
    } else {
      var tail := Render(rows[1..]);
      assert lines[1..] == RenderAll(rows[1..]);
      assert Render(rows) == RenderRecord(rows[0]) + (['\n'] + tail);
      ReadRecordRender(rows[0], ['\n'] + tail);
      assert (['\n'] + tail)[1..] == tail;
      ReadTableRender(rows[1..]);
      assert [rows[0]] + rows[1..] == rows;
    }
  }
}
