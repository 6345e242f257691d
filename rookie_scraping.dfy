/** The earlier, CSV-based scraper: it writes one CSV line per full_table
    season row (header cell, then the <td> cells with the debut column
    dropped, the years column looked up in the career table at the same row
    position, and every other text made ASCII), combines the per-year files
    with the year appended to every line, and writes the header file from the
    season table's header row. */
module RookieScraping {
  import opened Results
  import opened Text
  import opened Markup

  /** Header columns left out of the season rows: 2 (debut) and 4 (years
      played, which comes from the career table instead). */
  const IgnoreCols: seq<nat> := [2, 4]

  /** The draft years whose files are combined, in ascending order. */
  const Years: seq<int> := seq(15, i requires 0 <= i < 15 => 2000 + i)

  // ---------------------------------------------------------------------------
  // ASCII test and sanitiser

  /** Bytes in the UTF-8 encoding of one character. */
  function Utf8Width(c: char): nat
  {
    if c as int < 0x80 then 1
    else if c as int < 0x800 then 2
    else if c as int < 0x1_0000 then 3
    else 4
  }

  /** Bytes in the UTF-8 encoding of a string (`len(s.encode())`). */
  function Utf8Length(s: string): nat
  {
    if s == [] then 0 else Utf8Length(s[..|s| - 1]) + Utf8Width(s[|s| - 1])
  }

  /** The scraper's `isascii`: the UTF-8 encoding is as long as the string. */
  predicate IsAscii(s: string)
  {
    Utf8Length(s) == |s|
  }

  /** The encoding-length test holds exactly when every character is ASCII. */
  lemma {:induction false} IsAsciiIff(s: string)
    ensures Utf8Length(s) >= |s|
    ensures IsAscii(s) <==> AllAscii(s)
  {
    if s != [] {
      var front := s[..|s| - 1];
      IsAsciiIff(front);
      if AllAscii(s) {
        assert forall i :: 0 <= i < |front| ==> front[i] == s[i];
      } else if AllAscii(front) {
        assert !IsAsciiChar(s[|s| - 1]);
      }
    }
  }

  /** A cell text with every non-ASCII character replaced by '_'. */
  function Scrubbed(s: string): string
  {
    seq(|s|, i requires 0 <= i < |s| => if IsAsciiChar(s[i]) then s[i] else '_')
  }

  /** The sanitiser of `stats_seps`: an ASCII text is kept whole, any other
      text is rebuilt character by character. */
  method Sanitise(text: string) returns (r: string)
    ensures r == Scrubbed(text)
  {
    IsAsciiIff(text);
    if IsAscii(text) {
      return text;
    }
    var newStat := "";
    for i := 0 to |text|
      invariant newStat == Scrubbed(text[..i])
    {
      var ch := text[i];
      IsAsciiIff([ch]);
      assert text[..i + 1] == text[..i] + [ch];
      if IsAscii([ch]) {
        newStat := newStat + [ch];
      } else {
        newStat := newStat + "_";
      }
    }
    assert text[..|text|] == text;
    r := newStat;
  }

  /** The sanitised text has the original length and passes `isascii`. */
  lemma ScrubbedIsAscii(s: string)
    ensures |Scrubbed(s)| == |s|
    ensures IsAscii(Scrubbed(s))
  {
    IsAsciiIff(Scrubbed(s));
  }

  /** An ASCII text passes through unchanged, so sanitising twice is the same
      as sanitising once. */
  lemma ScrubbedIdentityAndIdempotent(s: string)
    ensures IsAscii(s) ==> Scrubbed(s) == s
    ensures Scrubbed(Scrubbed(s)) == Scrubbed(s)
  {
    IsAsciiIff(s);
  }

  // ---------------------------------------------------------------------------
  // Career lookup

  /** The text of <td> `col` in the `row`-th full_table career row, if there
      is such a cell. */
  function CareerCell(career: seq<Row>, row: int, col: int): Option<string>
  {
    var players := FullTableRows(career);
    if 0 <= row < |players| && 0 <= col < |players[row].tds| then Some(players[row].tds[col]) else None
  }

  /** `one_stat`: walks the full_table career rows with a row counter and
      returns the cell at the master index, or nothing when there is none. */
  method OneStat(career: seq<Row>, masterIndex: (int, int)) returns (r: Option<string>)
    ensures r == CareerCell(career, masterIndex.0, masterIndex.1)
  {
    var players := FullTableRows(career);
    var row := 0;
    for p := 0 to |players|
      invariant row == p
      invariant !(0 <= masterIndex.0 < p && 0 <= masterIndex.1 < |players[masterIndex.0].tds|)
    {
      var tds := players[p].tds;
      for col := 0 to |tds|
        invariant !(row == masterIndex.0 && 0 <= masterIndex.1 < col)
      {
        if row == masterIndex.0 && col == masterIndex.1 {
          return Some(tds[col]);
        }
      }
      row := row + 1;
    }
    return None;
  }

  // ---------------------------------------------------------------------------
  // Season lines

  /** The <td> positions the season lines treat specially: header columns
      IgnoreCols shifted past the leading <th>, i.e. [1, 3]. */
  function TdIgnores(): (r: seq<nat>)
    ensures r == [1, 3]
  {
    seq(|IgnoreCols|, i requires 0 <= i < |IgnoreCols| => IgnoreCols[i] - 1)
  }

  /** What <td> j contributes to a season line: nothing for the debut column,
      the career lookup for the years column, the sanitised text otherwise. */
  function SepCell(j: nat, td: string, lookup: string): seq<string>
  {
    if j !in TdIgnores() then [Scrubbed(td)]
    else if j == TdIgnores()[1] then [lookup]
    else []
  }

  /** The contributions of all <td> cells, in order. */
  function SepCells(tds: seq<string>, lookup: string): seq<string>
  {
    if tds == [] then []
    else SepCells(tds[..|tds| - 1], lookup) + SepCell(|tds| - 1, tds[|tds| - 1], lookup)
  }

  /** The CSV text of a looked-up cell: a missing cell is written empty. */
  function CsvText(o: Option<string>): string
  {
    match o
    case Some(t) => t
    case None => ""
  }

  /** The line written for one season row: its header cell, then its <td>
      contributions. */
  function SeasonLine(row: Row, lookup: string): seq<string>
  {
    [row.th] + SepCells(row.tds, lookup)
  }

  /** The lines of one year's file: season full_table row k is completed
      with <td> 3 of career full_table row k. */
  function YearLines(season: seq<Row>, career: seq<Row>): seq<seq<string>>
  {
    var players := FullTableRows(season);
    seq(|players|, k requires 0 <= k < |players| =>
      SeasonLine(players[k], CsvText(CareerCell(career, k, TdIgnores()[1]))))
  }

  /** `stats_seps`: builds each line cell by cell while advancing the master
      index (row, column) through the season rows. */
  method StatsSeps(season: seq<Row>, career: seq<Row>) returns (lines: seq<seq<string>>)
    ensures lines == YearLines(season, career)
  {
    var masterIndex := (0, 0);
    var players := FullTableRows(season);
    var ignores := TdIgnores();
    lines := [];
    for p := 0 to |players|
      invariant masterIndex == (p, 0)
      invariant lines == YearLines(season, career)[..p]
    {
      var player := players[p];
      var stats := [];
      if masterIndex.1 == 0 {
        stats := stats + [player.th];
      }
      var tds := player.tds;
      var lookup := CsvText(CareerCell(career, p, ignores[1]));
      for j := 0 to |tds|
        invariant masterIndex.0 == p
        invariant stats == [player.th] + SepCells(tds[..j], lookup)
      {
        masterIndex := (masterIndex.0, j);
        assert tds[..j + 1][..j] == tds[..j];
        if masterIndex.1 !in ignores {
          var text := Sanitise(tds[j]);
          stats := stats + [text];
        } else if masterIndex.1 == ignores[1] {
          var found := OneStat(career, masterIndex);
          stats := stats + [CsvText(found)];
        }
      }
      assert tds[..|tds|] == tds;
      lines := lines + [stats];
      masterIndex := (masterIndex.0 + 1, 0);
    }
  }

  /** Position by position, a season row with at least four <td> cells gives
      a line one cell shorter: <td> 0 sanitised, <td> 1 dropped, <td> 2
      sanitised, <td> 3 replaced by the career lookup, and every later <td>
      sanitised in place. */
  lemma {:induction false} SepCellsLayout(tds: seq<string>, lookup: string)
    requires |tds| >= 4
    ensures |SepCells(tds, lookup)| == |tds| - 1
    ensures SepCells(tds, lookup)[0] == Scrubbed(tds[0])
    ensures SepCells(tds, lookup)[1] == Scrubbed(tds[2])
    ensures SepCells(tds, lookup)[2] == lookup
    ensures forall j :: 4 <= j < |tds| ==> SepCells(tds, lookup)[j - 1] == Scrubbed(tds[j])
  {
    var n := |tds|;
    if n == 4 {
      assert tds[..1][..0] == [] && tds[..2][..1] == tds[..1] && tds[..3][..2] == tds[..2];
      assert SepCells(tds[..1], lookup) == [Scrubbed(tds[0])];
      assert SepCells(tds[..2], lookup) == [Scrubbed(tds[0])];
      assert SepCells(tds[..3], lookup) == [Scrubbed(tds[0]), Scrubbed(tds[2])];
    } else {
      var front := tds[..n - 1];
      SepCellsLayout(front, lookup);
      assert SepCells(tds, lookup) == SepCells(front, lookup) + [Scrubbed(tds[n - 1])];
      assert forall j :: 0 <= j < n - 1 ==> front[j] == tds[j];
    }
  }

  /** The positional join of the earlier scraper: in line k of a year's file,
      position 3 holds <td> 3 of the k-th full_table career row (or nothing
      when that row or cell is missing), next to the season row's own cells. */
  lemma StatsSepsJoin(season: seq<Row>, career: seq<Row>, k: nat)
    requires k < |FullTableRows(season)| && |FullTableRows(season)[k].tds| >= 4
    ensures var line := YearLines(season, career)[k];
      var row := FullTableRows(season)[k];
      && |line| == |row.tds|
      && line[0] == row.th
      && line[3] == CsvText(CareerCell(career, k, 3))
      && (forall j :: 4 <= j < |row.tds| ==> line[j] == Scrubbed(row.tds[j]))
  {
    var row := FullTableRows(season)[k];
    SepCellsLayout(row.tds, CsvText(CareerCell(career, k, 3)));
  }

  // ---------------------------------------------------------------------------
  // Combining the year files

  /** One year's file as read back: its draft year and its lines. */
  datatype YearFile = YearFile(year: int, lines: seq<seq<string>>)

  /** The lines of one file with the year appended to each. */
  function Tagged(f: YearFile): seq<seq<string>>
  {
    seq(|f.lines|, i requires 0 <= i < |f.lines| => f.lines[i] + [IntToString(f.year)])
  }

  /** All files' tagged lines, file after file. */
  function Combined(files: seq<YearFile>): seq<seq<string>>
  {
    if files == [] then [] else Combined(files[..|files| - 1]) + Tagged(files[|files| - 1])
  }

  /** The total number of lines in the files. */
  function LineCount(files: seq<YearFile>): nat
  {
    if files == [] then 0 else LineCount(files[..|files| - 1]) + |files[|files| - 1].lines|
  }

  /** `comb_csvs`: copies every line of every file, in file order, appending
      the file's year to each. */
  method CombCsvs(files: seq<YearFile>) returns (out: seq<seq<string>>)
    ensures out == Combined(files)
  {
    out := [];
    for y := 0 to |files|
      invariant out == Combined(files[..y])
    {
      var f := files[y];
      ghost var before := out;
      for i := 0 to |f.lines|
        invariant out == before + Tagged(f)[..i]
      {
        var row := f.lines[i];
        row := row + [IntToString(f.year)];
        out := out + [row];
        assert Tagged(f)[..i + 1] == Tagged(f)[..i] + [row];
      }
      assert Tagged(f)[..|f.lines|] == Tagged(f);
      assert files[..y + 1][..y] == files[..y];
    }
    assert files[..|files|] == files;
  }

  /** Line j of file i lands at position (lines of the earlier files) + j of
      the combined file, with the year of file i appended; nothing else is
      there. */
  lemma {:induction false} CombinedAt(files: seq<YearFile>, i: nat, j: nat)
    requires i < |files| && j < |files[i].lines|
    ensures |Combined(files)| == LineCount(files)
    ensures LineCount(files[..i]) + j < LineCount(files)
    ensures Combined(files)[LineCount(files[..i]) + j] == files[i].lines[j] + [IntToString(files[i].year)]
    decreases |files|
  {
    var n := |files| - 1;
    var front := files[..n];
    CombinedLength(front);
    if i < n {
      CombinedAt(front, i, j);
      assert front[..i] == files[..i];
    } else {
      assert files[..i] == front;
    }
  }

  /** Files are combined in the order given and lines keep their order within
      a file: with the files of `Years`, every line of an earlier draft year
      comes before every line of a later one. */
  lemma CombinedInYearOrder(files: seq<YearFile>, i: nat, j: nat, i2: nat, j2: nat)
    requires |files| == |Years| && forall y :: 0 <= y < |files| ==> files[y].year == Years[y]
    requires i < i2 < |files| && j < |files[i].lines| && j2 < |files[i2].lines|
    ensures files[i].year < files[i2].year
    ensures LineCount(files[..i]) + j < LineCount(files[..i2]) + j2
  {
    LineCountMonotone(files, i + 1, i2);
    assert files[..i + 1][..i] == files[..i];
  }

  lemma {:induction false} LineCountMonotone(files: seq<YearFile>, a: nat, b: nat)
    requires a <= b <= |files|
    ensures LineCount(files[..a]) <= LineCount(files[..b])
    decreases b - a
  {
    if a < b {
      LineCountMonotone(files, a, b - 1);
      assert files[..b][..b - 1] == files[..b - 1];
    }
  }

  lemma {:induction false} CombinedLength(files: seq<YearFile>)
    ensures |Combined(files)| == LineCount(files)
  {
    if files != [] {
      CombinedLength(files[..|files| - 1]);
    }
  }

  // ---------------------------------------------------------------------------
  // Header file

  /** A child node of the header row: a header cell with its text and
      description attribute, or the whitespace text between cells. */
  datatype HeaderChild = Th(text: string, description: string) | Whitespace(text: string)

  /** The columns whose header is replaced by a per-game name. */
  const RenamedCols: seq<nat> := [24, 25, 26, 27]
  const RenamedNames: seq<string> := ["MPPG", "PPG", "TRBPG", "ASTPG"]

  /** The child position of header column x: header cells sit at the odd
      positions, between whitespace nodes. */
  function ChildIndex(x: nat): nat
  {
    x * 2 + 1
  }

  /** The ignored children ([5, 9]) and the renamed children
      ([49, 51, 53, 55]). */
  function HeaderIgnores(): (r: seq<nat>)
    ensures r == [5, 9]
  {
    seq(|IgnoreCols|, i requires 0 <= i < |IgnoreCols| => ChildIndex(IgnoreCols[i]))
  }

  function HeaderRenames(): (r: seq<nat>)
    ensures r == [49, 51, 53, 55]
  {
    seq(|RenamedCols|, i requires 0 <= i < |RenamedCols| => ChildIndex(RenamedCols[i]))
  }

  /** The line written for child `index` of the header row. Reading the text
      or description of a whitespace node raises, and the loop skips that
      child; the years child is written without reading the node. */
  function HeaderEntry(index: nat, child: HeaderChild): seq<(string, string)>
  {
    if index !in HeaderIgnores() && index !in HeaderRenames() then
      (if child.Th? then [(child.text, child.description)] else [])
    else if index == HeaderIgnores()[1] then [("Yrs", "Years in the NBA")]
    else if index in HeaderRenames() then
      var k := if index == 49 then 0 else if index == 51 then 1 else if index == 53 then 2 else 3;
      (if child.Th? then [(RenamedNames[k], child.description)] else [])
    else []
  }

  /** The lines written for all children, in order. */
  function HeaderLines(children: seq<HeaderChild>): seq<(string, string)>
  {
    if children == [] then []
    else HeaderLines(children[..|children| - 1]) + HeaderEntry(|children| - 1, children[|children| - 1])
  }

  /** `create_header`: walks the header row's children by position. */
  method CreateHeader(children: seq<HeaderChild>) returns (lines: seq<(string, string)>)
    ensures lines == HeaderLines(children)
  {
    var ignores := HeaderIgnores();
    var colRenames := HeaderRenames();
    lines := [];
    for index := 0 to |children|
      invariant lines == HeaderLines(children[..index])
    {
      var header := children[index];
      assert children[..index + 1][..index] == children[..index];
      if index !in ignores && index !in colRenames {
        if header.Th? {
          lines := lines + [(header.text, header.description)];
        }
      } else if index == ignores[1] {
        lines := lines + [("Yrs", "Years in the NBA")];
      } else if index == colRenames[0] {
        if header.Th? {
          lines := lines + [("MPPG", header.description)];
        }
      } else if index == colRenames[1] {
        if header.Th? {
          lines := lines + [("PPG", header.description)];
        }
      } else if index == colRenames[2] {
        if header.Th? {
          lines := lines + [("TRBPG", header.description)];
        }
      } else if index == colRenames[3] {
        if header.Th? {
          lines := lines + [("ASTPG", header.description)];
        }
      }
    }
    assert children[..|children|] == children;
  }

  /** `append_header`: the draft-year column's line goes last. */
  function AppendHeader(lines: seq<(string, string)>): (r: seq<(string, string)>)
    ensures |r| == |lines| + 1 && r[..|lines|] == lines
    ensures r[|lines|] == ("Yr", "Player Starting Year")
  {
    lines + [("Yr", "Player Starting Year")]
  }

  /** The line for header column x, given its header cell: column 2 is
      omitted, column 4 becomes the years column, columns 24 to 27 get their
      per-game names. */
  function ColumnEntry(x: nat, th: (string, string)): seq<(string, string)>
  {
    if x == 2 then []
    else if x == 4 then [("Yrs", "Years in the NBA")]
    else if 24 <= x < 28 then [(RenamedNames[x - 24], th.1)]
    else [th]
  }

  /** The lines for all header columns, in order. */
  function ColumnLines(ths: seq<(string, string)>): seq<(string, string)>
  {
    if ths == [] then [] else ColumnLines(ths[..|ths| - 1]) + ColumnEntry(|ths| - 1, ths[|ths| - 1])
  }

  /** The header row's children: whitespace before, between and after the
      header cells `ths`. */
  predicate Interleaved(children: seq<HeaderChild>, ths: seq<(string, string)>)
  {
    && |children| == 2 * |ths| + 1
    && (forall x :: 0 <= x < |ths| ==> children[ChildIndex(x)] == Th(ths[x].0, ths[x].1))
    && (forall x :: 0 <= x <= |ths| ==> children[2 * x].Whitespace?)
  }

  /** The child-position arithmetic is column arithmetic in disguise: on an
      interleaved header row, the lines written per child are the lines per
      header column. */
  lemma HeaderByColumn(children: seq<HeaderChild>, ths: seq<(string, string)>)
    requires Interleaved(children, ths)
    ensures HeaderLines(children) == ColumnLines(ths)
  {
    HeaderByColumnUpTo(children, ths, |ths|);
    assert children[..2 * |ths| + 1] == children;
    assert ths[..|ths|] == ths;
  }

  lemma {:induction false} HeaderByColumnUpTo(children: seq<HeaderChild>, ths: seq<(string, string)>, m: nat)
    requires Interleaved(children, ths) && m <= |ths|
    ensures HeaderLines(children[..2 * m + 1]) == ColumnLines(ths[..m])
  {
    if m == 0 {
      HeaderByColumnBase(children, ths);
    } else {
      HeaderByColumnUpTo(children, ths, m - 1);
      InterleavedAt(children, ths, m - 1);
      HeaderByColumnStep(children, ths, m - 1);
    }
  }

  /** Before the first header cell there is only whitespace, which writes
      nothing. */
  lemma HeaderByColumnBase(children: seq<HeaderChild>, ths: seq<(string, string)>)
    requires Interleaved(children, ths)
    ensures HeaderLines(children[..1]) == ColumnLines(ths[..0])
  {
    assert children[2 * 0].Whitespace?;
    HeaderLinesStep(children, 0);
    WhitespaceWritesNothing(0, children[0]);
  }

  /** Header column x sits at child 2x + 1, followed by whitespace. */
  lemma InterleavedAt(children: seq<HeaderChild>, ths: seq<(string, string)>, x: nat)
    requires Interleaved(children, ths) && x < |ths|
    ensures 2 * x + 3 <= |children|
    ensures children[2 * x + 1] == Th(ths[x].0, ths[x].1) && children[2 * x + 2].Whitespace?
  {
    assert children[ChildIndex(x)] == Th(ths[x].0, ths[x].1);
    assert children[2 * (x + 1)].Whitespace?;
  }

  /** One more header column: the cell at child 2x + 1 writes column x's
      line and the whitespace after it writes nothing. */
  lemma HeaderByColumnStep(children: seq<HeaderChild>, ths: seq<(string, string)>, x: nat)
    requires x < |ths| && 2 * x + 3 <= |children|
    requires children[2 * x + 1] == Th(ths[x].0, ths[x].1) && children[2 * x + 2].Whitespace?
    requires HeaderLines(children[..2 * x + 1]) == ColumnLines(ths[..x])
    ensures HeaderLines(children[..2 * x + 3]) == ColumnLines(ths[..x + 1])
  {
    var cell, gap := children[2 * x + 1], children[2 * x + 2];
    var front := HeaderLines(children[..2 * x + 1]);
    var line := ColumnEntry(x, ths[x]);
    CellWritesColumn(x, ths[x]);
    assert HeaderEntry(2 * x + 1, cell) == line;
    HeaderLinesStep(children, 2 * x + 1);
    assert HeaderLines(children[..2 * x + 2]) == front + line;
    WhitespaceWritesNothing(x + 1, gap);
    HeaderLinesStep(children, 2 * x + 2);
    assert HeaderLines(children[..2 * x + 3]) == front + line + [];
    assert front + line + [] == front + line;
    ColumnLinesStep(ths, x);
  }

  /** The lines of the first n + 1 children are those of the first n, then
      the line of child n. */
  lemma HeaderLinesStep(children: seq<HeaderChild>, n: nat)
    requires n < |children|
    ensures HeaderLines(children[..n + 1]) == HeaderLines(children[..n]) + HeaderEntry(n, children[n])
  {
    assert children[..n + 1][..n] == children[..n];
  }

  /** The lines of the first x + 1 columns are those of the first x, then the
      line of column x. */
  lemma ColumnLinesStep(ths: seq<(string, string)>, x: nat)
    requires x < |ths|
    ensures ColumnLines(ths[..x + 1]) == ColumnLines(ths[..x]) + ColumnEntry(x, ths[x])
  {
    assert ths[..x + 1][..x] == ths[..x];
  }

  /** A whitespace node at an even position 2y writes nothing. */
  lemma WhitespaceWritesNothing(y: nat, child: HeaderChild)
    requires child.Whitespace?
    ensures HeaderEntry(2 * y, child) == []
  {
  }

  /** The header cell of column x, at its child position, writes the line of
      column x. */
  lemma CellWritesColumn(x: nat, th: (string, string))
    ensures HeaderEntry(ChildIndex(x), Th(th.0, th.1)) == ColumnEntry(x, th)
  {
    var i := ChildIndex(x);
    if i in HeaderIgnores() {
      assert x == 2 || x == 4;
    } else if i in HeaderRenames() {
      assert 24 <= x < 28;
    } else {
      assert x != 2 && x != 4 && !(24 <= x < 28);
    }
  }

  /** Position by position, a header of at least five columns gives one line
      fewer than it has columns: columns 0 and 1 in place, column 2 left out,
      and every later column x at position x - 1. */
  lemma {:induction false} ColumnLinesLayout(ths: seq<(string, string)>)
    requires |ths| >= 5
    ensures |ColumnLines(ths)| == |ths| - 1
    ensures ColumnLines(ths)[0] == ths[0] && ColumnLines(ths)[1] == ths[1]
    ensures forall x :: 3 <= x < |ths| ==> ColumnLines(ths)[x - 1] == ColumnEntry(x, ths[x])[0]
  {
    var n := |ths|;
    if n == 5 {
      assert ths[..1][..0] == [] && ths[..2][..1] == ths[..1] && ths[..3][..2] == ths[..2];
      assert ths[..4][..3] == ths[..3];
      assert ColumnLines(ths[..1]) == [ths[0]];
      assert ColumnLines(ths[..2]) == [ths[0], ths[1]];
      assert ColumnLines(ths[..3]) == [ths[0], ths[1]];
      assert ColumnLines(ths[..4]) == [ths[0], ths[1], ths[3]];
    } else {
      var front := ths[..n - 1];
      ColumnLinesLayout(front);
      assert ColumnLines(ths) == ColumnLines(front) + ColumnEntry(n - 1, ths[n - 1]);
      assert forall x :: 0 <= x < n - 1 ==> front[x] == ths[x];
    }
  }

  /** The header file and the year files agree column by column: for a header
      row of one more column than a season row has <td> cells, the header
      has as many lines as the season line has cells, and with the year
      appended to both, the years column and the year column line up. */
  lemma HeaderMatchesLines(children: seq<HeaderChild>, ths: seq<(string, string)>, row: Row, lookup: string, year: int)
    requires Interleaved(children, ths) && |ths| == |row.tds| + 1 && |row.tds| >= 4
    ensures var header := AppendHeader(HeaderLines(children));
      var line := Tagged(YearFile(year, [SeasonLine(row, lookup)]))[0];
      && |header| == |line| == |ths|
      && header[3] == ("Yrs", "Years in the NBA") && line[3] == lookup
      && header[|header| - 1] == ("Yr", "Player Starting Year") && line[|line| - 1] == IntToString(year)
  {
    HeaderByColumn(children, ths);
    ColumnLinesLayout(ths);
    SepCellsLayout(row.tds, lookup);
  }
}
