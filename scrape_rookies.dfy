/** The newer scraper: for one draft year it takes the season table and the
    career table (already parsed into rows), joins them by row position,
    derives the retirement flag against a supplied current year, appends the
    draft year and the flag to every row and types every cell by its column
    position. It also builds the feature-descriptor table from the season
    table's header cells. */
module ScrapeRookies {
  import opened Results
  import opened Text
  import opened Markup

  /** A cell of a collected row: text, or a parsed integer or float. */
  datatype Cell = Str(s: string) | Int(i: int) | Float(x: real)

  /** One entry of the descriptor table: a column's canonical name and its
      human-readable description. */
  datatype Descriptor = Descriptor(feature: string, description: string)

  /** The descriptor of the draft-year cell appended to every row. */
  const YearDescriptor := Descriptor("yr1", "Rookie Year")
  /** The descriptor of the retirement-flag cell appended to every row. */
  const RetiredDescriptor := Descriptor("retired", "Is the player retired (1: yes, 0: no)")

  /** The canonical names given to fixed header positions whose natural
      header text is ambiguous or duplicated. */
  const Renames: map<nat, string> := map[
    9 := "threes", 10 := "threes_a",
    21 := "fg_pct", 22 := "threes_pct", 23 := "ft_pct",
    24 := "mp_pg", 25 := "pts_pg", 26 := "trb_pg", 27 := "ast_pg"]

  // ---------------------------------------------------------------------------
  // Feature descriptors

  /** The descriptor table for the season table's header cells (pairs of
      header text and description attribute): every name lower-cased, the
      fixed positions of Renames renamed, description 4 replaced, and the two
      computed columns described at the end. An IndexError when the header
      has fewer than 28 cells. */
  function Descriptors(headers: seq<(string, string)>): Result<seq<Descriptor>>
  {
    if |headers| < 28 then Err(IndexError)
    else
      Ok(seq(|headers|, i requires 0 <= i < |headers| =>
           Descriptor(if i in Renames then Renames[i] else Lower(headers[i].0),
                      if i == 4 then "Years Played" else headers[i].1))
         + [YearDescriptor, RetiredDescriptor])
  }

  /** Builds the descriptor table step by step, as `create_header_df` updates
      its frame entry by entry. */
  method CreateHeaderDf(headers: seq<(string, string)>) returns (r: Result<seq<Descriptor>>)
    ensures r == Descriptors(headers)
  {
    var desc := seq(|headers|, i requires 0 <= i < |headers| => Descriptor(headers[i].0, headers[i].1));
    var k := 0;
    while k < |desc|
      invariant 0 <= k <= |desc| == |headers|
      invariant forall i :: 0 <= i < k ==> desc[i] == Descriptor(Lower(headers[i].0), headers[i].1)
      invariant forall i :: k <= i < |desc| ==> desc[i] == Descriptor(headers[i].0, headers[i].1)
    {
      desc := desc[k := desc[k].(feature := Lower(desc[k].feature))];
      k := k + 1;
    }
    // The highest position written below is 27.
    if |desc| < 28 {
      return Err(IndexError);
    }
    desc := desc[9 := desc[9].(feature := "threes")];
    desc := desc[10 := desc[10].(feature := "threes_a")];
    desc := desc[21 := desc[21].(feature := "fg_pct")];
    desc := desc[22 := desc[22].(feature := "threes_pct")];
    desc := desc[23 := desc[23].(feature := "ft_pct")];
    desc := desc[24 := desc[24].(feature := "mp_pg")];
    desc := desc[25 := desc[25].(feature := "pts_pg")];
    desc := desc[26 := desc[26].(feature := "trb_pg")];
    desc := desc[27 := desc[27].(feature := "ast_pg")];
    desc := desc[4 := desc[4].(description := "Years Played")];
    desc := desc + [YearDescriptor];
    desc := desc + [RetiredDescriptor];
    ghost var expected := Descriptors(headers).value;
    assert |desc| == |expected|;
    assert forall i :: 0 <= i < |desc| ==> desc[i] == expected[i];
    assert desc == expected;
    r := Ok(desc);
  }

  /** The descriptor table names every header position once: the scraped
      positions keep their order, a position outside Renames keeps its
      lower-cased header text, and the two computed columns come last. */
  lemma DescriptorsLayout(headers: seq<(string, string)>)
    requires |headers| >= 28
    ensures Descriptors(headers).Ok?
    ensures |Descriptors(headers).value| == |headers| + 2
    ensures forall i :: 0 <= i < |headers| && i !in Renames ==>
      Descriptors(headers).value[i].feature == Lower(headers[i].0)
    ensures forall i :: 0 <= i < |headers| && i != 4 ==>
      Descriptors(headers).value[i].description == headers[i].1
    ensures Descriptors(headers).value[4].description == "Years Played"
    ensures Descriptors(headers).value[|headers|..] == [YearDescriptor, RetiredDescriptor]
  {
    var desc := Descriptors(headers).value;
    assert desc[|headers|..] == [desc[|headers|], desc[|headers| + 1]];
  }

  // ---------------------------------------------------------------------------
  // Career table

  /** Cell 4 (seasons played) of every full_table career row, in row order;
      an IndexError when such a row has fewer than five cells. */
  function CareerStats(career: seq<Row>): (r: Result<seq<string>>)
    ensures r.Ok? <==> forall k :: 0 <= k < |FullTableRows(career)| ==> |Cells(FullTableRows(career)[k])| > 4
    ensures r.Ok? ==> |r.value| == |FullTableRows(career)|
    ensures r.Ok? ==> forall k :: 0 <= k < |r.value| ==> r.value[k] == Cells(FullTableRows(career)[k])[4]
    ensures r.Err? ==> r.error == IndexError
  {
    if career == [] then Ok([])
    else
      var n := |career| - 1;
      var last := career[n];
      var prefix := FullTableRows(career[..n]);
      assert FullTableRows(career) == prefix + (if last.fullTable then [last] else []);
      assert forall k :: 0 <= k < |prefix| ==> FullTableRows(career)[k] == prefix[k];
      match CareerStats(career[..n])
      case Err(e) => Err(e)
      case Ok(front) =>
        if !last.fullTable then Ok(front)
        else if |Cells(last)| <= 4 then
          assert FullTableRows(career)[|FullTableRows(career)| - 1] == last;
          Err(IndexError)
        else Ok(front + [Cells(last)[4]])
  }

  // ---------------------------------------------------------------------------
  // Season rows: join, retirement flag, extension and typing

  /** The retirement flag of a player drafted in `year` who played `seasons`
      seasons, judged in calendar year `thisYear`. */
  function Retired(year: int, thisYear: int, seasons: int): (flag: int)
    ensures flag == 0 || flag == 1
    ensures flag == 1 <==> thisYear - year >= seasons
  {
    if (thisYear - year) > (seasons - 1) then 1 else 0
  }

  /** The texts of the full_table season rows. */
  function SeasonPlayers(season: seq<Row>): seq<seq<string>>
  {
    var rows := FullTableRows(season);
    seq(|rows|, k requires 0 <= k < |rows| => Cells(rows[k]))
  }

  function Strs(texts: seq<string>): seq<Cell>
  {
    seq(|texts|, i requires 0 <= i < |texts| => Str(texts[i]))
  }

  /** A season row after the join and the extension, before typing: cell 4
      holds the career table's seasons cell, then the draft year as text and
      the flag follow. */
  function Joined(player: seq<string>, seasonsCell: string, year: int, flag: int): seq<Cell>
    requires |player| > 4
  {
    Strs(player)[4 := Str(seasonsCell)] + [Str(IntToString(year)), Int(flag)]
  }

  /** The type of the cell at position i: positions 21 to 27 become floats
      (the empty text becomes 0.0), positions 1 and 2 stay text, every other
      position becomes an integer. A text that does not parse is a
      ValueError. */
  function Coerce(i: nat, c: Cell): Result<Cell>
  {
    if 21 <= i < 28 then
      match c
      case Str(s) =>
        if s == "" then Ok(Float(0.0))
        else (match ParseDecimal(s) case Some(x) => Ok(Float(x)) case None => Err(ValueError))
      case Int(k) => Ok(Float(k as real))
      case Float(x) => Ok(Float(x))
    else if i == 1 || i == 2 then Ok(c)
    else
      match c
      case Str(s) => (match ParseInt(s) case Some(k) => Ok(Int(k)) case None => Err(ValueError))
      case Int(k) => Ok(Int(k))
      case Float(x) => Ok(Int(if x >= 0.0 then x.Floor else -((-x).Floor)))
  }

  /** Types every cell of a row by its position; a ValueError if one fails. */
  function CoerceRow(cells: seq<Cell>): Result<seq<Cell>>
  {
    if forall i :: 0 <= i < |cells| ==> Coerce(i, cells[i]).Ok? then
      Ok(seq(|cells|, i requires 0 <= i < |cells| && Coerce(i, cells[i]).Ok? => Coerce(i, cells[i]).value))
    else Err(ValueError)
  }

  /** One season row, given the career cell at the same position. */
  function CollectRow(player: seq<string>, seasonsCell: string, year: int, thisYear: int): Result<seq<Cell>>
  {
    if |player| <= 4 then Err(IndexError)
    else
      match ParseInt(seasonsCell)
      case None => Err(ValueError)
      case Some(n) => CoerceRow(Joined(player, seasonsCell, year, Retired(year, thisYear, n)))
  }

  function Prepend(rows: seq<seq<Cell>>, rest: Result<seq<seq<Cell>>>): Result<seq<seq<Cell>>>
  {
    match rest
    case Ok(tail) => Ok(rows + tail)
    case Err(e) => Err(e)
  }

  /** The season rows from position k on, each joined with the career cell
      at its own position; the first failing row's error aborts. */
  function CollectFrom(players: seq<seq<string>>, seasons: seq<string>, year: int, thisYear: int, k: nat)
    : Result<seq<seq<Cell>>>
    requires k <= |players|
    decreases |players| - k
  {
    if k == |players| then Ok([])
    else if k >= |seasons| then Err(IndexError)
    else
      match CollectRow(players[k], seasons[k], year, thisYear)
      case Err(e) => Err(e)
      case Ok(row) => Prepend([row], CollectFrom(players, seasons, year, thisYear, k + 1))
  }

  lemma PrependStep(rows: seq<seq<Cell>>, row: seq<Cell>, rest: Result<seq<seq<Cell>>>)
    ensures Prepend(rows, Prepend([row], rest)) == Prepend(rows + [row], rest)
  {
    match rest {
      case Ok(tail) => assert rows + ([row] + tail) == (rows + [row]) + tail;
      case Err(_) =>
    }
  }

  /** Season row j has a career cell at its own position and joins with it
      without error. */
  predicate RowJoins(players: seq<seq<string>>, seasons: seq<string>, year: int, thisYear: int, j: nat)
    requires j < |players|
  {
    j < |seasons| && CollectRow(players[j], seasons[j], year, thisYear).Ok?
  }

  /** Everything one year contributes to the raw dataset. */
  function RookieStats(season: seq<Row>, career: seq<Row>, year: int, thisYear: int): Result<seq<seq<Cell>>>
  {
    match CareerStats(career)
    case Err(e) => Err(e)
    case Ok(seasons) => CollectFrom(SeasonPlayers(season), seasons, year, thisYear, 0)
  }

  /** Types the cells of one joined row in place, position by position. */
  method CoercePlayer(joined: seq<Cell>) returns (r: Result<seq<Cell>>)
    ensures r == CoerceRow(joined)
  {
    var player := joined;
    var i := 0;
    while i < |player|
      invariant 0 <= i <= |player| == |joined|
      invariant forall j :: 0 <= j < i ==> Coerce(j, joined[j]).Ok? && player[j] == Coerce(j, joined[j]).value
      invariant forall j :: i <= j < |player| ==> player[j] == joined[j]
    {
      var stat := player[i];
      if 21 <= i < 28 {
        match stat {
          case Str(s) =>
            if s == "" {
              player := player[i := Float(0.0)];
            } else {
              var x := ParseDecimal(s);
              if x.None? {
                assert Coerce(i, joined[i]).Err?;
                return Err(ValueError);
              }
              player := player[i := Float(x.value)];
            }
          case Int(k) =>
            player := player[i := Float(k as real)];
          case Float(x) =>
        }
      } else if i != 1 && i != 2 {
        match stat {
          case Str(s) =>
            var k := ParseInt(s);
            if k.None? {
              assert Coerce(i, joined[i]).Err?;
              return Err(ValueError);
            }
            player := player[i := Int(k.value)];
          case Int(k) =>
          case Float(x) =>
            player := player[i := Int(if x >= 0.0 then x.Floor else -((-x).Floor))];
        }
      }
      i := i + 1;
    }
    ghost var typed := CoerceRow(joined);
    assert typed.Ok?;
    assert |typed.value| == |player|;
    assert forall j :: 0 <= j < |player| ==> typed.value[j] == player[j];
    assert typed.value == player;
    assert typed == Ok(player);
    r := Ok(player);
  }

  /** Collects one year's rows, mutating each row in turn as
      `rookie_stat_collect` does. */
  method RookieStatCollect(season: seq<Row>, career: seq<Row>, year: int, thisYear: int)
    returns (r: Result<seq<seq<Cell>>>)
    ensures r == RookieStats(season, career, year, thisYear)
  {
    var careerStats := CareerStats(career);
    if careerStats.Err? {
      return Err(careerStats.error);
    }
    var seasons := careerStats.value;
    var texts := SeasonPlayers(season);
    var players := seq(|texts|, k requires 0 <= k < |texts| => Strs(texts[k]));
    var index := 0;
    match CollectFrom(texts, seasons, year, thisYear, 0) {
      case Ok(tail) => assert [] + tail == tail;
      case Err(_) =>
    }
    while index < |players|
      invariant 0 <= index <= |players| == |texts|
      invariant forall k :: index <= k < |players| ==> players[k] == Strs(texts[k])
      invariant CollectFrom(texts, seasons, year, thisYear, 0)
             == Prepend(players[..index], CollectFrom(texts, seasons, year, thisYear, index))
    {
      var player := players[index];
      if index >= |seasons| || |player| <= 4 {
        assert CollectFrom(texts, seasons, year, thisYear, index) == Err(IndexError);
        return Err(IndexError);
      }
      player := player[4 := Str(seasons[index])];
      var seasonsPlayed := ParseInt(seasons[index]);
      if seasonsPlayed.None? {
        assert CollectFrom(texts, seasons, year, thisYear, index) == Err(ValueError);
        return Err(ValueError);
      }
      var retired := Retired(year, thisYear, seasonsPlayed.value);
      player := player + [Str(IntToString(year)), Int(retired)];
      assert player == Joined(texts[index], seasons[index], year, retired);
      var typed := CoercePlayer(player);
      if typed.Err? {
        assert CollectFrom(texts, seasons, year, thisYear, index) == Err(typed.error);
        return Err(typed.error);
      }
      player := typed.value;
      assert CollectRow(texts[index], seasons[index], year, thisYear) == Ok(player);
      PrependStep(players[..index], player, CollectFrom(texts, seasons, year, thisYear, index + 1));
      players := players[index := player];
      assert players[..index + 1] == players[..index] + [player];
      index := index + 1;
    }
    assert players[..index] == players;
    assert players + [] == players;
    r := Ok(players);
  }

  // ---------------------------------------------------------------------------
  // Properties of the collected rows

  /** From position k on, the rows succeed exactly when every season row has
      a career cell at its own position and joins without error; then there
      is one output row per season row, the k-th joined with career cell k. */
  lemma {:induction false} CollectFromRows(players: seq<seq<string>>, seasons: seq<string>, year: int, thisYear: int, k: nat)
    requires k <= |players|
    ensures CollectFrom(players, seasons, year, thisYear, k).Ok? <==>
      forall j :: k <= j < |players| ==> RowJoins(players, seasons, year, thisYear, j)
    ensures CollectFrom(players, seasons, year, thisYear, k).Ok? && k < |players| ==> |players| <= |seasons|
    ensures CollectFrom(players, seasons, year, thisYear, k).Ok? ==>
      var rows := CollectFrom(players, seasons, year, thisYear, k).value;
      |rows| == |players| - k &&
      forall j :: k <= j < |players| ==>
        RowJoins(players, seasons, year, thisYear, j) &&
        rows[j - k] == CollectRow(players[j], seasons[j], year, thisYear).value
    decreases |players| - k
  {
    if k < |players| && k < |seasons| && CollectRow(players[k], seasons[k], year, thisYear).Ok? {
      CollectFromRows(players, seasons, year, thisYear, k + 1);
      var row := CollectRow(players[k], seasons[k], year, thisYear).value;
      match CollectFrom(players, seasons, year, thisYear, k + 1) {
        case Ok(tail) =>
          var rows := [row] + tail;
          assert CollectFrom(players, seasons, year, thisYear, k) == Ok(rows);
          forall j | k <= j < |players|
            ensures RowJoins(players, seasons, year, thisYear, j)
            ensures rows[j - k] == CollectRow(players[j], seasons[j], year, thisYear).value
          {
            if j > k {
              assert rows[j - k] == tail[j - (k + 1)];
            }
          }
        case Err(e) =>
          assert CollectFrom(players, seasons, year, thisYear, k) == Err(e);
          var j :| k + 1 <= j < |players| && !RowJoins(players, seasons, year, thisYear, j);
      }
    } else if k < |players| {
      assert !RowJoins(players, seasons, year, thisYear, k);
      assert CollectFrom(players, seasons, year, thisYear, k).Err?;
    }
  }

  /** The positional join: when a year is collected without error, output
      row k is season full_table row k joined with the seasons cell of career
      full_table row k; there are exactly as many output rows as season
      full_table rows, and at least as many career rows. */
  lemma PositionalJoin(season: seq<Row>, career: seq<Row>, year: int, thisYear: int)
    requires RookieStats(season, career, year, thisYear).Ok?
    ensures |RookieStats(season, career, year, thisYear).value| == |FullTableRows(season)|
    ensures |FullTableRows(season)| <= |FullTableRows(career)|
    ensures forall k :: 0 <= k < |FullTableRows(season)| ==>
      var row := CollectRow(Cells(FullTableRows(season)[k]), Cells(FullTableRows(career)[k])[4], year, thisYear);
      row.Ok? && RookieStats(season, career, year, thisYear).value[k] == row.value
  {
    var seasons := CareerStats(career).value;
    var players := SeasonPlayers(season);
    var rows := RookieStats(season, career, year, thisYear).value;
    assert CollectFrom(players, seasons, year, thisYear, 0) == Ok(rows);
    CollectFromRows(players, seasons, year, thisYear, 0);
    var seasonRows, careerRows := FullTableRows(season), FullTableRows(career);
    forall k | 0 <= k < |seasonRows|
      ensures var row := CollectRow(Cells(seasonRows[k]), Cells(careerRows[k])[4], year, thisYear);
        row.Ok? && rows[k] == row.value
    {
      assert players[k] == Cells(seasonRows[k]);
      assert RowJoins(players, seasons, year, thisYear, k);
      assert seasons[k] == Cells(careerRows[k])[4];
    }
  }

  /** Fewer career rows than season rows is never silently accepted: the
      collection fails. */
  lemma ShortCareerTableFails(players: seq<seq<string>>, seasons: seq<string>, year: int, thisYear: int)
    requires |seasons| < |players|
    ensures CollectFrom(players, seasons, year, thisYear, 0).Err?
  {
    CollectFromRows(players, seasons, year, thisYear, 0);
  }

  /** Career rows beyond the season rows are ignored. */
  lemma {:induction false} ExtraCareerRowsIgnored(players: seq<seq<string>>, seasons: seq<string>, extra: seq<string>,
                                                  year: int, thisYear: int, k: nat)
    requires k <= |players| <= |seasons|
    ensures CollectFrom(players, seasons + extra, year, thisYear, k) == CollectFrom(players, seasons, year, thisYear, k)
    decreases |players| - k
  {
    if k < |players| {
      assert (seasons + extra)[k] == seasons[k];
      ExtraCareerRowsIgnored(players, seasons, extra, year, thisYear, k + 1);
    }
  }

  /** The shape of one collected row: two cells longer than the scraped row;
      cell 4 is the career table's seasons count; cells 1 and 2 keep their
      text; cells 21 to 27 are floats; the other scraped cells are their
      parsed integers; and on a full-width row the two appended cells are the
      draft year and the retirement flag. */
  lemma CollectRowShape(player: seq<string>, seasonsCell: string, year: int, thisYear: int)
    requires CollectRow(player, seasonsCell, year, thisYear).Ok?
    ensures |player| > 4 && ParseInt(seasonsCell).Some?
    ensures var row := CollectRow(player, seasonsCell, year, thisYear).value;
      && |row| == |player| + 2
      && row[4] == Int(ParseInt(seasonsCell).value)
      && row[1] == Str(player[1]) && row[2] == Str(player[2])
      && (forall i :: 21 <= i < 28 && i < |player| ==> row[i].Float?)
      && (forall i :: 0 <= i < |player| && i != 1 && i != 2 && i != 4 && !(21 <= i < 28) ==>
            ParseInt(player[i]) == Some(row[i].i) && row[i].Int?)
      && (|player| >= 28 ==>
            row[|player|] == Int(year) &&
            row[|player| + 1] == Int(Retired(year, thisYear, ParseInt(seasonsCell).value)))
  {
    var n := ParseInt(seasonsCell).value;
    var joined := Joined(player, seasonsCell, year, Retired(year, thisYear, n));
    assert joined[|player|] == Str(IntToString(year));
    ParseIntToString(year);
    var row := CollectRow(player, seasonsCell, year, thisYear).value;
    forall i | 0 <= i < |player| && i != 1 && i != 2 && i != 4 && !(21 <= i < 28)
      ensures ParseInt(player[i]) == Some(row[i].i) && row[i].Int?
    {
      assert joined[i] == Str(player[i]);
      assert Coerce(i, joined[i]).Ok?;
    }
  }

  /** Every collected row lines up with the descriptor table of its header:
      the same width, and the two appended cells sit under the "yr1" and
      "retired" descriptors. */
  lemma DescriptorsMatchRows(headers: seq<(string, string)>, player: seq<string>, seasonsCell: string,
                             year: int, thisYear: int)
    requires |headers| >= 28 && |player| == |headers|
    requires CollectRow(player, seasonsCell, year, thisYear).Ok?
    ensures var desc := Descriptors(headers).value;
      var row := CollectRow(player, seasonsCell, year, thisYear).value;
      && |row| == |desc|
      && desc[|player|].feature == "yr1" && row[|player|] == Int(year)
      && desc[|player| + 1].feature == "retired" && row[|player| + 1].Int?
  {
    CollectRowShape(player, seasonsCell, year, thisYear);
  }
}
