/** The cleaning stages applied to the scraped rookie table: per-minute
    conversion of the counting statistics, missing-value fill, the debut
    month lookup and the "lasts" label. Column division and comparison follow
    pandas on float columns: NaN in, NaN out; a nonzero count over zero
    minutes is an infinity; text cells make the operation raise TypeError. */
module CleaningPipe {
  import opened Results
  import opened Text
  import opened Frames

  // ---------------------------------------------------------------------------
  // Cellwise operations

  /** A cell operation applied down a column; the first failing cell's error
      is the column's error. */
  function Cellwise(vs: seq<Value>, g: Value -> Result<Value>): (r: Result<seq<Value>>)
    ensures r.Ok? <==> forall k :: 0 <= k < |vs| ==> g(vs[k]).Ok?
    ensures r.Ok? ==> |r.value| == |vs| && forall k :: 0 <= k < |vs| ==> g(vs[k]) == Ok(r.value[k])
    ensures r.Err? ==> exists k :: 0 <= k < |vs| && g(vs[k]) == Err(r.error)
  {
    if vs == [] then Ok([])
    else
      var front := vs[..|vs| - 1];
      match Cellwise(front, g)
      case Err(e) => Err(e)
      case Ok(done) =>
        match g(vs[|vs| - 1])
        case Err(e) => Err(e)
        case Ok(v) =>
          assert forall k :: 0 <= k < |front| ==> front[k] == vs[k];
          Ok(done + [v])
  }

  /** A boolean takes part in arithmetic as 1 or 0. */
  function AsNumber(v: Value): Value
  {
    if v.Flag? then Num(if v.b then 1.0 else 0.0) else v
  }

  /** `a / b` on two cells under IEEE division: NaN in gives NaN, x/0 is an
      infinity of the sign of x unless x is 0 (NaN), x/inf is 0, inf/inf is
      NaN; a text operand raises TypeError. */
  function Ratio(a: Value, b: Value): Result<Value>
  {
    if a.Text? || b.Text? then Err(TypeError)
    else if a.Missing? || b.Missing? then Ok(Missing)
    else
      match (AsNumber(a), AsNumber(b))
      case (Num(x), Num(y)) =>
        if y != 0.0 then Ok(Num(x / y))
        else if x == 0.0 then Ok(Missing)
        else Ok(Inf(x > 0.0))
      case (Num(_), Inf(_)) => Ok(Num(0.0))
      case (Inf(p), Num(y)) => Ok(Inf(if y < 0.0 then !p else p))
      case (Inf(_), Inf(_)) => Ok(Missing)
      case _ => Ok(Missing)
  }

  /** `counts / minutes`, row by row. */
  function Ratios(counts: seq<Value>, minutes: seq<Value>): (r: Result<seq<Value>>)
    requires |counts| == |minutes|
    ensures r.Ok? <==> forall k :: 0 <= k < |counts| ==> !counts[k].Text? && !minutes[k].Text?
    ensures r.Ok? ==> |r.value| == |counts| && forall k :: 0 <= k < |counts| ==> Ratio(counts[k], minutes[k]) == Ok(r.value[k])
    ensures r.Err? ==> r.error == TypeError
  {
    if counts == [] then Ok([])
    else
      var n := |counts| - 1;
      match Ratios(counts[..n], minutes[..n])
      case Err(e) => Err(e)
      case Ok(done) =>
        match Ratio(counts[n], minutes[n])
        case Err(e) => Err(e)
        case Ok(v) =>
          assert forall k :: 0 <= k < n ==> counts[..n][k] == counts[k] && minutes[..n][k] == minutes[k];
          Ok(done + [v])
  }

  /** `fillna(fill)` on one cell. */
  function Filled(v: Value, fill: Value): Value
  {
    if v.Missing? then fill else v
  }

  function FilledColumn(vs: seq<Value>, fill: Value): seq<Value>
  {
    seq(|vs|, k requires 0 <= k < |vs| => Filled(vs[k], fill))
  }

  // ---------------------------------------------------------------------------
  // ToPerMinute

  function PerMinuteName(stat: string): string
  {
    stat + "_pm"
  }

  function PerMinuteNames(stats: seq<string>): seq<string>
  {
    seq(|stats|, i requires 0 <= i < |stats| => PerMinuteName(stats[i]))
  }

  /** One round of the conversion loop: `X_[stat + "_pm"]` is set to
      `X_[stat] / X_["mp"]` with its NaNs filled with 0.0. */
  function AddRate(g: Frame, stat: string): (r: Result<Frame>)
    requires Valid(g)
    ensures r.Ok? ==> Valid(r.value) && r.value.height == g.height
  {
    match Get(g, stat)
    case Err(e) => Err(e)
    case Ok(counts) =>
      match Get(g, "mp")
      case Err(e) => Err(e)
      case Ok(minutes) =>
        match Ratios(counts, minutes)
        case Err(e) => Err(e)
        case Ok(q) => Ok(Set(g, PerMinuteName(stat), FilledColumn(q, Num(0.0))))
  }

  /** The conversion loop over the first |stats| statistics. */
  function AddRates(f: Frame, stats: seq<string>): (r: Result<Frame>)
    requires Valid(f)
    ensures r.Ok? ==> Valid(r.value) && r.value.height == f.height
  {
    if stats == [] then Ok(f)
    else
      match AddRates(f, stats[..|stats| - 1])
      case Err(e) => Err(e)
      case Ok(g) => AddRate(g, stats[|stats| - 1])
  }

  /** `ToPerMinute(to_pm).transform`: add every per-minute column, then drop
      the converted statistics. */
  function ToPerMinuteSpec(f: Frame, toPm: seq<string>): Result<Frame>
    requires Valid(f)
  {
    match AddRates(f, toPm)
    case Err(e) => Err(e)
    case Ok(g) => Drop(g, toPm)
  }

  /** Once a round of the loop fails, the loop fails with that error. */
  lemma {:induction false} AddRatesErrorPersists(f: Frame, stats: seq<string>, i: nat)
    requires Valid(f) && i <= |stats| && AddRates(f, stats[..i]).Err?
    ensures AddRates(f, stats) == AddRates(f, stats[..i])
    decreases |stats| - i
  {
    if i < |stats| {
      assert stats[..i + 1][..i] == stats[..i];
      AddRatesErrorPersists(f, stats, i + 1);
    } else {
      assert stats[..i] == stats;
    }
  }

  /** One more statistic is one more round on the frame the earlier rounds
      produced. */
  lemma AddRatesSnoc(f: Frame, stats: seq<string>, i: nat, g: Frame)
    requires Valid(f) && i < |stats| && AddRates(f, stats[..i]) == Ok(g)
    ensures Valid(g) && AddRates(f, stats[..i + 1]) == AddRate(g, stats[i])
  {
    assert stats[..i + 1][..i] == stats[..i];
  }

  /** The transformer's loop on a copy of the input: each statistic's
      per-minute column is added in turn, then the statistics are dropped. */
  method ToPerMinute(x: Frame, toPm: seq<string>) returns (r: Result<Frame>)
    requires Valid(x)
    ensures r == ToPerMinuteSpec(x, toPm)
  {
    var x_ := x;
    for i := 0 to |toPm|
      invariant AddRates(x, toPm[..i]) == Ok(x_)
    {
      AddRatesSnoc(x, toPm, i, x_);
      var stat := toPm[i];
      var counts := Get(x_, stat);
      var minutes := Get(x_, "mp");
      if counts.Err? || minutes.Err? {
        r := Err(if counts.Err? then counts.error else minutes.error);
        AddRatesErrorPersists(x, toPm, i + 1);
        return;
      }
      var q := Ratios(counts.value, minutes.value);
      if q.Err? {
        r := Err(q.error);
        AddRatesErrorPersists(x, toPm, i + 1);
        return;
      }
      x_ := Set(x_, PerMinuteName(stat), FilledColumn(q.value, Num(0.0)));
    }
    assert toPm[..|toPm|] == toPm;
    r := Drop(x_, toPm);
  }

  /** Only the undefined ratios are filled: per-minute cell k is 0 where both
      the count and the minutes are 0 or either is missing, an infinity where
      a nonzero count meets zero minutes, and the exact quotient otherwise. */
  lemma PerMinuteCell(count: real, minutes: real)
    ensures Ratio(Num(count), Num(minutes)).Ok?
    ensures var v := Filled(Ratio(Num(count), Num(minutes)).value, Num(0.0));
      && (minutes != 0.0 ==> v == Num(count / minutes))
      && (minutes == 0.0 && count == 0.0 ==> v == Num(0.0))
      && (minutes == 0.0 && count != 0.0 ==> v == Inf(count > 0.0))
    ensures Filled(Ratio(Missing, Num(minutes)).value, Num(0.0)) == Num(0.0)
    ensures Filled(Ratio(Num(count), Missing).value, Num(0.0)) == Num(0.0)
  {
  }

  /** A column that division and comparison accept: no text cells. */
  predicate Numeric(vs: seq<Value>)
  {
    forall k :: 0 <= k < |vs| ==> !vs[k].Text?
  }

  predicate NumericColumns(f: Frame, names: seq<string>)
    requires Valid(f)
  {
    forall n :: n in names ==> Get(f, n).Ok? && Numeric(Get(f, n).value)
  }

  /** What the conversion needs to run through: distinct statistics, all
      present and numeric, numeric minutes that are not themselves converted,
      and no per-minute label that clashes with an existing or converted
      column. */
  predicate ConvertibleBy(f: Frame, stats: seq<string>)
    requires Valid(f)
  {
    && Distinct(stats)
    && "mp" !in stats
    && NumericColumns(f, stats + ["mp"])
    && (forall s :: s in stats ==> PerMinuteName(s) !in Names(f) && PerMinuteName(s) !in stats)
  }

  /** The per-minute column of one statistic, as the conversion computes it. */
  function RateColumn(f: Frame, stat: string): seq<Value>
    requires Valid(f) && NumericColumns(f, [stat, "mp"])
  {
    assert stat in [stat, "mp"] && "mp" in [stat, "mp"];
    FilledColumn(Ratios(Get(f, stat).value, Get(f, "mp").value).value, Num(0.0))
  }

  lemma PerMinuteNameInjective(a: string, b: string)
    ensures PerMinuteName(a) == PerMinuteName(b) ==> a == b
  {
    if PerMinuteName(a) == PerMinuteName(b) {
      assert a == PerMinuteName(a)[..|a|];
    }
  }

  /** After i rounds on convertible input, the frame is the input with the
      first i per-minute columns appended; no other column has changed. */
  lemma {:induction false} AddRatesSchema(f: Frame, stats: seq<string>, i: nat)
    requires Valid(f) && ConvertibleBy(f, stats) && i <= |stats|
    ensures AddRates(f, stats[..i]).Ok?
    ensures RatesAdded(f, stats, i, AddRates(f, stats[..i]).value)
  {
    if i == 0 {
      assert stats[..0] == [];
      assert Names(f) + [] == Names(f);
    } else {
      var front := stats[..i - 1];
      assert stats[..i][..i - 1] == front;
      AddRatesSchema(f, stats, i - 1);
      var g := AddRates(f, front).value;
      var s := stats[i - 1];
      NumericStat(f, stats, i - 1);
      UnconvertedUnchanged(f, stats, i - 1, g);
      AddRateStep(f, g, s);
      assert AddRates(f, stats[..i]) == AddRate(g, s);
      RatesAddedStep(f, stats, i - 1, g);
    }
  }

  /** The statistic and the minutes are not per-minute labels, so the frame
      after earlier rounds still holds their input columns. */
  lemma UnconvertedUnchanged(f: Frame, stats: seq<string>, i: nat, g: Frame)
    requires Valid(f) && Valid(g) && ConvertibleBy(f, stats) && i < |stats| && RatesAdded(f, stats, i, g)
    ensures Get(g, stats[i]) == Get(f, stats[i]) && Get(g, "mp") == Get(f, "mp")
  {
    EarlierLabels(stats, i);
  }

  /** Neither a statistic nor "mp" is the per-minute label of an earlier
      statistic. */
  lemma EarlierLabels(stats: seq<string>, i: nat)
    requires i < |stats| && forall s :: s in stats ==> PerMinuteName(s) !in stats
    ensures stats[i] !in PerMinuteNames(stats[..i]) && "mp" !in PerMinuteNames(stats[..i])
  {
    var labels := PerMinuteNames(stats[..i]);
    forall j | 0 <= j < i
      ensures labels[j] != stats[i] && labels[j] != "mp"
    {
      assert labels[j] == PerMinuteName(stats[j]);
      assert stats[j] in stats && stats[i] in stats;
      assert |labels[j]| >= 3;
    }
  }

  /** Setting the i-th per-minute column extends the schema by one round. */
  lemma RatesAddedStep(f: Frame, stats: seq<string>, i: nat, g: Frame)
    requires Valid(f) && Valid(g) && ConvertibleBy(f, stats) && i < |stats| && RatesAdded(f, stats, i, g)
    requires NumericColumns(f, [stats[i], "mp"]) && g.height == f.height
    ensures RatesAdded(f, stats, i + 1, Set(g, PerMinuteName(stats[i]), RateColumn(f, stats[i])))
  {
    RoundNames(f, stats, i, g);
    RoundKeepsOthers(f, stats, i, g);
    RoundRates(f, stats, i, g);
  }

  /** The labels of one more round: the fresh per-minute label goes last. */
  lemma RoundLabels(f: Frame, stats: seq<string>, i: nat, g: Frame)
    requires Valid(f) && Valid(g) && ConvertibleBy(f, stats) && i < |stats| && RatesAdded(f, stats, i, g)
    ensures PerMinuteNames(stats[..i + 1]) == PerMinuteNames(stats[..i]) + [PerMinuteName(stats[i])]
    ensures PerMinuteName(stats[i]) !in Names(g)
  {
    var s := stats[i];
    PerMinuteFresh(stats, i);
    assert PerMinuteName(s) !in Names(f) by {
      assert s in stats;
    }
    assert stats[..i + 1] == stats[..i] + [s];
  }

  lemma RoundNames(f: Frame, stats: seq<string>, i: nat, g: Frame)
    requires Valid(f) && Valid(g) && ConvertibleBy(f, stats) && i < |stats| && RatesAdded(f, stats, i, g)
    requires NumericColumns(f, [stats[i], "mp"]) && g.height == f.height
    ensures Names(Set(g, PerMinuteName(stats[i]), RateColumn(f, stats[i]))) == Names(f) + PerMinuteNames(stats[..i + 1])
  {
    RoundLabels(f, stats, i, g);
  }

  lemma RoundKeepsOthers(f: Frame, stats: seq<string>, i: nat, g: Frame)
    requires Valid(f) && Valid(g) && ConvertibleBy(f, stats) && i < |stats| && RatesAdded(f, stats, i, g)
    requires NumericColumns(f, [stats[i], "mp"]) && g.height == f.height
    ensures var g2 := Set(g, PerMinuteName(stats[i]), RateColumn(f, stats[i]));
      forall n :: n !in PerMinuteNames(stats[..i + 1]) ==> Get(g2, n) == Get(f, n)
  {
    RoundLabels(f, stats, i, g);
    var pm := PerMinuteName(stats[i]);
    forall n | n !in PerMinuteNames(stats[..i + 1])
      ensures n != pm && n !in PerMinuteNames(stats[..i])
    {
      assert pm in PerMinuteNames(stats[..i + 1]);
    }
  }

  lemma RoundRates(f: Frame, stats: seq<string>, i: nat, g: Frame)
    requires Valid(f) && Valid(g) && ConvertibleBy(f, stats) && i < |stats| && RatesAdded(f, stats, i, g)
    requires NumericColumns(f, [stats[i], "mp"]) && g.height == f.height
    ensures var g2 := Set(g, PerMinuteName(stats[i]), RateColumn(f, stats[i]));
      forall j :: 0 <= j < i + 1 ==>
        NumericColumns(f, [stats[j], "mp"]) && Get(g2, PerMinuteName(stats[j])) == Ok(RateColumn(f, stats[j]))
  {
    var pm := PerMinuteName(stats[i]);
    var g2 := Set(g, pm, RateColumn(f, stats[i]));
    PerMinuteFresh(stats, i);
    forall j | 0 <= j < i + 1
      ensures NumericColumns(f, [stats[j], "mp"]) && Get(g2, PerMinuteName(stats[j])) == Ok(RateColumn(f, stats[j]))
    {
      NumericStat(f, stats, j);
      if j < i {
        assert PerMinuteName(stats[j]) != pm;
      }
    }
  }

  /** `g` is the input with the per-minute columns of the first i
      statistics appended, and nothing else changed. */
  ghost predicate RatesAdded(f: Frame, stats: seq<string>, i: nat, g: Frame)
    requires Valid(f) && Valid(g) && i <= |stats|
  {
    && Names(g) == Names(f) + PerMinuteNames(stats[..i])
    && (forall n :: n !in PerMinuteNames(stats[..i]) ==> Get(g, n) == Get(f, n))
    && (forall j :: 0 <= j < i ==> NumericColumns(f, [stats[j], "mp"]) && Get(g, PerMinuteName(stats[j])) == Ok(RateColumn(f, stats[j])))
  }

  /** Every converted statistic and the minutes are numeric columns. */
  lemma NumericStat(f: Frame, stats: seq<string>, j: nat)
    requires Valid(f) && ConvertibleBy(f, stats) && j < |stats|
    ensures NumericColumns(f, [stats[j], "mp"])
  {
    assert stats[j] in stats + ["mp"] && "mp" in stats + ["mp"];
  }

  /** The per-minute label of the j-th statistic is not among the labels of
      the statistics before it. */
  lemma PerMinuteFresh(stats: seq<string>, j: nat)
    requires Distinct(stats) && j < |stats|
    ensures PerMinuteName(stats[j]) !in PerMinuteNames(stats[..j])
    ensures forall k :: 0 <= k < j ==> PerMinuteName(stats[k]) != PerMinuteName(stats[j])
  {
    forall k | 0 <= k < j
      ensures PerMinuteName(stats[k]) != PerMinuteName(stats[j])
    {
      PerMinuteNameInjective(stats[k], stats[j]);
    }
    assert forall k :: 0 <= k < j ==> PerMinuteNames(stats[..j])[k] == PerMinuteName(stats[k]);
  }

  /** A round on a frame whose statistic and minutes columns are those of the
      input sets the statistic's per-minute column. */
  lemma AddRateStep(f: Frame, g: Frame, s: string)
    requires Valid(f) && Valid(g) && NumericColumns(f, [s, "mp"])
    requires Get(g, s) == Get(f, s) && Get(g, "mp") == Get(f, "mp") && g.height == f.height
    ensures AddRate(g, s) == Ok(Set(g, PerMinuteName(s), RateColumn(f, s)))
  {
    assert s in [s, "mp"] && "mp" in [s, "mp"];
  }

  /** On convertible input the conversion succeeds; the columns are the
      unconverted ones in their order followed by one per-minute column per
      statistic in `toPm` order, each holding the statistic over the minutes
      with NaNs filled; every other column (minutes included) is unchanged. */
  lemma ToPerMinuteSchema(f: Frame, toPm: seq<string>)
    requires Valid(f) && ConvertibleBy(f, toPm)
    ensures ToPerMinuteSpec(f, toPm).Ok?
    ensures var r := ToPerMinuteSpec(f, toPm).value;
      && r.height == f.height
      && Names(r) == Without(Names(f), toPm) + PerMinuteNames(toPm)
      && (forall n :: n !in toPm && n !in PerMinuteNames(toPm) ==> Get(r, n) == Get(f, n))
      && (forall j :: 0 <= j < |toPm| ==> NumericColumns(f, [toPm[j], "mp"]) && Get(r, PerMinuteName(toPm[j])) == Ok(RateColumn(f, toPm[j])))
  {
    AddRatesSchema(f, toPm, |toPm|);
    assert toPm[..|toPm|] == toPm;
    var g := AddRates(f, toPm).value;
    StatsPresent(f, toPm);
    PerMinuteNotConverted(toPm);
    DropConverted(f, toPm, g);
  }

  lemma StatsPresent(f: Frame, toPm: seq<string>)
    requires Valid(f) && ConvertibleBy(f, toPm)
    ensures forall s :: s in toPm ==> s in Names(f)
  {
    forall s | s in toPm
      ensures s in Names(f)
    {
      assert s in toPm + ["mp"];
    }
  }

  lemma PerMinuteNotConverted(toPm: seq<string>)
    requires forall s :: s in toPm ==> PerMinuteName(s) !in toPm
    ensures forall n :: n in PerMinuteNames(toPm) ==> n !in toPm
  {
    forall n | n in PerMinuteNames(toPm)
      ensures n !in toPm
    {
      var j :| 0 <= j < |toPm| && PerMinuteNames(toPm)[j] == n;
      assert toPm[j] in toPm;
    }
  }

  /** Dropping the statistics after the last round leaves the unconverted
      columns followed by the per-minute ones. */
  lemma DropConverted(f: Frame, toPm: seq<string>, g: Frame)
    requires Valid(f) && Valid(g) && g.height == f.height && RatesAdded(f, toPm, |toPm|, g)
    requires forall s :: s in toPm ==> s in Names(f)
    requires forall n :: n in PerMinuteNames(toPm) ==> n !in toPm
    ensures Drop(g, toPm).Ok?
    ensures var r := Drop(g, toPm).value;
      && r.height == f.height
      && Names(r) == Without(Names(f), toPm) + PerMinuteNames(toPm)
      && (forall n :: n !in toPm && n !in PerMinuteNames(toPm) ==> Get(r, n) == Get(f, n))
      && (forall j :: 0 <= j < |toPm| ==> NumericColumns(f, [toPm[j], "mp"]) && Get(r, PerMinuteName(toPm[j])) == Ok(RateColumn(f, toPm[j])))
  {
    var pms := PerMinuteNames(toPm);
    assert toPm[..|toPm|] == toPm;
    assert Names(g) == Names(f) + pms;
    var r := Drop(g, toPm).value;
    WithoutAppend(Names(f), pms, toPm);
    WithoutNone(pms, toPm);
    forall j | 0 <= j < |toPm|
      ensures Get(r, PerMinuteName(toPm[j])) == Get(g, PerMinuteName(toPm[j]))
    {
      assert pms[j] == PerMinuteName(toPm[j]);
    }
  }

  /** A statistic that is not a column makes the conversion fail on it, before
      any later statistic is looked at. */
  lemma ToPerMinuteMissingStat(f: Frame, toPm: seq<string>)
    requires Valid(f) && |toPm| > 0 && toPm[0] !in Names(f)
    ensures ToPerMinuteSpec(f, toPm) == Err(KeyError(toPm[0]))
  {
    assert toPm[..1][..0] == [];
    AddRatesErrorPersists(f, toPm, 1);
  }

  // ---------------------------------------------------------------------------
  // FillNA

  /** `FillNA(fill).transform`: every missing cell becomes `fill`, every
      other cell stays. */
  function FillNA(f: Frame, fill: Value): (r: Frame)
    requires Valid(f)
    ensures Valid(r) && r.height == f.height && Names(r) == Names(f)
    ensures forall n :: n in Names(f) ==> Get(r, n) == Ok(FilledColumn(Get(f, n).value, fill))
  {
    var r := MapCells(f, v => Filled(v, fill));
    assert forall i :: 0 <= i < |f.columns| ==> r.columns[i].values == FilledColumn(f.columns[i].values, fill);
    assert forall i :: 0 <= i < |f.columns| ==> Names(f)[i] == f.columns[i].name && Names(r)[i] == r.columns[i].name;
    r
  }

  /** After the fill with a present value, no cell is missing, and filling
      again changes nothing. */
  lemma FillNAComplete(f: Frame, fill: Value)
    requires Valid(f) && fill != Missing
    ensures NoneMissing(FillNA(f, fill))
    ensures FillNA(FillNA(f, fill), fill) == FillNA(f, fill)
  {
    var r := FillNA(f, fill);
    forall n | n in Names(r)
      ensures Missing !in Get(r, n).value
    {
      var vs := Get(f, n).value;
      assert forall k :: 0 <= k < |vs| ==> FilledColumn(vs, fill)[k] != Missing;
    }
    assert forall i :: 0 <= i < |f.columns| ==> Names(f)[i] == f.columns[i].name && Names(r)[i] == r.columns[i].name;
    var rr := FillNA(r, fill);
    forall i | 0 <= i < |rr.columns|
      ensures rr.columns[i] == r.columns[i]
    {
      assert Names(rr)[i] == rr.columns[i].name && Names(r)[i] == r.columns[i].name;
      assert Get(rr, r.columns[i].name) == Ok(FilledColumn(Get(r, r.columns[i].name).value, fill));
      assert rr.columns[i].values == FilledColumn(r.columns[i].values, fill);
    }
  }

  // ---------------------------------------------------------------------------
  // CreateLabels

  /** `yrs >= seasons` on one cell: NaN compares false, a text cell raises
      TypeError. */
  function AtLeast(seasons: int): Value -> Result<Value>
  {
    v =>
      match AsNumber(v)
      case Num(x) => Ok(Flag(x >= seasons as real))
      case Inf(p) => Ok(Flag(p))
      case Missing => Ok(Flag(false))
      case _ => Err(TypeError)
  }

  /** `CreateLabels(seasons).transform`: sets "lasts" to `yrs >= seasons`,
      then drops "yrs". */
  function CreateLabels(f: Frame, seasons: int): (r: Result<Frame>)
    requires Valid(f)
    ensures r.Ok? <==> "yrs" in Names(f) && Numeric(Get(f, "yrs").value)
    ensures r.Err? ==> r.error == KeyError("yrs") || r.error == TypeError
    ensures r.Ok? ==> Valid(r.value) && r.value.height == f.height
    ensures r.Ok? ==> var lasts := Cellwise(Get(f, "yrs").value, AtLeast(seasons)).value;
      r == Drop(Set(f, "lasts", lasts), ["yrs"])
  {
    match Get(f, "yrs")
    case Err(e) => Err(e)
    case Ok(yrs) =>
      match Cellwise(yrs, AtLeast(seasons))
      case Err(e) =>
        assert exists k :: 0 <= k < |yrs| && AtLeast(seasons)(yrs[k]) == Err(e);
        Err(e)
      case Ok(lasts) =>
        assert Numeric(yrs);
        var g := Set(f, "lasts", lasts);
        assert "yrs" in Names(g);
        Drop(g, ["yrs"])
  }

  /** On a frame with a numeric "yrs" column the stage keeps the rows, drops
      "yrs", adds "lasts" at the right (or overwrites it in place), leaves
      every other column as it was, and sets "lasts" in row k to whether the
      years played in row k reach `seasons` (false where they are missing). */
  lemma CreateLabelsSchema(f: Frame, seasons: int)
    requires Valid(f) && "yrs" in Names(f) && Numeric(Get(f, "yrs").value)
    ensures CreateLabels(f, seasons).Ok?
    ensures var r := CreateLabels(f, seasons).value;
      && r.height == f.height
      && Names(r) == Without(Names(f) + (if "lasts" in Names(f) then [] else ["lasts"]), ["yrs"])
      && (forall n :: n != "yrs" && n != "lasts" ==> Get(r, n) == Get(f, n))
      && Get(r, "lasts").Ok?
  {
    var lasts := Cellwise(Get(f, "yrs").value, AtLeast(seasons)).value;
    var g := Set(f, "lasts", lasts);
    assert Names(g) == Names(f) + (if "lasts" in Names(f) then [] else ["lasts"]);
    assert "yrs" in Names(g);
    assert Drop(g, ["yrs"]).Ok?;
    var r := Drop(g, ["yrs"]).value;
    assert "lasts" !in ["yrs"];
    assert Get(r, "lasts") == Get(g, "lasts");
  }

  /** The "lasts" column of the result is the cellwise comparison. */
  lemma CreateLabelsLasts(f: Frame, seasons: int)
    requires Valid(f) && "yrs" in Names(f) && Numeric(Get(f, "yrs").value)
    ensures CreateLabels(f, seasons).Ok?
    ensures Get(CreateLabels(f, seasons).value, "lasts") == Cellwise(Get(f, "yrs").value, AtLeast(seasons))
  {
    var lasts := Cellwise(Get(f, "yrs").value, AtLeast(seasons)).value;
    var g := Set(f, "lasts", lasts);
    assert "yrs" in Names(g);
    var r := Drop(g, ["yrs"]).value;
    assert "lasts" !in ["yrs"];
    assert Get(r, "lasts") == Get(g, "lasts");
  }

  lemma CreateLabelsCells(f: Frame, seasons: int, k: nat)
    requires Valid(f) && "yrs" in Names(f) && Numeric(Get(f, "yrs").value) && k < f.height
    ensures CreateLabels(f, seasons).Ok?
    ensures var yrs := Get(f, "yrs").value;
      var lasts := Get(CreateLabels(f, seasons).value, "lasts");
      && lasts.Ok? && |lasts.value| == f.height
      && (yrs[k].Num? ==> lasts.value[k] == Flag(yrs[k].x >= seasons as real))
      && (yrs[k].Missing? ==> lasts.value[k] == Flag(false))
      && (yrs[k].Inf? ==> lasts.value[k] == Flag(yrs[k].positive))
  {
    CreateLabelsLasts(f, seasons);
    var yrs := Get(f, "yrs").value;
    var lasts := Cellwise(yrs, AtLeast(seasons)).value;
    assert AtLeast(seasons)(yrs[k]) == Ok(lasts[k]);
  }

  // ---------------------------------------------------------------------------
  // GetDebutMonth

  /** The months of a season, October first. */
  const SeasonMonths: seq<string> := ["oct", "nov", "dec", "jan", "feb", "mar", "apr", "may", "jun", "jul", "aug", "sep"]

  /** This file's month table: the twelve month keys plus an entry for NaN. */
  const MonthMap: map<Value, int> := map[
    Text("oct") := 0, Text("nov") := 1, Text("dec") := 2, Text("jan") := 3,
    Text("feb") := 4, Text("mar") := 5, Text("apr") := 6, Text("may") := 7,
    Text("jun") := 8, Text("jul") := 9, Text("aug") := 10, Text("sep") := 11,
    Missing := 11]

  /** The month table sends the i-th month of the season to i, has no other
      text key, and sends NaN to 11. */
  lemma MonthMapSeasonOrder()
    ensures |SeasonMonths| == 12
    ensures forall i :: 0 <= i < 12 ==> Text(SeasonMonths[i]) in MonthMap && MonthMap[Text(SeasonMonths[i])] == i
    ensures forall k :: k in MonthMap ==> k == Missing || (k.Text? && k.s in SeasonMonths)
    ensures Missing in MonthMap && MonthMap[Missing] == 11
  {
  }

  /** The lambda `month[:3].lower()`: only a text has a prefix. */
  function MonthKey(v: Value): Result<Value>
  {
    if v.Text? then Ok(Text(Lower(v.s[..if |v.s| < 3 then |v.s| else 3]))) else Err(TypeError)
  }

  /** `Series.map(table)` on one cell: a key not in the table gives NaN. */
  function Lookup(table: map<Value, int>, key: Value): Value
  {
    if key in table then Num(table[key] as real) else Missing
  }

  /** `X["debut"].apply(lambda).map(table)`: the month index of each debut. */
  function DebutMonths(debut: seq<Value>, table: map<Value, int>): (r: Result<seq<Value>>)
    ensures r.Ok? <==> forall k :: 0 <= k < |debut| ==> debut[k].Text?
    ensures r.Ok? ==> |r.value| == |debut| && forall k :: 0 <= k < |debut| ==> r.value[k] == Lookup(table, MonthKey(debut[k]).value)
    ensures r.Err? ==> r.error == TypeError
  {
    match Cellwise(debut, MonthKey)
    case Err(e) => Err(e)
    case Ok(keys) => Ok(seq(|keys|, k requires 0 <= k < |keys| => Lookup(table, keys[k])))
  }

  /** `GetDebutMonth().transform` as written: adds "debut_month" and leaves
      "debut" as it is. */
  function GetDebutMonth(f: Frame): (r: Result<Frame>)
    requires Valid(f)
    ensures r.Ok? <==> "debut" in Names(f) && forall k :: 0 <= k < f.height ==> Get(f, "debut").value[k].Text?
    ensures r.Err? ==> r.error == KeyError("debut") || r.error == TypeError
    ensures r.Ok? ==> Valid(r.value) && r.value.height == f.height
    ensures r.Ok? ==> Names(r.value) == Names(f) + (if "debut_month" in Names(f) then [] else ["debut_month"])
    ensures r.Ok? ==> forall n :: n != "debut_month" ==> Get(r.value, n) == Get(f, n)
    ensures r.Ok? ==> "debut" in Names(f) && Get(r.value, "debut_month") == DebutMonths(Get(f, "debut").value, MonthMap)
  {
    match Get(f, "debut")
    case Err(e) => Err(e)
    case Ok(debut) =>
      match DebutMonths(debut, MonthMap)
      case Err(e) => Err(e)
      case Ok(months) => Ok(Set(f, "debut_month", months))
  }

  /** A debut such as "Nov 2, 2004" gets month index 1, whatever its case. */
  lemma DebutMonthOfDate(date: string, i: nat)
    requires i < 12 && |date| >= 3 && Lower(date[..3]) == SeasonMonths[i]
    ensures Lookup(MonthMap, MonthKey(Text(date)).value) == Num(i as real)
  {
    MonthMapSeasonOrder();
  }

  /** The NaN entry of the table is never reached: a missing debut fails in
      the lambda, so the whole stage raises TypeError. */
  lemma MissingDebutRaises(f: Frame, k: nat)
    requires Valid(f) && "debut" in Names(f) && k < f.height && Get(f, "debut").value[k] == Missing
    ensures GetDebutMonth(f) == Err(TypeError)
  {
  }

  /** The lambda applied with `Series.map(lambda, na_action="ignore")`: a
      NaN passes through untouched. */
  function MonthKeyIgnoringNaN(v: Value): Result<Value>
  {
    if v.Missing? then Ok(Missing) else MonthKey(v)
  }

  /** The evidently intended lookup: the lambda is skipped on missing debuts,
      so they reach the table's NaN entry. */
  function DebutMonthsIgnoringNaN(debut: seq<Value>, table: map<Value, int>): (r: Result<seq<Value>>)
    ensures r.Ok? <==> forall k :: 0 <= k < |debut| ==> debut[k].Text? || debut[k].Missing?
    ensures r.Ok? ==> |r.value| == |debut|
    ensures r.Ok? ==> forall k :: 0 <= k < |debut| && debut[k].Missing? ==> r.value[k] == Lookup(table, Missing)
    ensures r.Ok? ==> forall k :: 0 <= k < |debut| && debut[k].Text? ==> r.value[k] == Lookup(table, MonthKey(debut[k]).value)
    ensures r.Err? ==> r.error == TypeError
  {
    match Cellwise(debut, MonthKeyIgnoringNaN)
    case Err(e) => Err(e)
    case Ok(keys) => Ok(seq(|keys|, k requires 0 <= k < |keys| => Lookup(table, keys[k])))
  }

  /** The corrected `GetDebutMonth().transform`: as written, except that
      missing debuts are looked up instead of raising. */
  function GetDebutMonthIgnoringNaN(f: Frame): (r: Result<Frame>)
    requires Valid(f)
    ensures r.Ok? <==> ("debut" in Names(f) &&
      forall k :: 0 <= k < f.height ==> Get(f, "debut").value[k].Text? || Get(f, "debut").value[k].Missing?)
    ensures r.Err? ==> r.error == KeyError("debut") || r.error == TypeError
    ensures r.Ok? ==> Valid(r.value) && r.value.height == f.height
    ensures r.Ok? ==> Names(r.value) == Names(f) + (if "debut_month" in Names(f) then [] else ["debut_month"])
    ensures r.Ok? ==> forall n :: n != "debut_month" ==> Get(r.value, n) == Get(f, n)
    ensures r.Ok? ==> Get(r.value, "debut_month") == DebutMonthsIgnoringNaN(Get(f, "debut").value, MonthMap)
  {
    match Get(f, "debut")
    case Err(e) => Err(e)
    case Ok(debut) =>
      match DebutMonthsIgnoringNaN(debut, MonthMap)
      case Err(e) => Err(e)
      case Ok(months) => Ok(Set(f, "debut_month", months))
  }

  /** In the corrected stage a missing debut gets month index 11 from the
      table's NaN entry, where the stage as written raises. */
  lemma CorrectedStageReachesEntry(f: Frame, k: nat)
    requires Valid(f) && "debut" in Names(f) && k < f.height && Get(f, "debut").value[k] == Missing
    requires forall j :: 0 <= j < f.height ==> Get(f, "debut").value[j].Text? || Get(f, "debut").value[j].Missing?
    ensures GetDebutMonthIgnoringNaN(f).Ok?
    ensures Get(GetDebutMonthIgnoringNaN(f).value, "debut_month").value[k] == Num(11.0)
    ensures GetDebutMonth(f) == Err(TypeError)
  {
    MissingDebutRaises(f, k);
  }

  /** With the lambda skipped on NaN, a missing debut gets index 11 and every
      text debut gets the same index as in the stage as written. */
  lemma IgnoringNaNReachesEntry(debut: seq<Value>)
    requires forall k :: 0 <= k < |debut| ==> debut[k].Text? || debut[k].Missing?
    ensures var r := DebutMonthsIgnoringNaN(debut, MonthMap).value;
      && (forall k :: 0 <= k < |debut| && debut[k].Missing? ==> r[k] == Num(11.0))
      && (forall k :: 0 <= k < |debut| && debut[k].Text? ==> r[k] == Lookup(MonthMap, MonthKey(debut[k]).value))
  {
  }
}
