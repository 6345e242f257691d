/** The cleaning entry point: the four cleaning stages composed in a fixed
    order, with the statistics converted to per-minute values and the
    columns dropped by default. */
module ManageData {
  import opened Results
  import opened Frames
  import opened CleaningPipe

  /** The counting statistics converted to per-minute values. */
  const ToPm: seq<string> := ["fg", "threes", "ft", "orb", "trb", "ast", "stl", "blk", "tov", "pf", "pts"]

  /** The columns removed before labelling. */
  const DropCols: seq<string> := ["mp_pg", "fga", "threes_a", "fta", "trb_pg", "ast_pg", "pts_pg", "yr1", "retired", "g", "debut"]

  /** The default number of seasons a player must reach to count as lasting. */
  const MinSeasons: int := 5

  /** `clean_data`: per-minute conversion, fill with 0, column drop, labels. */
  function CleanData(df: Frame, toPm: seq<string>, dropCols: seq<string>, minSeasons: int): (r: Result<Frame>)
    requires Valid(df)
    ensures r.Ok? ==> Valid(r.value) && r.value.height == df.height
  {
    match ToPerMinuteSpec(df, toPm)
    case Err(e) => Err(e)
    case Ok(converted) =>
      ToPerMinuteHeight(df, toPm);
      var filled := FillNA(converted, Num(0.0));
      match Drop(filled, dropCols)
      case Err(e) => Err(e)
      case Ok(pruned) => CreateLabels(pruned, minSeasons)
  }

  lemma ToPerMinuteHeight(df: Frame, toPm: seq<string>)
    requires Valid(df) && ToPerMinuteSpec(df, toPm).Ok?
    ensures Valid(ToPerMinuteSpec(df, toPm).value) && ToPerMinuteSpec(df, toPm).value.height == df.height
  {
  }

  /** The default lists are duplicate-free and disjoint; neither holds the
      minutes, the years played or the label, and no per-minute label is a
      dropped, a converted, or one of those columns. */
  lemma DefaultsCompatible()
    ensures Distinct(ToPm) && Distinct(DropCols)
    ensures forall s :: s in ToPm ==> s !in DropCols
    ensures "mp" !in ToPm && "mp" !in DropCols && "yrs" !in ToPm && "yrs" !in DropCols
    ensures "lasts" !in ToPm && "lasts" !in DropCols
    ensures forall n :: n in PerMinuteNames(ToPm) ==> n !in DropCols && n !in ToPm && n != "yrs" && n != "lasts" && n != "mp"
  {
    DefaultListsDistinct();
    DefaultListsDisjoint();
    PerMinuteLabelsFresh();
  }

  lemma DefaultListsDistinct()
    ensures Distinct(ToPm) && Distinct(DropCols)
  {
  }

  lemma DefaultListsDisjoint()
    ensures forall s :: s in ToPm ==> s !in DropCols
    ensures "mp" !in ToPm && "mp" !in DropCols && "yrs" !in ToPm && "yrs" !in DropCols
    ensures "lasts" !in ToPm && "lasts" !in DropCols
  {
  }

  lemma PerMinuteLabelsFresh()
    ensures forall n :: n in PerMinuteNames(ToPm) ==> n !in DropCols && n !in ToPm && n != "yrs" && n != "lasts" && n != "mp"
  {
    var others := DropCols + ToPm + ["yrs", "lasts", "mp"];
    assert forall d :: d in others ==> !PmSuffixed(d);
    forall n | n in PerMinuteNames(ToPm)
      ensures PmSuffixed(n)
    {
      var j :| 0 <= j < |ToPm| && PerMinuteNames(ToPm)[j] == n;
      assert n == ToPm[j] + "_pm";
      assert n[|n| - 3..] == "_pm";
    }
    assert forall d :: d in DropCols ==> d in others;
    assert forall d :: d in ToPm ==> d in others;
  }

  /** A label ending in "_pm", as every per-minute label does. */
  predicate PmSuffixed(name: string)
  {
    |name| >= 3 && name[|name| - 3..] == "_pm"
  }

  /** What the composed stages need from the input, given the two lists:
      the conversion can run, the dropped columns are present and neither
      converted nor per-minute labels, and there is a numeric "yrs" column
      that no stage touches before labelling and no "lasts" column yet. */
  ghost predicate Cleanable(df: Frame, toPm: seq<string>, dropCols: seq<string>)
    requires Valid(df)
  {
    && ConvertibleBy(df, toPm)
    && (forall d :: d in dropCols ==> d in Names(df) && d !in toPm && d !in PerMinuteNames(toPm))
    && "yrs" in Names(df) && Numeric(Get(df, "yrs").value)
    && "yrs" !in toPm && "yrs" !in dropCols && "yrs" !in PerMinuteNames(toPm)
    && "lasts" !in Names(df) && "lasts" !in PerMinuteNames(toPm)
  }

  /** On cleanable input the pipeline succeeds, keeps every row, and its
      columns are the input's minus the converted, dropped and "yrs" columns
      (in their order), then the per-minute columns, then "lasts"; no cell
      of the result is missing. */
  lemma CleanDataSchema(df: Frame, toPm: seq<string>, dropCols: seq<string>, minSeasons: int)
    requires Valid(df) && Cleanable(df, toPm, dropCols)
    ensures CleanData(df, toPm, dropCols, minSeasons).Ok?
    ensures var r := CleanData(df, toPm, dropCols, minSeasons).value;
      && r.height == df.height
      && Names(r) == Without(Names(df), toPm + dropCols + ["yrs"]) + PerMinuteNames(toPm) + ["lasts"]
      && NoneMissing(r)
  {
    var pms := PerMinuteNames(toPm);
    ToPerMinuteSchema(df, toPm);
    var converted := ToPerMinuteSpec(df, toPm).value;
    ToPerMinuteHeight(df, toPm);
    var filled := FillNA(converted, Num(0.0));
    FillNAComplete(converted, Num(0.0));
    WithoutMembers(Names(df), toPm);
    assert forall d :: d in dropCols ==> d in Names(filled);
    var pruned := Drop(filled, dropCols).value;
    WithoutAppend(Without(Names(df), toPm), pms, dropCols);
    WithoutNone(pms, dropCols);
    WithoutTwice(Names(df), toPm, dropCols);
    assert Names(pruned) == Without(Names(df), toPm + dropCols) + pms;
    YearsSurvive(df, toPm, dropCols, converted, filled, pruned);
    CreateLabelsSchema(pruned, minSeasons);
    var r := CreateLabels(pruned, minSeasons).value;
    LabelledNames(df, toPm, dropCols, pruned, r);
    LabelledComplete(filled, dropCols, pruned, minSeasons);
  }

  /** The "yrs" column reaches the label stage numeric, with its missing
      cells filled. */
  lemma YearsSurvive(df: Frame, toPm: seq<string>, dropCols: seq<string>, converted: Frame, filled: Frame, pruned: Frame)
    requires Valid(df) && Cleanable(df, toPm, dropCols)
    requires ToPerMinuteSpec(df, toPm) == Ok(converted) && Valid(converted)
    requires filled == FillNA(converted, Num(0.0)) && Drop(filled, dropCols) == Ok(pruned)
    ensures Valid(pruned) && "yrs" in Names(pruned) && Numeric(Get(pruned, "yrs").value)
  {
    ConvertedYears(df, toPm, dropCols, converted);
    var yrs := Get(df, "yrs").value;
    assert Get(filled, "yrs") == Ok(FilledColumn(yrs, Num(0.0)));
    assert "yrs" !in dropCols;
    assert Get(pruned, "yrs") == Get(filled, "yrs");
  }

  /** The conversion leaves "yrs" as it was. */
  lemma ConvertedYears(df: Frame, toPm: seq<string>, dropCols: seq<string>, converted: Frame)
    requires Valid(df) && Cleanable(df, toPm, dropCols)
    requires ToPerMinuteSpec(df, toPm) == Ok(converted) && Valid(converted)
    ensures "yrs" in Names(converted) && Get(converted, "yrs") == Get(df, "yrs")
  {
    ToPerMinuteSchema(df, toPm);
    WithoutMembers(Names(df), toPm);
  }

  lemma LabelledNames(df: Frame, toPm: seq<string>, dropCols: seq<string>, pruned: Frame, r: Frame)
    requires Valid(df) && Valid(pruned) && Cleanable(df, toPm, dropCols)
    requires Names(pruned) == Without(Names(df), toPm + dropCols) + PerMinuteNames(toPm)
    requires Names(r) == Without(Names(pruned) + (if "lasts" in Names(pruned) then [] else ["lasts"]), ["yrs"])
    ensures Names(r) == Without(Names(df), toPm + dropCols + ["yrs"]) + PerMinuteNames(toPm) + ["lasts"]
  {
    var pms := PerMinuteNames(toPm);
    var kept := Without(Names(df), toPm + dropCols);
    WithoutMembers(Names(df), toPm + dropCols);
    assert "lasts" !in Names(pruned);
    WithoutAppend(kept + pms, ["lasts"], ["yrs"]);
    WithoutAppend(kept, pms, ["yrs"]);
    WithoutNone(pms, ["yrs"]);
    WithoutNone(["lasts"], ["yrs"]);
    WithoutTwice(Names(df), toPm + dropCols, ["yrs"]);
    assert toPm + dropCols + ["yrs"] == (toPm + dropCols) + ["yrs"];
  }

  /** The label stage adds only flags, and every other column it keeps is a
      filled one. */
  lemma LabelledComplete(filled: Frame, dropCols: seq<string>, pruned: Frame, minSeasons: int)
    requires Valid(filled) && NoneMissing(filled) && Drop(filled, dropCols) == Ok(pruned)
    requires CreateLabels(pruned, minSeasons).Ok?
    ensures NoneMissing(CreateLabels(pruned, minSeasons).value)
  {
    var r := CreateLabels(pruned, minSeasons).value;
    var lasts := Cellwise(Get(pruned, "yrs").value, AtLeast(minSeasons)).value;
    var labelled := Set(pruned, "lasts", lasts);
    assert r == Drop(labelled, ["yrs"]).value;
    LabelsArePresent(Get(pruned, "yrs").value, minSeasons);
    WithoutMembers(Names(labelled), ["yrs"]);
    WithoutMembers(Names(filled), dropCols);
    forall n | n in Names(r)
      ensures Missing !in Get(r, n).value
    {
      assert n != "yrs";
      if n != "lasts" {
        assert n in Names(pruned);
        assert Get(r, n) == Get(labelled, n) == Get(pruned, n) == Get(filled, n);
      }
    }
  }

  /** Every label is a flag, never missing. */
  lemma LabelsArePresent(yrs: seq<Value>, minSeasons: int)
    requires Cellwise(yrs, AtLeast(minSeasons)).Ok?
    ensures Missing !in Cellwise(yrs, AtLeast(minSeasons)).value
  {
    var lasts := Cellwise(yrs, AtLeast(minSeasons)).value;
    forall k | 0 <= k < |lasts|
      ensures lasts[k] != Missing
    {
      assert AtLeast(minSeasons)(yrs[k]) == Ok(lasts[k]);
    }
  }

  /** The defaults on a table with the scraped columns: the result's columns
      are the input's minus the converted, dropped and "yrs" columns, then
      the eleven per-minute columns, then "lasts"; rows are kept and no cell
      is missing. */
  lemma CleanDataDefaults(df: Frame)
    requires Valid(df)
    requires NumericColumns(df, ToPm + ["mp", "yrs"])
    requires forall d :: d in DropCols ==> d in Names(df)
    requires forall n :: n in PerMinuteNames(ToPm) + ["lasts"] ==> n !in Names(df)
    ensures CleanData(df, ToPm, DropCols, MinSeasons).Ok?
    ensures var r := CleanData(df, ToPm, DropCols, MinSeasons).value;
      && r.height == df.height
      && Names(r) == Without(Names(df), ToPm + DropCols + ["yrs"]) + PerMinuteNames(ToPm) + ["lasts"]
      && NoneMissing(r)
  {
    DefaultsCompatible();
    assert NumericColumns(df, ToPm + ["mp"]) by {
      forall n | n in ToPm + ["mp"]
        ensures n in ToPm + ["mp", "yrs"]
      {
      }
    }
    assert "yrs" in ToPm + ["mp", "yrs"];
    forall n | n in PerMinuteNames(ToPm)
      ensures n !in Names(df)
    {
      assert n in PerMinuteNames(ToPm) + ["lasts"];
    }
    assert "lasts" in PerMinuteNames(ToPm) + ["lasts"];
    forall s | s in ToPm
      ensures PerMinuteName(s) in PerMinuteNames(ToPm)
    {
      var j :| 0 <= j < |ToPm| && ToPm[j] == s;
      assert PerMinuteNames(ToPm)[j] == PerMinuteName(s);
    }
    CleanDataSchema(df, ToPm, DropCols, MinSeasons);
  }

  /** Whatever the input, a successful run leaves no converted statistic
      behind (and a "lasts" column in place of "yrs"). */
  lemma CleanDataRemovesStats(df: Frame, toPm: seq<string>, dropCols: seq<string>, minSeasons: int)
    requires Valid(df) && CleanData(df, toPm, dropCols, minSeasons).Ok?
    requires "lasts" !in toPm
    ensures var names := Names(CleanData(df, toPm, dropCols, minSeasons).value);
      && (forall s :: s in toPm ==> s !in names)
      && "lasts" in names && "yrs" !in names
  {
    var converted := ToPerMinuteSpec(df, toPm).value;
    var g := AddRates(df, toPm).value;
    WithoutMembers(Names(g), toPm);
    ToPerMinuteHeight(df, toPm);
    var filled := FillNA(converted, Num(0.0));
    var pruned := Drop(filled, dropCols).value;
    WithoutMembers(Names(filled), dropCols);
    var r := CreateLabels(pruned, minSeasons).value;
    var lasts := Cellwise(Get(pruned, "yrs").value, AtLeast(minSeasons)).value;
    var labelled := Set(pruned, "lasts", lasts);
    WithoutMembers(Names(labelled), ["yrs"]);
    assert "lasts" in Names(labelled);
  }

  /** Cleaning is single-pass: run on its own output, the pipeline fails
      at the conversion of the first statistic, which is no longer a column. */
  lemma CleanDataTwiceFails(df: Frame, toPm: seq<string>, dropCols: seq<string>, minSeasons: int)
    requires Valid(df) && CleanData(df, toPm, dropCols, minSeasons).Ok?
    requires |toPm| > 0 && "lasts" !in toPm
    ensures var out := CleanData(df, toPm, dropCols, minSeasons).value;
      CleanData(out, toPm, dropCols, minSeasons) == Err(KeyError(toPm[0]))
  {
    var out := CleanData(df, toPm, dropCols, minSeasons).value;
    CleanDataRemovesStats(df, toPm, dropCols, minSeasons);
    assert toPm[0] in toPm;
    ToPerMinuteMissingStat(out, toPm);
  }

  /** With the defaults, the second run fails on "fg". */
  lemma CleanDataTwiceFailsOnDefaults(df: Frame)
    requires Valid(df) && CleanData(df, ToPm, DropCols, MinSeasons).Ok?
    ensures var out := CleanData(df, ToPm, DropCols, MinSeasons).value;
      CleanData(out, ToPm, DropCols, MinSeasons) == Err(KeyError("fg"))
  {
    DefaultsCompatible();
    CleanDataTwiceFails(df, ToPm, DropCols, MinSeasons);
  }
}
