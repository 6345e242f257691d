/** The second set of pipeline stages. Its column drop and its label stage
    are the same transforms as the cleaning stages' (Frames.Drop and
    CleaningPipe.CreateLabels); what differs is the month table, which has
    no NaN entry, and the debut stage, which overwrites "debut" with its
    month index instead of adding a column. */
module RookiePipes {
  import opened Results
  import opened Text
  import opened Frames
  import CleaningPipe

  /** `DropColumns(drop_cols).transform`: exactly the listed columns go, the
      others keep their labels and contents, and a listed label that is not
      a column makes the stage fail. */
  lemma DropColumnsExactly(f: Frame, dropCols: seq<string>)
    requires Valid(f)
    ensures Drop(f, dropCols).Ok? <==> forall d :: d in dropCols ==> d in Names(f)
    ensures Drop(f, dropCols).Err? ==> exists d :: d in dropCols && Drop(f, dropCols).error == KeyError(d)
    ensures Drop(f, dropCols).Ok? ==> var r := Drop(f, dropCols).value;
      && r.height == f.height
      && (forall n :: n in Names(r) <==> n in Names(f) && n !in dropCols)
      && (forall n :: n in Names(r) ==> Get(r, n) == Get(f, n))
  {
    if Drop(f, dropCols).Ok? {
      WithoutMembers(Names(f), dropCols);
    } else {
      var d := Drop(f, dropCols).error.key;
      assert d in dropCols;
    }
  }

  /** `CreateLabels().transform` with its default of five seasons: a player
      with five recorded seasons lasts, one with four does not. */
  lemma DefaultLabels(f: Frame, k: nat)
    requires Valid(f) && "yrs" in Names(f) && CleaningPipe.Numeric(Get(f, "yrs").value) && k < f.height
    ensures CleaningPipe.CreateLabels(f, 5).Ok?
    ensures var lasts := Get(CleaningPipe.CreateLabels(f, 5).value, "lasts");
      && lasts.Ok? && |lasts.value| == f.height
      && (Get(f, "yrs").value[k] == Num(5.0) ==> lasts.value[k] == Flag(true))
      && (Get(f, "yrs").value[k] == Num(4.0) ==> lasts.value[k] == Flag(false))
  {
    CleaningPipe.CreateLabelsCells(f, 5, k);
  }

  /** The twelve month keys of a season, October first. */
  const MonthMap: map<Value, int> := map[
    Text("oct") := 0, Text("nov") := 1, Text("dec") := 2, Text("jan") := 3,
    Text("feb") := 4, Text("mar") := 5, Text("apr") := 6, Text("may") := 7,
    Text("jun") := 8, Text("jul") := 9, Text("aug") := 10, Text("sep") := 11]

  /** The table is a bijection between the twelve month keys and 0..11 in
      season order; it has no other key, NaN included, and it is the other
      table without its NaN entry. */
  lemma MonthMapBijection()
    ensures forall i :: 0 <= i < 12 ==> Text(CleaningPipe.SeasonMonths[i]) in MonthMap && MonthMap[Text(CleaningPipe.SeasonMonths[i])] == i
    ensures forall k :: k in MonthMap ==> k.Text? && k.s in CleaningPipe.SeasonMonths
    ensures Missing !in MonthMap
    ensures CleaningPipe.MonthMap == MonthMap[Missing := 11]
  {
  }

  /** On every text key the two tables give the same index (or both none). */
  lemma TablesAgreeOnText(key: Value)
    requires key.Text?
    ensures CleaningPipe.Lookup(MonthMap, key) == CleaningPipe.Lookup(CleaningPipe.MonthMap, key)
  {
    MonthMapBijection();
  }

  /** `GetDebutMonth().transform`: "debut" is replaced by the month index of
      each debut; no column is added and the others keep their contents. */
  function GetDebutMonth(f: Frame): (r: Result<Frame>)
    requires Valid(f)
    ensures r.Ok? <==> "debut" in Names(f) && forall k :: 0 <= k < f.height ==> Get(f, "debut").value[k].Text?
    ensures r.Err? ==> r.error == KeyError("debut") || r.error == TypeError
    ensures r.Ok? ==> Valid(r.value) && r.value.height == f.height && Names(r.value) == Names(f)
    ensures r.Ok? ==> forall n :: n != "debut" ==> Get(r.value, n) == Get(f, n)
    ensures r.Ok? ==> Get(r.value, "debut") == CleaningPipe.DebutMonths(Get(f, "debut").value, MonthMap)
  {
    match Get(f, "debut")
    case Err(e) => Err(e)
    case Ok(debut) =>
      match CleaningPipe.DebutMonths(debut, MonthMap)
      case Err(e) => Err(e)
      case Ok(months) => Ok(Set(f, "debut", months))
  }

  /** The two debut stages agree: where one succeeds so does the other, and
      the overwritten "debut" column here holds what the other stage puts in
      "debut_month"; the NaN entry of the other table makes no difference,
      since no key reaches it. */
  lemma DebutStagesAgree(f: Frame)
    requires Valid(f)
    ensures GetDebutMonth(f).Ok? <==> CleaningPipe.GetDebutMonth(f).Ok?
    ensures GetDebutMonth(f).Ok? ==>
      Get(GetDebutMonth(f).value, "debut") == Get(CleaningPipe.GetDebutMonth(f).value, "debut_month")
  {
    if "debut" in Names(f) {
      var debut := Get(f, "debut").value;
      var mine := CleaningPipe.DebutMonths(debut, MonthMap);
      var theirs := CleaningPipe.DebutMonths(debut, CleaningPipe.MonthMap);
      assert mine.Ok? <==> theirs.Ok?;
      if mine.Ok? {
        forall k | 0 <= k < |debut|
          ensures mine.value[k] == theirs.value[k]
        {
          TablesAgreeOnText(CleaningPipe.MonthKey(debut[k]).value);
        }
        assert |mine.value| == |debut| == |theirs.value|;
        assert mine.value == theirs.value;
      }
    }
  }
}
