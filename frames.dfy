/** The data frames the cleaning stages work on: an ordered list of named
    columns of equal height. A cell is a number, a missing value (NaN), an
    infinity, a boolean or a text. Frames are values: every stage works on a
    copy of its input, so a stage's result never aliases the caller's frame. */
module Frames {
  import opened Results

  datatype Value =
    | Missing                // NaN
    | Num(x: real)           // a finite number
    | Inf(positive: bool)    // +inf or -inf
    | Flag(b: bool)          // a boolean
    | Text(s: string)        // a Python str

  datatype Column = Column(name: string, values: seq<Value>)

  datatype Frame = Frame(height: nat, columns: seq<Column>)

  function Names(f: Frame): seq<string>
  {
    seq(|f.columns|, i requires 0 <= i < |f.columns| => f.columns[i].name)
  }

  predicate Distinct(names: seq<string>)
  {
    forall i, j :: 0 <= i < j < |names| ==> names[i] != names[j]
  }

  /** Column labels are unique and every column has one cell per row. */
  predicate Valid(f: Frame)
  {
    && Distinct(Names(f))
    && forall i :: 0 <= i < |f.columns| ==> |f.columns[i].values| == f.height
  }

  /** The position of the first occurrence of `name`, or |names| when absent. */
  function Position(names: seq<string>, name: string): (p: nat)
    ensures p <= |names|
    ensures p < |names| ==> names[p] == name
    ensures forall i :: 0 <= i < p ==> names[i] != name
  {
    if names == [] then 0
    else if names[0] == name then 0
    else 1 + Position(names[1..], name)
  }

  /** `X[name]`: the column with that label; a missing label is a KeyError. */
  function Get(f: Frame, name: string): (r: Result<seq<Value>>)
    requires Valid(f)
    ensures r.Ok? <==> name in Names(f)
    ensures r.Ok? ==> |r.value| == f.height
    ensures forall i :: 0 <= i < |f.columns| && f.columns[i].name == name ==> r == Ok(f.columns[i].values)
    ensures r.Err? ==> r.error == KeyError(name)
  {
    var p := Position(Names(f), name);
    assert forall i :: 0 <= i < |f.columns| ==> Names(f)[i] == f.columns[i].name;
    if p < |f.columns| then Ok(f.columns[p].values) else Err(KeyError(name))
  }

  /** `X[name] = values`: replaces the column in place when the label exists,
      otherwise appends a new column at the right. */
  function Set(f: Frame, name: string, values: seq<Value>): (r: Frame)
    requires Valid(f) && |values| == f.height
    ensures Valid(r) && r.height == f.height
    ensures name in Names(f) ==> Names(r) == Names(f)
    ensures name !in Names(f) ==> Names(r) == Names(f) + [name]
    ensures Get(r, name) == Ok(values)
    ensures forall n :: n != name ==> Get(r, n) == Get(f, n)
  {
    var p := Position(Names(f), name);
    if p < |f.columns| then
      var r := Frame(f.height, f.columns[p := Column(name, values)]);
      assert Names(r) == Names(f);
      r
    else
      var r := Frame(f.height, f.columns + [Column(name, values)]);
      assert Names(r) == Names(f) + [name];
      r
  }

  /** The labels of `names` that are not in `drop`, in their order. */
  function Without(names: seq<string>, drop: seq<string>): seq<string>
  {
    if names == [] then []
    else Without(names[..|names| - 1], drop) + (if names[|names| - 1] in drop then [] else [names[|names| - 1]])
  }

  /** The columns whose label is not in `drop`, in their order. */
  function KeepColumns(columns: seq<Column>, drop: seq<string>): seq<Column>
  {
    if columns == [] then []
    else
      var last := columns[|columns| - 1];
      KeepColumns(columns[..|columns| - 1], drop) + (if last.name in drop then [] else [last])
  }

  /** The first label of `drop` that is not a column label, if any. */
  function FirstAbsent(names: seq<string>, drop: seq<string>): (r: Option<string>)
    ensures r.None? <==> forall d :: d in drop ==> d in names
    ensures r.Some? ==> r.value in drop && r.value !in names
  {
    if drop == [] then None
    else if drop[0] !in names then Some(drop[0])
    else FirstAbsent(names, drop[1..])
  }

  /** `X.drop(columns=drop)`: removes the listed columns, keeping the order of
      the others; a listed label that is not a column is a KeyError. */
  function Drop(f: Frame, drop: seq<string>): (r: Result<Frame>)
    requires Valid(f)
    ensures r.Ok? <==> forall d :: d in drop ==> d in Names(f)
    ensures r.Err? ==> r.error.KeyError? && r.error.key in drop && r.error.key !in Names(f)
    ensures r.Ok? ==> Valid(r.value) && r.value.height == f.height && Names(r.value) == Without(Names(f), drop)
    ensures r.Ok? ==> forall n :: n !in drop ==> Get(r.value, n) == Get(f, n)
    ensures r.Ok? ==> forall n :: n in drop ==> Get(r.value, n).Err?
  {
    match FirstAbsent(Names(f), drop)
    case Some(k) => Err(KeyError(k))
    case None =>
      var r := Frame(f.height, KeepColumns(f.columns, drop));
      KeepColumnsNames(f.height, f.columns, drop);
      WithoutMembers(Names(f), drop);
      WithoutDistinct(Names(f), drop);
      KeepColumnsGet(f, drop);
      Ok(r)
  }

  lemma {:induction false} KeepColumnsNames(h: nat, columns: seq<Column>, drop: seq<string>)
    ensures Names(Frame(h, KeepColumns(columns, drop))) == Without(Names(Frame(h, columns)), drop)
    ensures forall c :: c in KeepColumns(columns, drop) ==> c in columns
  {
    if columns != [] {
      var front := columns[..|columns| - 1];
      KeepColumnsNames(h, front, drop);
      assert Names(Frame(h, columns))[..|columns| - 1] == Names(Frame(h, front));
    }
  }

  /** A label survives `Without` exactly when it was there and is not dropped. */
  lemma {:induction false} WithoutMembers(names: seq<string>, drop: seq<string>)
    ensures forall n :: n in Without(names, drop) <==> n in names && n !in drop
  {
    if names != [] {
      var front := names[..|names| - 1];
      WithoutMembers(front, drop);
      assert names == front + [names[|names| - 1]];
    }
  }

  lemma {:induction false} WithoutDistinct(names: seq<string>, drop: seq<string>)
    requires Distinct(names)
    ensures Distinct(Without(names, drop))
  {
    if names != [] {
      var front := names[..|names| - 1];
      WithoutDistinct(front, drop);
      WithoutMembers(front, drop);
      assert names[|names| - 1] !in front;
    }
  }

  lemma KeepColumnsGet(f: Frame, drop: seq<string>)
    requires Valid(f)
    ensures var r := Frame(f.height, KeepColumns(f.columns, drop));
      && Valid(r)
      && (forall n :: n !in drop ==> Get(r, n) == Get(f, n))
      && (forall n :: n in drop ==> Get(r, n).Err?)
  {
    var r := Frame(f.height, KeepColumns(f.columns, drop));
    KeepColumnsNames(f.height, f.columns, drop);
    WithoutMembers(Names(f), drop);
    WithoutDistinct(Names(f), drop);
    assert forall c :: c in r.columns ==> |c.values| == f.height by {
      forall c | c in r.columns
        ensures |c.values| == f.height
      {
        assert c in f.columns;
        var i :| 0 <= i < |f.columns| && f.columns[i] == c;
      }
    }
    assert Valid(r);
    forall n | n !in drop
      ensures Get(r, n) == Get(f, n)
    {
      if n in Names(r) {
        var j := Position(Names(r), n);
        var c := r.columns[j];
        assert c in f.columns;
        var i :| 0 <= i < |f.columns| && f.columns[i] == c;
        assert f.columns[i].name == n;
      }
    }
  }

  /** Dropping in two steps drops both lists. */
  lemma {:induction false} WithoutTwice(names: seq<string>, d1: seq<string>, d2: seq<string>)
    ensures Without(Without(names, d1), d2) == Without(names, d1 + d2)
  {
    if names != [] {
      var front := names[..|names| - 1];
      var last := names[|names| - 1];
      WithoutTwice(front, d1, d2);
      var kept := if last in d1 then [] else [last];
      WithoutAppend(Without(front, d1), kept, d2);
      if kept != [] {
        assert kept[..0] == [];
      }
    }
  }

  /** Dropping distributes over concatenated label lists. */
  lemma {:induction false} WithoutAppend(a: seq<string>, b: seq<string>, drop: seq<string>)
    ensures Without(a + b, drop) == Without(a, drop) + Without(b, drop)
    decreases |b|
  {
    if b != [] {
      var front := b[..|b| - 1];
      assert (a + b)[..|a + b| - 1] == a + front;
      WithoutAppend(a, front, drop);
    } else {
      assert a + b == a;
    }
  }

  /** Dropping labels that are not there changes nothing. */
  lemma {:induction false} WithoutNone(names: seq<string>, drop: seq<string>)
    requires forall n :: n in names ==> n !in drop
    ensures Without(names, drop) == names
  {
    if names != [] {
      var front := names[..|names| - 1];
      WithoutNone(front, drop);
    }
  }

  /** Applies a cell function to every cell of every column. */
  function MapCells(f: Frame, g: Value -> Value): (r: Frame)
    requires Valid(f)
    ensures Valid(r) && r.height == f.height && Names(r) == Names(f)
    ensures forall i :: 0 <= i < |f.columns| ==>
      forall k :: 0 <= k < f.height ==> r.columns[i].values[k] == g(f.columns[i].values[k])
  {
    var r := Frame(f.height, seq(|f.columns|, i requires 0 <= i < |f.columns| =>
      Column(f.columns[i].name, seq(|f.columns[i].values|, k requires 0 <= k < |f.columns[i].values| => g(f.columns[i].values[k])))));
    assert Names(r) == Names(f);
    r
  }

  /** No cell of the frame is missing. */
  ghost predicate NoneMissing(f: Frame)
    requires Valid(f)
  {
    forall n :: n in Names(f) ==> Missing !in Get(f, n).value
  }
}
