/**
  The wide results table (make_results_table.py): the per-run records are
  grouped by process, and the groups are merged side by side, row i taking
  the shared physics fields from the i-th record of the first process and
  the i-th cross-section of every process. Reading the JSON files and
  writing the CSV file are left out; the records arrive in sorted file-name
  order, and the table is handed back as its header and rows.
 */
module ResultsTable {
  import opened Results
  import opened RealMath
  import opened Strings

  /** A JSON value of a record: a number, NaN (an unset width or ratio) or a string. */
  datatype Value = Num(x: real) | NaN | Text(s: string)

  /** One run's record: field name to value. */
  type Record = map<string, Value>

  /** The fields of one process, each with its values in record order. */
  type Group = map<string, seq<Value>>

  /** The groups, by process. */
  type Groups = map<Value, Group>

  /** How the script stops, named after the Python exception. */
  datatype TableError =
    | MissingProcess       // KeyError: a record has no "process"
    | ProcessNotText       // TypeError: "xsection_" + a process that is not a string
    | NoRecords            // StopIteration: there is no first process
    | MissingCrossSection  // KeyError: a group has no "xsection"
    | ShortColumn          // IndexError: a list is shorter than the row count
    | NotNumber            // TypeError: round() of a string

  const ProcessKey: string := "process"
  const TopMassKey: string := "m_top"
  const CrossSectionKey: string := "xsection"
  const CrossSectionPrefix: string := "xsection_"

  /** Fields stored in the groups: neither the process nor the top mass. */
  predicate Kept(key: string) {
    !Contains(key, ProcessKey) && !Contains(key, TopMassKey)
  }

  /** Fields of the first process that become columns of their own. */
  predicate Shared(key: string) {
    !Contains(key, CrossSectionKey) && !Contains(key, TopMassKey)
  }

  // ---------------------------------------------------------------------------
  // Grouping

  /** Record r belongs to process p and holds field k. */
  predicate Holds(r: Record, p: Value, k: string) {
    ProcessKey in r && r[ProcessKey] == p && k in r
  }

  /** The values of field k over the records of process p, in record order. */
  function Column(rs: seq<Record>, p: Value, k: string): seq<Value>
    decreases |rs|
  {
    if rs == [] then []
    else (if Holds(rs[0], p, k) then [rs[0][k]] else []) + Column(rs[1..], p, k)
  }

  lemma {:induction false} ColumnAppend(rs: seq<Record>, r: Record, p: Value, k: string)
    ensures Column(rs + [r], p, k) == Column(rs, p, k) + (if Holds(r, p, k) then [r[k]] else [])
    decreases |rs|
  {
    if rs == [] {
      assert [r][1..] == [];
    } else {
      var t := rs[1..];
      var head := if Holds(rs[0], p, k) then [rs[0][k]] else [];
      var tail := if Holds(r, p, k) then [r[k]] else [];
      assert (rs + [r])[0] == rs[0];
      assert (rs + [r])[1..] == t + [r];
      ColumnAppend(t, r, p, k);
      assert Column(rs + [r], p, k) == head + (Column(t, p, k) + tail);
      assert Column(rs, p, k) == head + Column(t, p, k);
    }
  }

  /** Some record names process p. */
  ghost predicate HasProcess(rs: seq<Record>, p: Value) {
    exists i :: 0 <= i < |rs| && ProcessKey in rs[i] && rs[i][ProcessKey] == p
  }

  /** Some record of process p holds field k. */
  ghost predicate HasField(rs: seq<Record>, p: Value, k: string) {
    exists i :: 0 <= i < |rs| && Holds(rs[i], p, k)
  }

  /**
    g is the grouping of rs: one group per process named, holding every kept
    field that a record of that process has, with that field's column.
   */
  ghost predicate GroupsOf(rs: seq<Record>, g: Groups) {
    && (forall p :: p in g <==> HasProcess(rs, p))
    && (forall p, k :: p in g ==> (k in g[p] <==> Kept(k) && HasField(rs, p, k)))
    && (forall p, k :: p in g && k in g[p] ==> g[p][k] == Column(rs, p, k))
  }

  /** One pass of the first loop: append the kept fields of r to its process's group. */
  function AddRecord(g: Groups, r: Record): (h: Groups)
    requires ProcessKey in r
    ensures h.Keys == g.Keys + {r[ProcessKey]}
    ensures forall p :: p in g && p != r[ProcessKey] ==> h[p] == g[p]
  {
    var p := r[ProcessKey];
    var grp := if p in g then g[p] else map[];
    g[p := map k | k in grp.Keys + r.Keys && (k in grp || Kept(k)) ::
             (if k in grp then grp[k] else []) + (if k in r && Kept(k) then [r[k]] else [])]
  }

  /** The group r's process gets: its old fields plus r's kept ones, r's values appended. */
  lemma AddRecordGroup(g: Groups, r: Record, k: string)
    requires ProcessKey in r
    ensures var q := r[ProcessKey];
      var before := if q in g then g[q] else map[];
      && (k in AddRecord(g, r)[q] <==> k in before || (k in r && Kept(k)))
      && (k in AddRecord(g, r)[q] ==>
            AddRecord(g, r)[q][k] == (if k in before then before[k] else []) + (if k in r && Kept(k) then [r[k]] else []))
  {
  }

  lemma HasProcessAppend(rs: seq<Record>, r: Record, p: Value)
    ensures HasProcess(rs + [r], p) <==> HasProcess(rs, p) || (ProcessKey in r && r[ProcessKey] == p)
  {
    var ts := rs + [r];
    if HasProcess(ts, p) {
      var i :| 0 <= i < |ts| && ProcessKey in ts[i] && ts[i][ProcessKey] == p;
      if i < |rs| {
        assert ts[i] == rs[i];
      }
    }
    if HasProcess(rs, p) {
      var i :| 0 <= i < |rs| && ProcessKey in rs[i] && rs[i][ProcessKey] == p;
      assert ts[i] == rs[i];
    }
    assert ts[|rs|] == r;
  }

  lemma HasFieldAppend(rs: seq<Record>, r: Record, p: Value, k: string)
    ensures HasField(rs + [r], p, k) <==> HasField(rs, p, k) || Holds(r, p, k)
  {
    var ts := rs + [r];
    if HasField(ts, p, k) {
      var i :| 0 <= i < |ts| && Holds(ts[i], p, k);
      if i < |rs| {
        assert ts[i] == rs[i];
      }
    }
    if HasField(rs, p, k) {
      var i :| 0 <= i < |rs| && Holds(rs[i], p, k);
      assert ts[i] == rs[i];
    }
    assert ts[|rs|] == r;
  }

  /** A field a process's records never hold is not in its group. */
  lemma FieldOfProcess(rs: seq<Record>, g: Groups, p: Value, k: string)
    requires GroupsOf(rs, g)
    requires HasField(rs, p, k)
    ensures p in g
  {
    var i :| 0 <= i < |rs| && Holds(rs[i], p, k);
    assert HasProcess(rs, p);
  }

  /** One field of one process after a pass of the loop. */
  lemma AddRecordField(rs: seq<Record>, r: Record, g: Groups, p: Value, k: string)
    requires ProcessKey in r
    requires GroupsOf(rs, g)
    requires p in AddRecord(g, r)
    ensures k in AddRecord(g, r)[p] <==> Kept(k) && HasField(rs + [r], p, k)
    ensures k in AddRecord(g, r)[p] ==> AddRecord(g, r)[p][k] == Column(rs + [r], p, k)
  {
    var h := AddRecord(g, r);
    HasFieldAppend(rs, r, p, k);
    ColumnAppend(rs, r, p, k);
    if p == r[ProcessKey] {
      AddRecordGroup(g, r, k);
      if p in g && k in g[p] {
        assert g[p][k] == Column(rs, p, k);
      } else if k in h[p] {
        assert Kept(k);
        if HasField(rs, p, k) {
          FieldOfProcess(rs, g, p, k);
        }
        ColumnEmpty(rs, p, k);
      }
    } else {
      assert !Holds(r, p, k);
      assert h[p] == g[p];
    }
  }

  /** Appending one record to the grouped list is one pass of the loop. */
  lemma AddRecordGroups(rs: seq<Record>, r: Record, g: Groups)
    requires ProcessKey in r
    requires GroupsOf(rs, g)
    ensures GroupsOf(rs + [r], AddRecord(g, r))
  {
    var h := AddRecord(g, r);
    forall p ensures p in h <==> HasProcess(rs + [r], p) {
      HasProcessAppend(rs, r, p);
    }
    forall p, k | p in h
      ensures k in h[p] <==> Kept(k) && HasField(rs + [r], p, k)
    {
      AddRecordField(rs, r, g, p, k);
    }
    forall p, k | p in h && k in h[p]
      ensures h[p][k] == Column(rs + [r], p, k)
    {
      AddRecordField(rs, r, g, p, k);
    }
  }

  /** A process with no record holding the field has an empty column. */
  lemma {:induction false} ColumnEmpty(rs: seq<Record>, p: Value, k: string)
    requires !HasField(rs, p, k)
    ensures Column(rs, p, k) == []
    decreases |rs|
  {
    if rs != [] {
      assert !Holds(rs[0], p, k);
      assert !HasField(rs[1..], p, k) by {
        forall i | 0 <= i < |rs[1..]| ensures !Holds(rs[1..][i], p, k) {
          assert rs[1..][i] == rs[i + 1];
        }
      }
      ColumnEmpty(rs[1..], p, k);
    }
  }

  /**
    The first loop over the records, in file order. It stops at the first
    record without a process; otherwise it builds the grouping.
   */
  function GroupRecords(rs: seq<Record>): (res: Result<Groups, TableError>)
    ensures res.Err? <==> exists i :: 0 <= i < |rs| && ProcessKey !in rs[i]
    ensures res.Err? ==> res.error == MissingProcess
    ensures res.Ok? ==> GroupsOf(rs, res.value)
    decreases |rs|
  {
    if rs == [] then Ok(map[])
    else
      var init := rs[..|rs| - 1];
      var r := rs[|rs| - 1];
      assert rs == init + [r];
      assert forall i :: 0 <= i < |init| ==> init[i] == rs[i];
      match GroupRecords(init)
      case Err(e) => Err(e)
      case Ok(g) =>
        if ProcessKey !in r then Err(MissingProcess)
        else
          AddRecordGroups(init, r, g);
          assert forall i :: 0 <= i < |rs| ==> i < |init| || rs[i] == r;
          Ok(AddRecord(g, r))
  }

  // ---------------------------------------------------------------------------
  // Merging

  /** `round(value, 6)`: numbers are rounded, NaN stays NaN. */
  function Round(v: Value): (r: Value)
    requires !v.Text?
    ensures v.Num? <==> r.Num?
    ensures v.NaN? ==> r.NaN?
    ensures v.Num? ==> r == Num(Round6(v.x)) && Abs(r.x - v.x) <= 0.0000005
  {
    match v
    case Num(x) => Num(Round6(x))
    case NaN => NaN
  }

  /** The cross-section column name of each process. */
  function CrossSectionNames(g: Groups): set<string> {
    set p | p in g && p.Text? :: CrossSectionPrefix + p.s
  }

  /** The shared columns of the first process. */
  function SharedNames(grp: Group): set<string> {
    set k | k in grp && Shared(k)
  }

  /** Every process is a string, so each has a cross-section column. */
  predicate Named(g: Groups) {
    forall p :: p in g ==> p.Text?
  }

  /**
    Row i of the second loop goes through: every field of the first process
    has an i-th value that round() accepts, and every process has an i-th
    cross-section.
   */
  predicate RowComplete(g: Groups, first: Value, i: nat)
    requires first in g
  {
    && (forall k :: k in g[first] ==> i < |g[first][k]| && !g[first][k][i].Text?)
    && (forall p :: p in g ==> CrossSectionKey in g[p] && i < |g[p][CrossSectionKey]|)
  }

  /**
    Why row i stops the script, if it does. A row reads the fields of the
    first process before the cross-sections; among the fields, a short list
    is reported before a string.
   */
  function RowError(g: Groups, first: Value, i: nat): (e: Option<TableError>)
    requires first in g
    ensures e.None? <==> RowComplete(g, first, i)
    ensures e != Some(MissingProcess)
  {
    var grp: Group := g[first];
    if exists k: string :: k in grp && i >= |grp[k]| then Some(ShortColumn)
    else if exists k: string :: k in grp && i < |grp[k]| && grp[k][i].Text? then Some(NotNumber)
    else if exists p :: p in g && CrossSectionKey !in g[p] then Some(MissingCrossSection)
    else if exists p :: p in g && CrossSectionKey in g[p] && i >= |g[p][CrossSectionKey]| then Some(ShortColumn)
    else None
  }

  /** The first failing row from i on, if any. */
  function RowsError(g: Groups, first: Value, i: nat, n: nat): (e: Option<TableError>)
    requires first in g
    ensures e.None? <==> forall j :: i <= j < n ==> RowComplete(g, first, j)
    ensures e.Some? ==> exists j :: i <= j < n && RowError(g, first, j) == e
    ensures e != Some(MissingProcess)
    decreases n - i
  {
    if i >= n then None
    else
      match RowError(g, first, i)
      case Some(e) => Some(e)
      case None =>
        var rest := RowsError(g, first, i + 1, n);
        rest
  }

  /**
    All n rows go through: each field of the first process has n values, none
    a string, and, when there is a row at all, each process has at least n
    cross-sections.
   */
  predicate Complete(g: Groups, first: Value, n: nat)
    requires first in g
  {
    && (forall k :: k in g[first] ==> n <= |g[first][k]| && forall i :: 0 <= i < n ==> !g[first][k][i].Text?)
    && (n > 0 ==> forall p :: p in g ==> CrossSectionKey in g[p] && n <= |g[p][CrossSectionKey]|)
  }

  /** The rows go through one by one exactly when they all do. */
  lemma CompleteRows(g: Groups, first: Value, n: nat)
    requires first in g
    ensures Complete(g, first, n) <==> forall i :: 0 <= i < n ==> RowComplete(g, first, i)
  {
    if Complete(g, first, n) {
      forall i | 0 <= i < n ensures RowComplete(g, first, i) {
      }
    }
    if forall i :: 0 <= i < n ==> RowComplete(g, first, i) {
      forall k | k in g[first]
        ensures n <= |g[first][k]| && forall i :: 0 <= i < n ==> !g[first][k][i].Text?
      {
        if n > 0 {
          assert RowComplete(g, first, n - 1);
        }
        forall i | 0 <= i < n ensures !g[first][k][i].Text? {
          assert RowComplete(g, first, i);
        }
      }
      if n > 0 {
        assert RowComplete(g, first, n - 1);
      }
    }
  }

  /** The process a cross-section column belongs to. */
  function ProcessOfName(c: string): Value
    requires |c| >= |CrossSectionPrefix|
  {
    Text(c[|CrossSectionPrefix|..])
  }

  /** Each cross-section column names its process, and is not a shared column. */
  lemma CrossSectionNamesOf(g: Groups)
    ensures forall c :: c in CrossSectionNames(g) ==>
      |c| >= |CrossSectionPrefix| && ProcessOfName(c) in g && c == CrossSectionPrefix + ProcessOfName(c).s
    ensures forall c :: c in CrossSectionNames(g) ==> !Shared(c)
  {
    forall c | c in CrossSectionNames(g)
      ensures |c| >= |CrossSectionPrefix| && ProcessOfName(c) in g && c == CrossSectionPrefix + ProcessOfName(c).s
      ensures !Shared(c)
    {
      var p :| p in g && p.Text? && c == CrossSectionPrefix + p.s;
      assert c[|CrossSectionPrefix|..] == p.s;
      assert CrossSectionPrefix == CrossSectionKey + "_";
      ContainsPrefix(CrossSectionKey, "_" + p.s);
      assert c == CrossSectionKey + ("_" + p.s);
    }
  }

  /** Every named process has its cross-section column. */
  lemma CrossSectionNameOf(g: Groups, p: Value)
    requires p in g && p.Text?
    ensures CrossSectionPrefix + p.s in CrossSectionNames(g)
    ensures ProcessOfName(CrossSectionPrefix + p.s) == p
  {
    assert (CrossSectionPrefix + p.s)[|CrossSectionPrefix|..] == p.s;
  }

  /**
    The columns of the table once every row has gone through: the first n
    cross-sections of each process, and the first n values, rounded, of each
    shared field of the first process.
   */
  function Columns(g: Groups, first: Value, n: nat): (cols: map<string, seq<Value>>)
    requires first in g && Named(g) && Complete(g, first, n)
    ensures cols.Keys == CrossSectionNames(g) + SharedNames(g[first])
    ensures forall c :: c in cols ==> |cols[c]| == n
    ensures forall c, i :: c in SharedNames(g[first]) && 0 <= i < n ==> cols[c][i] == Round(g[first][c][i])
    ensures forall c, i :: c in CrossSectionNames(g) && 0 <= i < n ==>
      cols[c][i] == g[ProcessOfName(c)][CrossSectionKey][i]
  {
    CrossSectionNamesOf(g);
    map c | c in CrossSectionNames(g) + SharedNames(g[first]) ::
      if c in SharedNames(g[first])
      then RoundedPrefix(g[first][c], n)
      else FirstCrossSections(g[ProcessOfName(c)], n)
  }

  /** The first n values of a column, rounded. */
  function RoundedPrefix(col: seq<Value>, n: nat): (r: seq<Value>)
    requires n <= |col| && forall i :: 0 <= i < n ==> !col[i].Text?
    ensures |r| == n
    ensures forall i :: 0 <= i < n ==> r[i] == Round(col[i])
  {
    seq(n, i requires 0 <= i < n => Round(col[i]))
  }

  /** The first n cross-sections of a process. */
  function FirstCrossSections(grp: Group, n: nat): (r: seq<Value>)
    requires n > 0 ==> CrossSectionKey in grp && n <= |grp[CrossSectionKey]|
    ensures |r| == n
    ensures forall i :: 0 <= i < n ==> r[i] == grp[CrossSectionKey][i]
  {
    if n == 0 then [] else grp[CrossSectionKey][..n]
  }

  /**
    The second and third loops: the cross-section column of every process,
    the shared columns of the first process, and the rows, n of them, n the
    number of cross-sections of the first process. `first` is the process
    Python's dictionary iteration happens to yield first.
   */
  function Merge(g: Groups, first: Value): (res: Result<map<string, seq<Value>>, TableError>)
    requires g == map[] || first in g
    ensures res.Ok? <==>
      && Named(g) && first in g && CrossSectionKey in g[first]
      && Complete(g, first, |g[first][CrossSectionKey]|)
    ensures !Named(g) ==> res == Err(ProcessNotText)
    ensures Named(g) && g == map[] ==> res == Err(NoRecords)
    ensures res != Err(MissingProcess)
    ensures res.Ok? ==> res == Ok(Columns(g, first, |g[first][CrossSectionKey]|))
  {
    if exists p :: p in g && !p.Text? then Err(ProcessNotText)
    else if g == map[] then Err(NoRecords)
    else if CrossSectionKey !in g[first] then Err(MissingCrossSection)
    else
      var n := |g[first][CrossSectionKey]|;
      CompleteRows(g, first, n);
      match RowsError(g, first, 0, n)
      case Some(e) => Err(e)
      case None => Ok(Columns(g, first, n))
  }

  /** The cross-section column of process p holds p's first n cross-sections, n the row count. */
  lemma MergedCrossSections(g: Groups, first: Value, p: Value)
    requires first in g && p in g
    requires Merge(g, first).Ok?
    ensures p.Text?
    ensures CrossSectionPrefix + p.s in Merge(g, first).value
    ensures |Merge(g, first).value[CrossSectionPrefix + p.s]| == |g[first][CrossSectionKey]|
    ensures forall i :: 0 <= i < |g[first][CrossSectionKey]| ==>
      CrossSectionKey in g[p] && i < |g[p][CrossSectionKey]| &&
      Merge(g, first).value[CrossSectionPrefix + p.s][i] == g[p][CrossSectionKey][i]
  {
    CrossSectionNameOf(g, p);
  }

  /** Each shared column holds the first process's values, rounded, one per row. */
  lemma MergedSharedField(g: Groups, first: Value, k: string)
    requires first in g
    requires Merge(g, first).Ok?
    requires k in g[first] && Shared(k)
    ensures k in Merge(g, first).value
    ensures |Merge(g, first).value[k]| == |g[first][CrossSectionKey]| <= |g[first][k]|
    ensures forall i :: 0 <= i < |g[first][CrossSectionKey]| ==>
      Merge(g, first).value[k][i] == Round(g[first][k][i])
  {
    assert k in SharedNames(g[first]);
  }

  /**
    g and h agree on the processes, on everything of the first process, and
    on every process's cross-sections; they may differ in any other field.
   */
  ghost predicate SameCrossSections(g: Groups, h: Groups, first: Value) {
    && first in g
    && g.Keys == h.Keys
    && g[first] == h[first]
    && (forall p :: p in g ==> (CrossSectionKey in g[p] <==> CrossSectionKey in h[p]))
    && (forall p :: p in g && CrossSectionKey in g[p] ==> g[p][CrossSectionKey] == h[p][CrossSectionKey])
  }

  lemma RowErrorAgrees(g: Groups, h: Groups, first: Value, i: nat)
    requires SameCrossSections(g, h, first)
    ensures RowError(g, first, i) == RowError(h, first, i)
  {
  }

  lemma {:induction false} RowsErrorAgrees(g: Groups, h: Groups, first: Value, i: nat, n: nat)
    requires SameCrossSections(g, h, first)
    ensures RowsError(g, first, i, n) == RowsError(h, first, i, n)
    decreases n - i
  {
    if i < n {
      RowErrorAgrees(g, h, first, i);
      RowsErrorAgrees(g, h, first, i + 1, n);
    }
  }

  lemma ColumnsAgree(g: Groups, h: Groups, first: Value, n: nat)
    requires SameCrossSections(g, h, first)
    requires Named(g) && Complete(g, first, n)
    ensures Named(h) && Complete(h, first, n)
    ensures Columns(g, first, n) == Columns(h, first, n)
  {
    CompleteAgrees(g, h, first, n);
    var a := Columns(g, first, n);
    var b := Columns(h, first, n);
    assert CrossSectionNames(g) == CrossSectionNames(h);
    assert a.Keys == b.Keys;
    forall c | c in a ensures a[c] == b[c] {
      ColumnAgrees(g, h, first, n, c);
    }
  }

  lemma CompleteAgrees(g: Groups, h: Groups, first: Value, n: nat)
    requires SameCrossSections(g, h, first)
    requires Named(g) && Complete(g, first, n)
    ensures Named(h) && Complete(h, first, n)
  {
  }

  lemma ColumnAgrees(g: Groups, h: Groups, first: Value, n: nat, c: string)
    requires SameCrossSections(g, h, first)
    requires Named(g) && Complete(g, first, n) && Named(h) && Complete(h, first, n)
    requires c in CrossSectionNames(g) + SharedNames(g[first])
    ensures c in Columns(h, first, n) && Columns(g, first, n)[c] == Columns(h, first, n)[c]
  {
    assert CrossSectionNames(g) == CrossSectionNames(h);
    if c !in SharedNames(g[first]) {
      CrossSectionNamesOf(g);
      var p := ProcessOfName(c);
      assert n > 0 ==> g[p][CrossSectionKey] == h[p][CrossSectionKey];
    }
  }

  /**
    Only the first process's records are read for the physics fields: the
    other processes contribute their cross-section lists and nothing else,
    matched to the first process's records by position alone.
   */
  lemma MergeReadsOnlyCrossSections(g: Groups, h: Groups, first: Value)
    requires SameCrossSections(g, h, first)
    ensures Merge(g, first) == Merge(h, first)
  {
    assert Named(g) == Named(h);
    if Named(g) && CrossSectionKey in g[first] {
      var n := |g[first][CrossSectionKey]|;
      RowsErrorAgrees(g, h, first, 0, n);
      CompleteRows(g, first, n);
      CompleteRows(h, first, n);
      if Complete(g, first, n) {
        ColumnsAgree(g, h, first, n);
      }
    }
  }

  // ---------------------------------------------------------------------------
  // Writing

  /** The length of the shortest column, 0 when there is none. */
  function Shortest(columns: seq<seq<Value>>): (n: nat)
    ensures forall j :: 0 <= j < |columns| ==> n <= |columns[j]|
    ensures columns != [] ==> exists j :: 0 <= j < |columns| && n == |columns[j]|
    ensures columns == [] ==> n == 0
  {
    if columns == [] then 0
    else if |columns| == 1 then |columns[0]|
    else
      var m := Shortest(columns[1..]);
      assert forall j :: 1 <= j < |columns| ==> columns[j] == columns[1..][j - 1];
      if |columns[0]| <= m then |columns[0]| else m
  }

  /** zip(*columns): as many rows as the shortest column, row i holding each column's i-th value. */
  function Transpose(columns: seq<seq<Value>>): (rows: seq<seq<Value>>)
    ensures |rows| == Shortest(columns)
    ensures forall i :: 0 <= i < |rows| ==> |rows[i]| == |columns|
    ensures forall i, j :: 0 <= i < |rows| && 0 <= j < |columns| ==> rows[i][j] == columns[j][i]
  {
    var n := Shortest(columns);
    seq(n, i requires 0 <= i < n => seq(|columns|, j requires 0 <= j < |columns| => columns[j][i]))
  }

  /** The written file: a header row, then the data rows. */
  datatype Csv = Csv(header: seq<string>, rows: seq<seq<Value>>)

  /** The columns in header order. */
  function InOrder(cols: map<string, seq<Value>>, header: seq<string>): (columns: seq<seq<Value>>)
    requires forall c :: c in header ==> c in cols
    ensures |columns| == |header|
    ensures forall j :: 0 <= j < |header| ==> columns[j] == cols[header[j]]
  {
    seq(|header|, j requires 0 <= j < |header| => cols[header[j]])
  }

  /** The header is the column names sorted; each row lists its values in header order. */
  function Write(cols: map<string, seq<Value>>): (csv: Csv)
    ensures forall c :: c in csv.header <==> c in cols
    ensures forall i, j :: 0 <= i < j < |csv.header| ==> Below(csv.header[i], csv.header[j])
    ensures forall j :: 0 <= j < |csv.header| ==> |csv.rows| <= |cols[csv.header[j]]|
    ensures forall i :: 0 <= i < |csv.rows| ==> |csv.rows[i]| == |csv.header|
    ensures forall i, j :: 0 <= i < |csv.rows| && 0 <= j < |csv.header| ==> csv.rows[i][j] == cols[csv.header[j]][i]
  {
    var header := Sorted(cols.Keys);
    var columns := InOrder(cols, header);
    var rows := Transpose(columns);
    assert forall j :: 0 <= j < |header| ==> |rows| <= |columns[j]|;
    Csv(header, rows)
  }

  /** When every column has the same length n and there is a column, the file has n rows. */
  lemma WriteRowCount(cols: map<string, seq<Value>>, n: nat)
    requires cols != map[]
    requires forall c :: c in cols ==> |cols[c]| == n
    ensures |Write(cols).rows| == n
  {
    var header := Sorted(cols.Keys);
    assert cols.Keys != {} by {
      assert !(forall c :: c in cols.Keys <==> c in {});
    }
    assert |header| > 0;
    var columns := InOrder(cols, header);
    var j :| 0 <= j < |columns| && Shortest(columns) == |columns[j]|;
    assert header[j] in cols;
  }

  // ---------------------------------------------------------------------------
  // The whole script

  /**
    Group the records, merge with `first` as the first process, and write.
    `first` is one of the processes named by the records, when there are any.
   */
  function Tabulate(rs: seq<Record>, first: Value): (res: Result<Csv, TableError>)
    requires rs == [] || HasProcess(rs, first) || exists i :: 0 <= i < |rs| && ProcessKey !in rs[i]
    ensures (exists i :: 0 <= i < |rs| && ProcessKey !in rs[i]) <==> res == Err(MissingProcess)
    ensures rs == [] ==> res == Err(NoRecords)
  {
    match GroupRecords(rs)
    case Err(e) => Err(e)
    case Ok(g) =>
      assert rs == [] ==> g == map[];
      assert HasProcess(rs, first) ==> first in g;
      match Merge(g, first)
      case Err(e) => Err(e)
      case Ok(cols) => Ok(Write(cols))
  }

  /** A table that was written went through grouping and merging. */
  lemma TabulateSteps(rs: seq<Record>, first: Value, csv: Csv)
    requires rs == [] || HasProcess(rs, first) || exists i :: 0 <= i < |rs| && ProcessKey !in rs[i]
    requires Tabulate(rs, first) == Ok(csv)
    ensures GroupRecords(rs).Ok?
    ensures first in GroupRecords(rs).value
    ensures Merge(GroupRecords(rs).value, first).Ok?
    ensures csv == Write(Merge(GroupRecords(rs).value, first).value)
  {
  }

  /** The header of the merged and written table: every column once, sorted. */
  lemma WrittenHeader(g: Groups, first: Value, cols: map<string, seq<Value>>)
    requires first in g && Merge(g, first) == Ok(cols)
    ensures forall c :: c in Write(cols).header <==> c in CrossSectionNames(g) || c in SharedNames(g[first])
  {
  }

  /** The merged and written table has a row per cross-section of the first process. */
  lemma WrittenRowCount(g: Groups, first: Value, cols: map<string, seq<Value>>)
    requires first in g && Merge(g, first) == Ok(cols)
    ensures |Write(cols).rows| == |g[first][CrossSectionKey]|
  {
    var n := |g[first][CrossSectionKey]|;
    MergedCrossSections(g, first, first);
    assert forall c :: c in cols ==> |cols[c]| == n;
    WriteRowCount(cols, n);
  }

  /** Under process p's column, row i of the merged and written table holds p's i-th cross-section. */
  lemma WrittenCrossSection(g: Groups, first: Value, cols: map<string, seq<Value>>, p: Value, i: nat, j: nat)
    requires first in g && Merge(g, first) == Ok(cols)
    requires p in g
    requires i < |Write(cols).rows| && j < |Write(cols).header|
    requires Write(cols).header[j] == CrossSectionPrefix + p.s
    ensures CrossSectionKey in g[p] && i < |g[p][CrossSectionKey]|
    ensures Write(cols).rows[i][j] == g[p][CrossSectionKey][i]
  {
    MergedCrossSections(g, first, p);
    WrittenRowCount(g, first, cols);
  }

  /** Under a shared field's column, row i of the merged and written table holds the first process's i-th value, rounded. */
  lemma WrittenSharedField(g: Groups, first: Value, cols: map<string, seq<Value>>, i: nat, j: nat)
    requires first in g && Merge(g, first) == Ok(cols)
    requires i < |Write(cols).rows| && j < |Write(cols).header|
    requires Shared(Write(cols).header[j])
    ensures Write(cols).header[j] in g[first]
    ensures i < |g[first][Write(cols).header[j]]| && !g[first][Write(cols).header[j]][i].Text?
    ensures Write(cols).rows[i][j] == Round(g[first][Write(cols).header[j]][i])
  {
    var k := Write(cols).header[j];
    CrossSectionNamesOf(g);
    assert k in cols && k !in CrossSectionNames(g);
    MergedSharedField(g, first, k);
    WrittenRowCount(g, first, cols);
  }

  /**
    The header of a written table names the cross-section column of every
    process and the shared fields of the first process, and nothing else.
   */
  lemma TabulateHeader(rs: seq<Record>, first: Value, csv: Csv, c: string)
    requires rs == [] || HasProcess(rs, first) || exists i :: 0 <= i < |rs| && ProcessKey !in rs[i]
    requires Tabulate(rs, first) == Ok(csv)
    ensures c in csv.header <==>
      (exists p :: HasProcess(rs, p) && p.Text? && c == CrossSectionPrefix + p.s) ||
      (Shared(c) && Kept(c) && HasField(rs, first, c))
  {
    TabulateSteps(rs, first, csv);
    var g := GroupRecords(rs).value;
    WrittenHeader(g, first, Merge(g, first).value);
    ColumnNames(rs, g, first, c);
  }

  /** The column names of the merged groups, in terms of the records. */
  lemma ColumnNames(rs: seq<Record>, g: Groups, first: Value, c: string)
    requires GroupsOf(rs, g) && first in g
    ensures c in CrossSectionNames(g) || c in SharedNames(g[first]) <==>
      (exists p :: HasProcess(rs, p) && p.Text? && c == CrossSectionPrefix + p.s) ||
      (Shared(c) && Kept(c) && HasField(rs, first, c))
  {
    CrossSectionNamesOf(g);
    if c in CrossSectionNames(g) {
      assert HasProcess(rs, ProcessOfName(c));
    }
    if exists p :: HasProcess(rs, p) && p.Text? && c == CrossSectionPrefix + p.s {
      var p :| HasProcess(rs, p) && p.Text? && c == CrossSectionPrefix + p.s;
      CrossSectionNameOf(g, p);
    }
  }

  /**
    A written table has one row per cross-section of the first process, and
    row i holds, under process p's column, the i-th cross-section of p: the
    processes are matched by position alone.
   */
  lemma TabulateCrossSection(rs: seq<Record>, first: Value, csv: Csv, p: Value, i: nat, j: nat)
    requires rs == [] || HasProcess(rs, first) || exists i :: 0 <= i < |rs| && ProcessKey !in rs[i]
    requires Tabulate(rs, first) == Ok(csv)
    requires HasProcess(rs, p)
    requires i < |csv.rows| && j < |csv.header| && csv.header[j] == CrossSectionPrefix + p.s
    ensures |csv.rows| == |Column(rs, first, CrossSectionKey)|
    ensures i < |Column(rs, p, CrossSectionKey)| && csv.rows[i][j] == Column(rs, p, CrossSectionKey)[i]
  {
    TabulateSteps(rs, first, csv);
    var g := GroupRecords(rs).value;
    var cols := Merge(g, first).value;
    WrittenRowCount(g, first, cols);
    assert g[first][CrossSectionKey] == Column(rs, first, CrossSectionKey);
    WrittenCrossSection(g, first, cols, p, i, j);
    assert g[p][CrossSectionKey] == Column(rs, p, CrossSectionKey);
  }

  /** Row i of a written table holds, under a shared field, the first process's i-th value of it, rounded. */
  lemma TabulateSharedField(rs: seq<Record>, first: Value, csv: Csv, i: nat, j: nat)
    requires rs == [] || HasProcess(rs, first) || exists i :: 0 <= i < |rs| && ProcessKey !in rs[i]
    requires Tabulate(rs, first) == Ok(csv)
    requires i < |csv.rows| && j < |csv.header| && Shared(csv.header[j])
    ensures i < |Column(rs, first, csv.header[j])| && !Column(rs, first, csv.header[j])[i].Text?
    ensures csv.rows[i][j] == Round(Column(rs, first, csv.header[j])[i])
  {
    TabulateSteps(rs, first, csv);
    var g := GroupRecords(rs).value;
    var cols := Merge(g, first).value;
    WrittenSharedField(g, first, cols, i, j);
    assert g[first][csv.header[j]] == Column(rs, first, csv.header[j]);
  }
}
