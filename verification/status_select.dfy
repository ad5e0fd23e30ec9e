/**
 * Building the SQL expression that reads an appointment's status, for
 * whichever status representation the schema has: a lookup table joined
 * by id or by code, text columns on the appointment itself, or a numeric
 * status id. The column sets of the two tables are inputs.
 */
module StatusSelect {
  import opened Text
  import opened Collections

  /** Columns of the status lookup table that may hold a status name, in order of preference. */
  const StatusTableNameColumns: seq<string> := ["display_name", "name", "title", "label", "code"]

  /** Appointment columns that may hold a status, with the expression reading each. */
  const AppointmentStatusColumns: seq<(string, string)> :=
    [("status", "a.status"), ("status_text", "a.status_text"), ("status_code", "a.status_code")]

  const StatusIdText := "CAST(a.status_id AS TEXT)"
  const UnknownStatusLiteral := "'неизвестно'"
  const JoinById := " LEFT JOIN appointment_statuses st ON st.id = a.status_id "
  const JoinByCode := " LEFT JOIN appointment_statuses st ON st.code = a.status_code "

  /** The join with the status lookup table, or "" when there is none to make. */
  function JoinClause(appointmentColumns: set<string>, statusTableColumns: set<string>): (j: string)
    ensures j != "" <==> statusTableColumns != {} &&
                         (("status_id" in appointmentColumns && "id" in statusTableColumns) ||
                          ("status_code" in appointmentColumns && "code" in statusTableColumns))
    ensures j == JoinById || j == JoinByCode || j == ""
    ensures j == JoinById <==> statusTableColumns != {} && "status_id" in appointmentColumns && "id" in statusTableColumns
    ensures j == JoinByCode <==> statusTableColumns != {} && !("status_id" in appointmentColumns && "id" in statusTableColumns)
                                 && "status_code" in appointmentColumns && "code" in statusTableColumns
  {
    if statusTableColumns == {} then ""
    else if "status_id" in appointmentColumns && "id" in statusTableColumns then JoinById
    else if "status_code" in appointmentColumns && "code" in statusTableColumns then JoinByCode
    else ""
  }

  /** `st.<column>` for each listed lookup-table column that exists, in list order. */
  function LookupParts(columns: seq<string>, statusTableColumns: set<string>): seq<string> {
    if columns == [] then []
    else
      var last := columns[|columns| - 1];
      LookupParts(columns[..|columns| - 1], statusTableColumns)
        + (if last in statusTableColumns then ["st." + last] else [])
  }

  /** The reading expression of each listed appointment column that exists, in list order. */
  function AppointmentParts(columns: seq<(string, string)>, appointmentColumns: set<string>): seq<string> {
    if columns == [] then []
    else
      var last := columns[|columns| - 1];
      AppointmentParts(columns[..|columns| - 1], appointmentColumns)
        + (if last.0 in appointmentColumns then [last.1] else [])
  }

  /** The candidate expressions found in the schema, most preferred first. */
  function StatusParts(appointmentColumns: set<string>, statusTableColumns: set<string>): seq<string> {
    (if JoinClause(appointmentColumns, statusTableColumns) != ""
     then LookupParts(StatusTableNameColumns, statusTableColumns) else [])
    + AppointmentParts(AppointmentStatusColumns, appointmentColumns)
    + (if "status_id" in appointmentColumns then [StatusIdText] else [])
  }

  /** The candidates, with the literal 'неизвестно' when the schema offers none. */
  function StatusCandidates(appointmentColumns: set<string>, statusTableColumns: set<string>): (c: seq<string>)
    ensures |c| > 0
  {
    var parts := StatusParts(appointmentColumns, statusTableColumns);
    if parts == [] then [UnknownStatusLiteral] else parts
  }

  /** Drops every repeated element, keeping first occurrences in their order. */
  function Dedup(s: seq<string>): seq<string> {
    if s == [] then []
    else
      var d := Dedup(s[..|s| - 1]);
      if s[|s| - 1] in d then d else d + [s[|s| - 1]]
  }

  /** `expr AS alias` for one candidate, `COALESCE(e1, ..., en) AS alias` for several. */
  function SelectExpression(unique: seq<string>, alias: string): string {
    if |unique| == 1 then unique[0] + " AS " + alias
    else "COALESCE(" + Join(unique, ", ") + ") AS " + alias
  }

  /**
   * De-duplication keeps exactly the elements of the input, each once,
   * in the order of their first occurrences.
   */
  lemma DedupSpec(s: seq<string>)
    ensures Distinct(Dedup(s))
    ensures forall x :: x in Dedup(s) <==> x in s
    ensures forall i, j :: 0 <= i < j < |Dedup(s)| ==> FirstIndex(s, Dedup(s)[i]) < FirstIndex(s, Dedup(s)[j])
  {
    DedupDistinct(s);
    DedupElements(s);
    DedupOrder(s);
    assert InFirstOccurrenceOrder(s, Dedup(s));
  }

  lemma {:induction false} DedupDistinct(s: seq<string>)
    ensures Distinct(Dedup(s))
  {
    if s != [] {
      DedupDistinct(s[..|s| - 1]);
    }
  }

  lemma {:induction false} DedupElements(s: seq<string>)
    ensures forall x :: x in Dedup(s) <==> x in s
  {
    if s != [] {
      var init, last := s[..|s| - 1], s[|s| - 1];
      DedupElements(init);
      assert s == init + [last];
    }
  }

  /** The elements of `d`, all taken from `s`, appear in the order of their first occurrences in `s`. */
  predicate InFirstOccurrenceOrder(s: seq<string>, d: seq<string>)
    requires forall x :: x in d ==> x in s
  {
    forall i, j :: 0 <= i < j < |d| ==> FirstIndex(s, d[i]) < FirstIndex(s, d[j])
  }

  lemma {:induction false} DedupOrder(s: seq<string>)
    ensures forall x :: x in Dedup(s) ==> x in s
    ensures InFirstOccurrenceOrder(s, Dedup(s))
  {
    DedupElements(s);
    if s != [] {
      var init, last := s[..|s| - 1], s[|s| - 1];
      var d := Dedup(init);
      DedupOrder(init);
      DedupElements(init);
      assert s == init + [last];
      if last in d {
        assert Dedup(s) == d;
        OrderKept(init, last, d);
      } else {
        assert Dedup(s) == d + [last];
        OrderExtended(init, last, d);
      }
    }
  }

  /** Appending an element does not move the first occurrences of earlier ones. */
  lemma OrderKept(init: seq<string>, last: string, d: seq<string>)
    requires forall x :: x in d ==> x in init
    requires InFirstOccurrenceOrder(init, d)
    ensures InFirstOccurrenceOrder(init + [last], d)
  {
    forall i, j | 0 <= i < j < |d|
      ensures FirstIndex(init + [last], d[i]) < FirstIndex(init + [last], d[j])
    {
      FirstIndexPrefix(init, last, d[i]);
      FirstIndexPrefix(init, last, d[j]);
    }
  }

  /** A new element first occurs after all the earlier ones. */
  lemma OrderExtended(init: seq<string>, last: string, d: seq<string>)
    requires forall x :: x in d <==> x in init
    requires last !in init
    requires InFirstOccurrenceOrder(init, d)
    ensures InFirstOccurrenceOrder(init + [last], d + [last])
  {
    var s := init + [last];
    OrderKept(init, last, d);
    assert FirstIndex(s, last) == |init| by {
      assert s[|init|] == last;
    }
    forall i, j | 0 <= i < j < |d + [last]|
      ensures FirstIndex(s, (d + [last])[i]) < FirstIndex(s, (d + [last])[j])
    {
      if j == |d| {
        assert (d + [last])[i] == d[i] && d[i] in init;
        FirstIndexPrefix(init, last, d[i]);
      } else {
        assert (d + [last])[i] == d[i] && (d + [last])[j] == d[j];
      }
    }
  }

  lemma {:induction false} FirstIndexPrefix(init: seq<string>, last: string, x: string)
    requires x in init
    ensures FirstIndex(init + [last], x) == FirstIndex(init, x)
  {
    if init[0] != x {
      assert (init + [last])[1..] == init[1..] + [last];
      FirstIndexPrefix(init[1..], last, x);
    }
  }

  /** A sequence without repetitions is left as it is. */
  lemma {:induction false} DedupOfDistinct(s: seq<string>)
    requires Distinct(s)
    ensures Dedup(s) == s
  {
    if s != [] {
      DedupOfDistinct(s[..|s| - 1]);
      assert s == s[..|s| - 1] + [s[|s| - 1]];
    }
  }

  /**
   * The three shapes of the select expression: the fallback literal when
   * the schema offers no candidate, the single candidate itself, or a
   * COALESCE over the candidates in order.
   */
  lemma SelectExpressionShapes(appointmentColumns: set<string>, statusTableColumns: set<string>, alias: string)
    ensures var parts := StatusParts(appointmentColumns, statusTableColumns);
            var e := SelectExpression(Dedup(StatusCandidates(appointmentColumns, statusTableColumns)), alias);
            && (parts == [] ==> e == UnknownStatusLiteral + " AS " + alias)
            && (|Dedup(parts)| == 1 ==> e == Dedup(parts)[0] + " AS " + alias)
            && (|Dedup(parts)| > 1 ==> e == "COALESCE(" + Join(Dedup(parts), ", ") + ") AS " + alias)
  {
    var parts := StatusParts(appointmentColumns, statusTableColumns);
    if parts == [] {
      assert Dedup([UnknownStatusLiteral]) == [UnknownStatusLiteral];
    }
  }

  /**
   * The lookup parts are exactly `st.<column>` for the listed columns the
   * status table has, each once, in the order of the list.
   */
  lemma LookupPartsSpec(columns: seq<string>, statusTableColumns: set<string>)
    requires Distinct(columns)
    ensures Distinct(LookupParts(columns, statusTableColumns))
    ensures forall x :: x in LookupParts(columns, statusTableColumns) ==>
              exists c :: c in columns && c in statusTableColumns && x == "st." + c
    ensures forall c :: c in columns && c in statusTableColumns ==> "st." + c in LookupParts(columns, statusTableColumns)
    ensures forall i, j :: 0 <= i < j < |columns| && columns[i] in statusTableColumns && columns[j] in statusTableColumns ==>
              FirstIndex(LookupParts(columns, statusTableColumns), "st." + columns[i])
              < FirstIndex(LookupParts(columns, statusTableColumns), "st." + columns[j])
  {
    LookupPartsSound(columns, statusTableColumns);
    LookupPartsComplete(columns, statusTableColumns);
    LookupPartsInOrder(columns, statusTableColumns);
  }

  /** Each lookup part names one of the listed columns, and no two are equal. */
  lemma {:induction false} LookupPartsSound(columns: seq<string>, statusTableColumns: set<string>)
    requires Distinct(columns)
    ensures Distinct(LookupParts(columns, statusTableColumns))
    ensures forall x :: x in LookupParts(columns, statusTableColumns) ==>
              exists c :: c in columns && c in statusTableColumns && x == "st." + c
  {
    if columns != [] {
      var init, last := columns[..|columns| - 1], columns[|columns| - 1];
      LookupPartsSound(init, statusTableColumns);
      var p := LookupParts(init, statusTableColumns);
      forall x | x in p ensures x != "st." + last {
        var c :| c in init && c in statusTableColumns && x == "st." + c;
        assert ("st." + c)[3..] == c && ("st." + last)[3..] == last;
      }
      DistinctConcat(p, if last in statusTableColumns then ["st." + last] else []);
    }
  }

  /** The part of the last column does not occur among the parts of the earlier ones. */
  lemma LookupLastIsNew(columns: seq<string>, statusTableColumns: set<string>)
    requires Distinct(columns) && columns != []
    ensures "st." + columns[|columns| - 1] !in LookupParts(columns[..|columns| - 1], statusTableColumns)
  {
    var init, last := columns[..|columns| - 1], columns[|columns| - 1];
    LookupPartsSound(init, statusTableColumns);
    forall x | x in LookupParts(init, statusTableColumns) ensures x != "st." + last {
      var c :| c in init && c in statusTableColumns && x == "st." + c;
      assert ("st." + c)[3..] == c && ("st." + last)[3..] == last;
    }
  }

  /** Every listed column the table has yields its part. */
  lemma {:induction false} LookupPartsComplete(columns: seq<string>, statusTableColumns: set<string>)
    ensures forall c :: c in columns && c in statusTableColumns ==> "st." + c in LookupParts(columns, statusTableColumns)
  {
    if columns != [] {
      var init, last := columns[..|columns| - 1], columns[|columns| - 1];
      LookupPartsComplete(init, statusTableColumns);
      forall c | c in columns && c in statusTableColumns ensures "st." + c in LookupParts(columns, statusTableColumns) {
        if c != last {
          assert c in init;
        }
      }
    }
  }

  /** The parts follow the order of the listed columns. */
  lemma {:induction false} LookupPartsInOrder(columns: seq<string>, statusTableColumns: set<string>)
    requires Distinct(columns)
    ensures forall c :: c in columns && c in statusTableColumns ==> "st." + c in LookupParts(columns, statusTableColumns)
    ensures forall i, j :: 0 <= i < j < |columns| && columns[i] in statusTableColumns && columns[j] in statusTableColumns ==>
              FirstIndex(LookupParts(columns, statusTableColumns), "st." + columns[i])
              < FirstIndex(LookupParts(columns, statusTableColumns), "st." + columns[j])
  {
    if columns != [] {
      var init, last := columns[..|columns| - 1], columns[|columns| - 1];
      assert forall i :: 0 <= i < |init| ==> init[i] == columns[i];
      LookupPartsInOrder(init, statusTableColumns);
      LookupPartsComplete(columns, statusTableColumns);
      var p := LookupParts(init, statusTableColumns);
      var r := LookupParts(columns, statusTableColumns);
      if last in statusTableColumns {
        var x := "st." + last;
        assert r == p + [x];
        LookupLastIsNew(columns, statusTableColumns);
        assert FirstIndex(r, x) == |p| by {
          assert r[|p|] == x;
        }
        forall i, j | 0 <= i < j < |columns| && columns[i] in statusTableColumns && columns[j] in statusTableColumns
          ensures FirstIndex(r, "st." + columns[i]) < FirstIndex(r, "st." + columns[j])
        {
          assert columns[i] == init[i];
          FirstIndexPrefix(p, x, "st." + columns[i]);
          if j < |init| {
            assert columns[j] == init[j];
            FirstIndexPrefix(p, x, "st." + columns[j]);
          }
        }
      } else {
        assert r == p;
        assert columns[|init|] !in statusTableColumns;
        forall i, j | 0 <= i < j < |columns| && columns[i] in statusTableColumns && columns[j] in statusTableColumns
          ensures FirstIndex(r, "st." + columns[i]) < FirstIndex(r, "st." + columns[j])
        {
          assert columns[i] == init[i] && columns[j] == init[j];
        }
      }
    }
  }

  /**
   * The appointment's own parts are exactly the expressions of the listed
   * columns the table has, each once, in the order of the list.
   */
  lemma AppointmentPartsSpec(columns: seq<(string, string)>, appointmentColumns: set<string>)
    requires forall i, j :: 0 <= i < j < |columns| ==> columns[i].1 != columns[j].1
    ensures Distinct(AppointmentParts(columns, appointmentColumns))
    ensures forall x :: x in AppointmentParts(columns, appointmentColumns) ==>
              exists i :: 0 <= i < |columns| && x == columns[i].1
    ensures forall i :: 0 <= i < |columns| && columns[i].0 in appointmentColumns ==>
              columns[i].1 in AppointmentParts(columns, appointmentColumns)
    ensures forall i, j :: 0 <= i < j < |columns| && columns[i].0 in appointmentColumns && columns[j].0 in appointmentColumns ==>
              FirstIndex(AppointmentParts(columns, appointmentColumns), columns[i].1)
              < FirstIndex(AppointmentParts(columns, appointmentColumns), columns[j].1)
  {
    AppointmentPartsSound(columns, appointmentColumns);
    AppointmentPartsInOrder(columns, appointmentColumns);
  }

  /** Each appointment part is the expression of one listed column, and no two are equal. */
  lemma {:induction false} AppointmentPartsSound(columns: seq<(string, string)>, appointmentColumns: set<string>)
    requires forall i, j :: 0 <= i < j < |columns| ==> columns[i].1 != columns[j].1
    ensures Distinct(AppointmentParts(columns, appointmentColumns))
    ensures forall x :: x in AppointmentParts(columns, appointmentColumns) ==>
              exists i :: 0 <= i < |columns| && x == columns[i].1
  {
    if columns != [] {
      var init, last := columns[..|columns| - 1], columns[|columns| - 1];
      AppointmentPartsSound(init, appointmentColumns);
      DistinctConcat(AppointmentParts(init, appointmentColumns),
                     if last.0 in appointmentColumns then [last.1] else []);
    }
  }

  /** Every listed column the appointment has yields its expression, and the parts follow the list. */
  lemma {:induction false} AppointmentPartsInOrder(columns: seq<(string, string)>, appointmentColumns: set<string>)
    requires forall i, j :: 0 <= i < j < |columns| ==> columns[i].1 != columns[j].1
    ensures forall i :: 0 <= i < |columns| && columns[i].0 in appointmentColumns ==>
              columns[i].1 in AppointmentParts(columns, appointmentColumns)
    ensures forall i, j :: 0 <= i < j < |columns| && columns[i].0 in appointmentColumns && columns[j].0 in appointmentColumns ==>
              FirstIndex(AppointmentParts(columns, appointmentColumns), columns[i].1)
              < FirstIndex(AppointmentParts(columns, appointmentColumns), columns[j].1)
  {
    if columns != [] {
      var init, last := columns[..|columns| - 1], columns[|columns| - 1];
      assert forall i :: 0 <= i < |init| ==> init[i] == columns[i];
      AppointmentPartsInOrder(init, appointmentColumns);
      AppointmentPartsSound(init, appointmentColumns);
      var p := AppointmentParts(init, appointmentColumns);
      var r := AppointmentParts(columns, appointmentColumns);
      if last.0 in appointmentColumns {
        var x := last.1;
        assert r == p + [x];
        assert x !in p;
        assert FirstIndex(r, x) == |p| by {
          assert r[|p|] == x;
        }
        forall i | 0 <= i < |columns| && columns[i].0 in appointmentColumns ensures columns[i].1 in r {
        }
        forall i, j | 0 <= i < j < |columns| && columns[i].0 in appointmentColumns && columns[j].0 in appointmentColumns
          ensures FirstIndex(r, columns[i].1) < FirstIndex(r, columns[j].1)
        {
          FirstIndexPrefix(p, x, columns[i].1);
          if j < |init| {
            FirstIndexPrefix(p, x, columns[j].1);
          }
        }
      } else {
        assert r == p + [];
      }
    }
  }

  /**
   * The candidate expressions never repeat (the lookup parts start with
   * "st.", the appointment's own with "a.", the id cast with "CAST"), so
   * the de-duplication step leaves them as they are.
   */
  lemma CandidatesDistinct(appointmentColumns: set<string>, statusTableColumns: set<string>)
    ensures Distinct(StatusCandidates(appointmentColumns, statusTableColumns))
    ensures Dedup(StatusCandidates(appointmentColumns, statusTableColumns)) == StatusCandidates(appointmentColumns, statusTableColumns)
  {
    PartsDistinct(appointmentColumns, statusTableColumns);
    DedupOfDistinct(StatusCandidates(appointmentColumns, statusTableColumns));
  }

  lemma PartsDistinct(appointmentColumns: set<string>, statusTableColumns: set<string>)
    ensures Distinct(StatusParts(appointmentColumns, statusTableColumns))
  {
    var lookup := if JoinClause(appointmentColumns, statusTableColumns) != ""
                  then LookupParts(StatusTableNameColumns, statusTableColumns) else [];
    var own := AppointmentParts(AppointmentStatusColumns, appointmentColumns);
    var cast := if "status_id" in appointmentColumns then [StatusIdText] else [];
    LookupPartsStartWithS(statusTableColumns);
    AppointmentPartsStartWithA(appointmentColumns);
    DistinctByFirstChar(lookup, own, cast);
  }

  /** Parts that start with different characters cannot coincide. */
  lemma DistinctByFirstChar(lookup: seq<string>, own: seq<string>, cast: seq<string>)
    requires Distinct(lookup) && Distinct(own) && (cast == [] || cast == [StatusIdText])
    requires forall x :: x in lookup ==> |x| > 0 && x[0] == 's'
    requires forall x :: x in own ==> |x| > 0 && x[0] == 'a'
    ensures Distinct(lookup + own + cast)
  {
    DistinctConcat(lookup, own);
    DistinctConcat(lookup + own, cast);
  }

  lemma LookupPartsStartWithS(statusTableColumns: set<string>)
    ensures Distinct(LookupParts(StatusTableNameColumns, statusTableColumns))
    ensures forall x :: x in LookupParts(StatusTableNameColumns, statusTableColumns) ==> |x| > 0 && x[0] == 's'
  {
    LookupPartsSpec(StatusTableNameColumns, statusTableColumns);
    forall x | x in LookupParts(StatusTableNameColumns, statusTableColumns) ensures |x| > 0 && x[0] == 's' {
      var c :| c in StatusTableNameColumns && c in statusTableColumns && x == "st." + c;
    }
  }

  lemma AppointmentPartsStartWithA(appointmentColumns: set<string>)
    ensures Distinct(AppointmentParts(AppointmentStatusColumns, appointmentColumns))
    ensures forall x :: x in AppointmentParts(AppointmentStatusColumns, appointmentColumns) ==> |x| > 0 && x[0] == 'a'
  {
    AppointmentPartsSpec(AppointmentStatusColumns, appointmentColumns);
  }

  /** The loop over the lookup-table name columns. */
  method CollectLookupParts(statusTableColumns: set<string>) returns (parts: seq<string>)
    ensures parts == LookupParts(StatusTableNameColumns, statusTableColumns)
  {
    parts := [];
    var i := 0;
    while i < |StatusTableNameColumns|
      invariant 0 <= i <= |StatusTableNameColumns|
      invariant parts == LookupParts(StatusTableNameColumns[..i], statusTableColumns)
    {
      assert StatusTableNameColumns[..i + 1][..i] == StatusTableNameColumns[..i];
      var column := StatusTableNameColumns[i];
      if column in statusTableColumns {
        parts := parts + ["st." + column];
      }
      i := i + 1;
    }
    assert StatusTableNameColumns[..i] == StatusTableNameColumns;
  }

  /** The loop over the appointment's own status columns. */
  method CollectAppointmentParts(appointmentColumns: set<string>) returns (parts: seq<string>)
    ensures parts == AppointmentParts(AppointmentStatusColumns, appointmentColumns)
  {
    parts := [];
    var k := 0;
    while k < |AppointmentStatusColumns|
      invariant 0 <= k <= |AppointmentStatusColumns|
      invariant parts == AppointmentParts(AppointmentStatusColumns[..k], appointmentColumns)
    {
      assert AppointmentStatusColumns[..k + 1][..k] == AppointmentStatusColumns[..k];
      var (column, expression) := AppointmentStatusColumns[k];
      if column in appointmentColumns {
        parts := parts + [expression];
      }
      k := k + 1;
    }
    assert AppointmentStatusColumns[..k] == AppointmentStatusColumns;
  }

  /** The de-duplication loop with its `seen` set. */
  method DedupInOrder(parts: seq<string>) returns (unique: seq<string>)
    ensures unique == Dedup(parts)
  {
    var seen: set<string> := {};
    unique := [];
    var n := 0;
    while n < |parts|
      invariant 0 <= n <= |parts|
      invariant unique == Dedup(parts[..n])
      invariant forall x :: x in seen <==> x in unique
    {
      assert parts[..n + 1][..n] == parts[..n];
      var expr := parts[n];
      if expr !in seen {
        unique := unique + [expr];
        seen := seen + {expr};
      }
      n := n + 1;
    }
    assert parts[..n] == parts;
  }

  /**
   * The builder as the source writes it: collect the candidate expressions,
   * fall back to the literal, drop repeats, and wrap.
   */
  method BuildStatusSelectClause(appointmentColumns: set<string>, statusTableColumns: set<string>, alias: string)
    returns (selectExpr: string, joinClause: string)
    ensures joinClause == JoinClause(appointmentColumns, statusTableColumns)
    ensures selectExpr == SelectExpression(Dedup(StatusCandidates(appointmentColumns, statusTableColumns)), alias)
  {
    joinClause := "";
    if statusTableColumns != {} {
      if "status_id" in appointmentColumns && "id" in statusTableColumns {
        joinClause := JoinById;
      } else if "status_code" in appointmentColumns && "code" in statusTableColumns {
        joinClause := JoinByCode;
      }
    }

    var parts: seq<string> := [];
    if joinClause != "" {
      parts := CollectLookupParts(statusTableColumns);
    }
    var ownParts := CollectAppointmentParts(appointmentColumns);
    parts := parts + ownParts;
    if "status_id" in appointmentColumns {
      parts := parts + [StatusIdText];
    }
    assert parts == StatusParts(appointmentColumns, statusTableColumns);
    if parts == [] {
      parts := [UnknownStatusLiteral];
    }

    var unique := DedupInOrder(parts);
    if |unique| == 1 {
      selectExpr := unique[0] + " AS " + alias;
    } else {
      selectExpr := "COALESCE(" + Join(unique, ", ") + ") AS " + alias;
    }
  }
}
