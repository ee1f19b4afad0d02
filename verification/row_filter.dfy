/** The selection pass of the page's fetch cycle: rows of the sheet whose role
    column holds the configured role become records, and the records are
    tallied by the two recognised gender literals. */
module RowFilter {
  import opened Cells

  /** The role a row must hold, compared with strict equality. */
  const FILTER_ROLE: string := "ប្រធានក្រុម-DI"
  /** The gender literal counted as male. */
  const MALE: string := "ប្រុស"
  /** The gender literal counted as female. */
  const FEMALE: string := "ស្រី"

  /** Index of the first row examined; rows before it are the sheet's header. */
  const FIRST_ROW: nat := 8

  const COL_ID: nat := 4
  const COL_GROUP: nat := 6
  const COL_NAME: nat := 11
  const COL_GENDER: nat := 13
  const COL_ROLE: nat := 18
  const COL_TELEGRAM: nat := 22

  /** One kept row, each field copied from a fixed column. */
  datatype Record = Record(
    id: Option<Value>,
    name: Option<Value>,
    gender: Option<Value>,
    group: Option<Value>,
    role: Option<Value>,
    telegram: Option<Value>)

  /** The row's role cell strictly equals the configured role. */
  predicate Matches(row: Row)
  {
    CellVal(row, COL_ROLE) == Some(Str(FILTER_ROLE))
  }

  function ToRecord(row: Row): Record
  {
    Record(CellVal(row, COL_ID), CellVal(row, COL_NAME), CellVal(row, COL_GENDER),
           CellVal(row, COL_GROUP), CellVal(row, COL_ROLE), CellVal(row, COL_TELEGRAM))
  }

  /** Records built from the examined rows below index `hi`, in row order. */
  function Selected(rows: seq<Row>, hi: nat): seq<Record>
    requires hi <= |rows|
    decreases hi
  {
    if hi <= FIRST_ROW then []
    else Selected(rows, hi - 1) + (if Matches(rows[hi - 1]) then [ToRecord(rows[hi - 1])] else [])
  }

  /** The records of one fetch cycle. */
  function Filtered(rows: seq<Row>): seq<Record>
  {
    Selected(rows, |rows|)
  }

  /** Reference definition: the indices below `hi` of examined rows that match. */
  function SourceRows(rows: seq<Row>, hi: nat): (src: seq<nat>)
    requires hi <= |rows|
    ensures forall k :: 0 <= k < |src| ==> FIRST_ROW <= src[k] < hi
    decreases hi
  {
    if hi <= FIRST_ROW then []
    else SourceRows(rows, hi - 1) + (if Matches(rows[hi - 1]) then [hi - 1] else [])
  }

  /** Number of records whose gender strictly equals `g`. */
  function CountGender(records: seq<Record>, g: string): nat
  {
    if records == [] then 0
    else CountGender(records[..|records| - 1], g)
         + (if records[|records| - 1].gender == Some(Str(g)) then 1 else 0)
  }

  /** The three figures handed to the statistic cards. */
  datatype Tally = Tally(total: nat, male: nat, female: nat)

  function TallyOf(records: seq<Record>): Tally
  {
    Tally(|records|, CountGender(records, MALE), CountGender(records, FEMALE))
  }

  function Min(a: nat, b: nat): nat
  {
    if a <= b then a else b
  }

  /** The selection loop of the fetch cycle: walks the rows from FIRST_ROW,
      pushes a record for every matching row and counts its gender. */
  method SelectRows(rows: seq<Row>) returns (filteredData: seq<Record>, male: nat, female: nat)
    ensures filteredData == Filtered(rows)
    ensures male == CountGender(filteredData, MALE)
    ensures female == CountGender(filteredData, FEMALE)
  {
    filteredData, male, female := [], 0, 0;
    var i := FIRST_ROW;
    while i < |rows|
      invariant FIRST_ROW <= i
      invariant |rows| >= FIRST_ROW ==> i <= |rows|
      invariant filteredData == Selected(rows, Min(i, |rows|))
      invariant male == CountGender(filteredData, MALE)
      invariant female == CountGender(filteredData, FEMALE)
    {
      var row := rows[i];
      var role := CellVal(row, COL_ROLE);
      if role == Some(Str(FILTER_ROLE)) {
        var gender := CellVal(row, COL_GENDER);
        var rec := Record(CellVal(row, COL_ID), CellVal(row, COL_NAME), gender,
                          CellVal(row, COL_GROUP), role, CellVal(row, COL_TELEGRAM));
        assert (filteredData + [rec])[..|filteredData|] == filteredData;
        filteredData := filteredData + [rec];
        if gender == Some(Str(MALE)) {
          male := male + 1;
        } else if gender == Some(Str(FEMALE)) {
          female := female + 1;
        }
      }
      i := i + 1;
    }
  }

  /** Whether the header rows contribute anything: they do not. */
  lemma {:induction false} SelectedIgnoresHeader(h1: seq<Row>, h2: seq<Row>, body: seq<Row>, hi: nat)
    requires |h1| == FIRST_ROW && |h2| == FIRST_ROW
    requires hi <= |h1| + |body|
    ensures Selected(h1 + body, hi) == Selected(h2 + body, hi)
    decreases hi
  {
    if hi > FIRST_ROW {
      SelectedIgnoresHeader(h1, h2, body, hi - 1);
      assert (h1 + body)[hi - 1] == body[hi - 1 - FIRST_ROW] == (h2 + body)[hi - 1];
    }
  }

  /** The eight rows before FIRST_ROW never affect the records, and a sheet of
      at most eight rows yields none. */
  lemma HeaderRowsNeverSelected(h1: seq<Row>, h2: seq<Row>, body: seq<Row>, short: seq<Row>)
    requires |h1| == FIRST_ROW && |h2| == FIRST_ROW
    requires |short| <= FIRST_ROW
    ensures Filtered(h1 + body) == Filtered(h2 + body)
    ensures Filtered(short) == []
  {
    SelectedIgnoresHeader(h1, h2, body, |h1| + |body|);
  }

  /** The records built from the rows at the given indices, in that order. */
  function RecordsAt(rows: seq<Row>, idx: seq<nat>): seq<Record>
    requires forall k :: 0 <= k < |idx| ==> idx[k] < |rows|
  {
    if idx == [] then []
    else RecordsAt(rows, idx[..|idx| - 1]) + [ToRecord(rows[idx[|idx| - 1]])]
  }

  lemma {:induction false} RecordsAtIndex(rows: seq<Row>, idx: seq<nat>)
    requires forall k :: 0 <= k < |idx| ==> idx[k] < |rows|
    ensures |RecordsAt(rows, idx)| == |idx|
    ensures forall k :: 0 <= k < |idx| ==> RecordsAt(rows, idx)[k] == ToRecord(rows[idx[k]])
  {
    if idx != [] {
      RecordsAtIndex(rows, idx[..|idx| - 1]);
    }
  }

  lemma {:induction false} SelectedIsRecordsAt(rows: seq<Row>, hi: nat)
    requires hi <= |rows|
    ensures Selected(rows, hi) == RecordsAt(rows, SourceRows(rows, hi))
    decreases hi
  {
    if hi > FIRST_ROW {
      SelectedIsRecordsAt(rows, hi - 1);
      var psrc := SourceRows(rows, hi - 1);
      if Matches(rows[hi - 1]) {
        var src := psrc + [hi - 1];
        assert SourceRows(rows, hi) == src;
        assert src[..|src| - 1] == psrc && src[|src| - 1] == hi - 1;
        assert RecordsAt(rows, src) == RecordsAt(rows, psrc) + [ToRecord(rows[hi - 1])];
      } else {
        assert SourceRows(rows, hi) == psrc;
      }
    }
  }

  lemma SelectedFromSourceRows(rows: seq<Row>, hi: nat)
    requires hi <= |rows|
    ensures |Selected(rows, hi)| == |SourceRows(rows, hi)|
    ensures forall k :: 0 <= k < |SourceRows(rows, hi)| ==>
              Selected(rows, hi)[k] == ToRecord(rows[SourceRows(rows, hi)[k]])
  {
    SelectedIsRecordsAt(rows, hi);
    RecordsAtIndex(rows, SourceRows(rows, hi));
  }

  lemma {:induction false} SourceRowsExactly(rows: seq<Row>, hi: nat)
    requires hi <= |rows|
    ensures forall i :: i in SourceRows(rows, hi) <==> FIRST_ROW <= i < hi && Matches(rows[i])
    decreases hi
  {
    if hi > FIRST_ROW {
      SourceRowsExactly(rows, hi - 1);
    }
  }

  lemma {:induction false} SourceRowsIncreasing(rows: seq<Row>, hi: nat)
    requires hi <= |rows|
    ensures forall a, b :: 0 <= a < b < |SourceRows(rows, hi)| ==>
              SourceRows(rows, hi)[a] < SourceRows(rows, hi)[b]
    decreases hi
  {
    if hi > FIRST_ROW {
      SourceRowsIncreasing(rows, hi - 1);
      SourceRowsExactly(rows, hi - 1);
    }
  }

  /** The records are exactly one per examined row whose role matches, in
      source-row order, each holding that row's cells at the fixed columns. */
  lemma FilteredCharacterization(rows: seq<Row>)
    ensures var src, recs := SourceRows(rows, |rows|), Filtered(rows);
      |recs| == |src| &&
      (forall i :: i in src <==> FIRST_ROW <= i < |rows| && Matches(rows[i])) &&
      (forall a, b :: 0 <= a < b < |src| ==> src[a] < src[b]) &&
      (forall k :: 0 <= k < |recs| ==>
         recs[k].role == Some(Str(FILTER_ROLE)) &&
         recs[k].id == CellVal(rows[src[k]], COL_ID) &&
         recs[k].name == CellVal(rows[src[k]], COL_NAME) &&
         recs[k].gender == CellVal(rows[src[k]], COL_GENDER) &&
         recs[k].group == CellVal(rows[src[k]], COL_GROUP) &&
         recs[k].telegram == CellVal(rows[src[k]], COL_TELEGRAM))
  {
    SelectedFromSourceRows(rows, |rows|);
    SourceRowsExactly(rows, |rows|);
    SourceRowsIncreasing(rows, |rows|);
    var src := SourceRows(rows, |rows|);
    forall k | 0 <= k < |src|
      ensures Matches(rows[src[k]])
    {
      assert src[k] in src;
    }
  }

  lemma {:induction false} CountGenderAppend(a: seq<Record>, b: seq<Record>, g: string)
    ensures CountGender(a + b, g) == CountGender(a, g) + CountGender(b, g)
    decreases |b|
  {
    if b != [] {
      var n := |b| - 1;
      assert (a + b)[..|a + b| - 1] == a + b[..n];
      assert (a + b)[|a + b| - 1] == b[n];
      CountGenderAppend(a, b[..n], g);
      assert CountGender(a + b, g) == CountGender(a + b[..n], g) + (if b[n].gender == Some(Str(g)) then 1 else 0);
    } else {
      assert a + b == a;
    }
  }

  /** A gender counted in one of the two buckets. */
  predicate Recognised(r: Record)
  {
    r.gender == Some(Str(MALE)) || r.gender == Some(Str(FEMALE))
  }

  /** male + female never exceeds the total, and reaches it exactly when every
      record's gender is one of the two recognised literals. */
  lemma {:induction false} TallyBound(records: seq<Record>)
    ensures TallyOf(records).male + TallyOf(records).female <= TallyOf(records).total
    ensures TallyOf(records).male + TallyOf(records).female == TallyOf(records).total
            <==> forall k :: 0 <= k < |records| ==> Recognised(records[k])
    decreases |records|
  {
    if records != [] {
      var init := records[..|records| - 1];
      TallyBound(init);
      assert forall k :: 0 <= k < |init| ==> init[k] == records[k];
    }
  }
}
