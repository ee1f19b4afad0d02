/** The rows written into the page's table body, modelled as abstract display
    rows rather than markup, and the fetch cycle that produces them. */
module Render {
  import opened Cells
  import opened RowFilter

  /** Text of the single row shown when no record was kept. */
  const NO_DATA: string := "No matching data found."

  /** A displayed cell: `value || ''` shows a truthy value and blanks the rest. */
  datatype Field = Blank | Shown(v: Value)

  function Display(x: Option<Value>): Field
  {
    if Truthy(x) then Shown(x.value) else Blank
  }

  /** A cell is blank exactly when its value is null or falsy; otherwise it
      shows that very value, never a null. */
  lemma DisplayBlankIffFalsy(x: Option<Value>)
    ensures Display(x) == Blank <==> !Truthy(x)
    ensures Display(x).Shown? ==> x == Some(Display(x).v)
  {
  }

  /** Index of the first occurrence of `c` in `s`, or `|s|` when there is none. */
  function FirstIndexOf(s: string, c: char): (k: nat)
    ensures k <= |s|
    ensures k < |s| ==> s[k] == c
    ensures forall j :: 0 <= j < k ==> s[j] != c
  {
    if s == [] then 0
    else if s[0] == c then 0
    else 1 + FirstIndexOf(s[1..], c)
  }

  /** `s.replace(c, '')` with a one-character string pattern: only the first
      occurrence is removed, wherever it stands. */
  function ReplaceFirst(s: string, c: char): string
  {
    var k := FirstIndexOf(s, c);
    if k < |s| then s[..k] + s[k + 1..] else s
  }

  /** A string without the character is left alone. */
  lemma ReplaceFirstAbsent(s: string, c: char)
    requires c !in s
    ensures ReplaceFirst(s, c) == s
  {
  }

  /** Reference characterisation: splitting at the first occurrence of the
      character and dropping it gives the result. */
  lemma ReplaceFirstSplit(a: string, c: char, b: string)
    requires c !in a
    ensures ReplaceFirst(a + [c] + b, c) == a + b
  {
    var s := a + [c] + b;
    var k := FirstIndexOf(s, c);
    assert s[|a|] == c;
    assert forall j :: 0 <= j < |a| ==> s[j] == a[j];
    assert k == |a|;
    assert s[..k] == a && s[k + 1..] == b;
  }

  /** The leading '@' of a Telegram handle is dropped. */
  lemma ReplaceFirstLeading()
    ensures ReplaceFirst("@alice", '@') == "alice"
  {
    assert "@alice" == "" + ['@'] + "alice";
    ReplaceFirstSplit("", '@', "alice");
  }

  /** Only the first '@' goes, even when it is not the leading character. */
  lemma ReplaceFirstInner()
    ensures ReplaceFirst("bob@x@y", '@') == "bobx@y"
  {
    assert "bob@x@y" == "bob" + ['@'] + "x@y";
    ReplaceFirstSplit("bob", '@', "x@y");
  }

  /** The Telegram cell: a link whose target username drops the first '@' and
      whose text is the value itself, or "N/A" when the value is null or falsy. */
  datatype TelegramCell = NotAvailable | Link(username: string, text: string)

  /** The outcome of an operation that may throw a JavaScript TypeError. */
  datatype Outcome<+T> = Done(value: T) | TypeError

  /** A truthy non-string value has no `replace` method: the call throws. */
  function TelegramFor(t: Option<Value>): Outcome<TelegramCell>
  {
    if !Truthy(t) then Done(NotAvailable)
    else
      match t.value
      case Str(s) => Done(Link(ReplaceFirst(s, '@'), s))
      case _ => TypeError
  }

  lemma TelegramCases(t: Option<Value>)
    ensures TelegramFor(t) == Done(NotAvailable) <==> !Truthy(t)
    ensures TelegramFor(t).TypeError? <==> Truthy(t) && !t.value.Str?
    ensures TelegramFor(t).Done? && TelegramFor(t).value.Link? ==>
              t == Some(Str(TelegramFor(t).value.text)) && t.value.s != "" &&
              TelegramFor(t).value.username == ReplaceFirst(t.value.s, '@')
  {
  }

  lemma TelegramOfAlice()
    ensures TelegramFor(Some(Str("@alice"))) == Done(Link("alice", "@alice"))
    ensures TelegramFor(None) == Done(NotAvailable)
    ensures TelegramFor(Some(Str(""))) == Done(NotAvailable)
  {
    ReplaceFirstLeading();
  }

  /** A displayed row of the table body. */
  datatype DisplayRow =
    | Placeholder(message: string)
    | DataRow(number: nat, name: Field, id: Field, gender: Field, group: Field, role: Field,
              telegram: TelegramCell)

  /** Rendering this record throws. */
  predicate Throws(item: Record)
  {
    TelegramFor(item.telegram).TypeError?
  }

  /** The row built for the record at 0-based position `index`. */
  function RowFor(item: Record, index: nat): DisplayRow
    requires !Throws(item)
  {
    DataRow(index + 1, Display(item.name), Display(item.id), Display(item.gender),
            Display(item.group), Display(item.role), TelegramFor(item.telegram).value)
  }

  /** The rows appended, one per step, for the first `n` records. */
  function RowsFor(data: seq<Record>, n: nat): seq<DisplayRow>
    requires n <= |data|
    requires forall k :: 0 <= k < n ==> !Throws(data[k])
  {
    if n == 0 then [] else RowsFor(data, n - 1) + [RowFor(data[n - 1], n - 1)]
  }

  /** Position of the first record whose rendering throws, or `|data|`. */
  function FirstThrowing(data: seq<Record>): (k: nat)
    ensures k <= |data|
    ensures k < |data| ==> Throws(data[k])
    ensures forall j :: 0 <= j < k ==> !Throws(data[j])
  {
    if data == [] then 0
    else if Throws(data[0]) then 0
    else 1 + FirstThrowing(data[1..])
  }

  /** What one render call leaves behind: the rows it wrote and whether it threw. */
  datatype Rendering = Rendering(rows: seq<DisplayRow>, threw: bool)

  function Rendered(data: seq<Record>): Rendering
  {
    if |data| == 0 then Rendering([Placeholder(NO_DATA)], false)
    else
      var n := FirstThrowing(data);
      Rendering(RowsFor(data, n), n < |data|)
  }

  lemma {:induction false} RowsForNumbered(data: seq<Record>, n: nat)
    requires n <= |data|
    requires forall k :: 0 <= k < n ==> !Throws(data[k])
    ensures |RowsFor(data, n)| == n
    ensures forall k :: 0 <= k < n ==> RowsFor(data, n)[k] == RowFor(data[k], k)
  {
    if n > 0 {
      RowsForNumbered(data, n - 1);
    }
  }

  /** An empty record list renders one placeholder row. Otherwise the records
      render one row each, numbered from 1 in order, with null or falsy fields
      blank, until the first record whose Telegram value throws; the rows
      before it stay and nothing follows. */
  lemma RenderedRows(data: seq<Record>)
    ensures data == [] ==> Rendered(data) == Rendering([Placeholder(NO_DATA)], false)
    ensures Rendered(data).threw <==> exists k :: 0 <= k < |data| && Throws(data[k])
    ensures data != [] ==>
      var rows, n := Rendered(data).rows, FirstThrowing(data);
      |rows| == n &&
      (n < |data| ==> Throws(data[n])) &&
      forall k :: 0 <= k < n ==>
        rows[k].DataRow? && rows[k].number == k + 1 &&
        rows[k].name == Display(data[k].name) && rows[k].id == Display(data[k].id) &&
        rows[k].gender == Display(data[k].gender) && rows[k].group == Display(data[k].group) &&
        rows[k].role == Display(data[k].role) &&
        Done(rows[k].telegram) == TelegramFor(data[k].telegram)
  {
    if data != [] {
      RowsForNumbered(data, FirstThrowing(data));
    }
  }

  /** The page's table body, seen as the list of rows it holds. */
  class TableBody {
    var rows: seq<DisplayRow>

    constructor ()
      ensures rows == []
    {
      rows := [];
    }

    /** `tableBody.innerHTML = ''`. */
    method Clear()
      modifies this
      ensures rows == []
    {
      rows := [];
    }

    /** `renderTable(data)`: replaces the body by the placeholder when there is
        no record, otherwise appends one row per record until one throws. */
    method RenderTable(data: seq<Record>) returns (threw: bool)
      modifies this
      ensures rows == (if data == [] then [] else old(rows)) + Rendered(data).rows
      ensures threw == Rendered(data).threw
    {
      if |data| == 0 {
        rows := [Placeholder(NO_DATA)];
        return false;
      }
      var i := 0;
      while i < |data|
        invariant i <= |data|
        invariant forall k :: 0 <= k < i ==> !Throws(data[k])
        invariant rows == old(rows) + RowsFor(data, i)
      {
        var item := data[i];
        var telegramLink := NotAvailable;
        if Truthy(item.telegram) {
          match item.telegram.value
          case Str(s) =>
            telegramLink := Link(ReplaceFirst(s, '@'), s);
          case _ =>
            return true;
        }
        rows := rows + [DataRow(i + 1, Display(item.name), Display(item.id), Display(item.gender),
                                Display(item.group), Display(item.role), telegramLink)];
        i := i + 1;
      }
      return false;
    }
  }

  /** The figures a fetch cycle writes to the statistic cards, if it gets that far. */
  method FetchCycle(body: TableBody, rows: seq<Row>) returns (stats: Option<Tally>)
    modifies body
    ensures body.rows == Rendered(Filtered(rows)).rows
    ensures stats == if Rendered(Filtered(rows)).threw then None else Some(TallyOf(Filtered(rows)))
  {
    body.Clear();
    var filteredData, male, female := SelectRows(rows);
    var threw := body.RenderTable(filteredData);
    if threw {
      return None;
    }
    stats := Some(Tally(|filteredData|, male, female));
  }

  /** A row holding only a role and a gender cell. */
  function ScenarioRow(role: string, gender: string): Row
  {
    seq(COL_ROLE + 1, j =>
      if j == COL_ROLE then Some(Cell(Some(Str(role))))
      else if j == COL_GENDER then Some(Cell(Some(Str(gender))))
      else None)
  }

  /** Eight header rows of any content, two leaders (one male, one female) and
      one row with another role: two records, tallies (2, 1, 1), and a table
      of two data rows numbered 1 and 2. */
  lemma TwoLeadersScenario(header: seq<Row>)
    requires |header| == FIRST_ROW
    ensures var rows := header + [ScenarioRow(FILTER_ROLE, MALE), ScenarioRow(FILTER_ROLE, FEMALE),
                                  ScenarioRow("member", MALE)];
      var out := Rendered(Filtered(rows));
      |Filtered(rows)| == 2 && TallyOf(Filtered(rows)) == Tally(2, 1, 1) &&
      !out.threw && |out.rows| == 2 && out.rows[0].DataRow? && out.rows[1].DataRow? &&
      out.rows[0].number == 1 && out.rows[1].number == 2
  {
    var leader1, leader2, other := ScenarioRow(FILTER_ROLE, MALE), ScenarioRow(FILTER_ROLE, FEMALE),
                                   ScenarioRow("member", MALE);
    var rows := header + [leader1, leader2, other];
    assert rows[8] == leader1 && rows[9] == leader2 && rows[10] == other;
    assert CellVal(leader1, COL_ROLE) == Some(Str(FILTER_ROLE));
    assert CellVal(leader2, COL_ROLE) == Some(Str(FILTER_ROLE));
    assert CellVal(other, COL_ROLE) == Some(Str("member"));
    var r1, r2 := ToRecord(leader1), ToRecord(leader2);
    assert Filtered(rows) == [r1, r2];
    assert r1.gender == Some(Str(MALE)) && r2.gender == Some(Str(FEMALE));
    assert [r1, r2][..1] == [r1] && [r1][..0] == [];
    assert MALE != FEMALE by { assert |MALE| != |FEMALE|; }
    assert CountGender([r1], MALE) == 1 && CountGender([r1], FEMALE) == 0;
    assert CountGender([r1, r2], MALE) == 1;
    assert CountGender([r1, r2], FEMALE) == 1;
    assert r1.telegram == None && r2.telegram == None;
    RenderedRows([r1, r2]);
  }
}
