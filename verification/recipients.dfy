/** The recipient loader: after the spreadsheet has been read, locate the
    "email" and "name" columns from the header row, then turn each data row
    into at most one (email, name) record. */
module Recipients {
  import opened Optional
  import opened Strings

  /** One spreadsheet cell value: blank, or text. */
  datatype Cell = Empty | Text(text: string)

  type Row = seq<Cell>

  /** A recipient record; the email is never empty. */
  datatype Recipient = Recipient(email: string, name: string)

  /** Column positions found in the header. `name == None` plays the role
      of the source's sentinel index -1. */
  datatype Columns = Columns(email: nat, name: Option<nat>)

  /** The default used when a row gives no name. */
  const DefaultName: string := "Volunteer"

  /** Python truthiness of a cell value: `None` and `""` are false. */
  predicate Truthy(c: Cell) {
    c.Text? && c.text != ""
  }

  /** A header cell whose lowered text contains `word`. */
  predicate Mentions(c: Cell, word: string) {
    Truthy(c) && Contains(Lower(c.text), word)
  }

  predicate IsEmailHeader(c: Cell) {
    Mentions(c, "email")
  }

  /** The `elif`: a header mentioning both words is an email header. */
  predicate IsNameHeader(c: Cell) {
    !IsEmailHeader(c) && Mentions(c, "name")
  }

  /** `e` is the last email header of `header`, or 0 when there is none. */
  predicate IsEmailColumn(header: Row, e: nat) {
    || (e < |header| && IsEmailHeader(header[e])
        && forall j | e < j < |header| :: !IsEmailHeader(header[j]))
    || (e == 0 && forall j | 0 <= j < |header| :: !IsEmailHeader(header[j]))
  }

  /** `n` is the last name header of `header`, or absent when there is none. */
  predicate IsNameColumn(header: Row, n: Option<nat>) {
    match n
    case Some(k) =>
      k < |header| && IsNameHeader(header[k])
      && forall j | k < j < |header| :: !IsNameHeader(header[j])
    case None => forall j | 0 <= j < |header| :: !IsNameHeader(header[j])
  }

  /** The header scan: cells are visited left to right and every match
      overwrites the previous one, so the last matching column wins. */
  function ScanHeader(header: Row): (cols: Columns)
    ensures header == [] ==> cols == Columns(0, None)
    ensures |header| > 0 ==> cols.email < |header|
    ensures cols.name.Some? ==> cols.name.value < |header|
  {
    if header == [] then Columns(0, None)
    else
      var i := |header| - 1;
      var prev := ScanHeader(header[..i]);
      if IsEmailHeader(header[i]) then prev.(email := i)
      else if Mentions(header[i], "name") then prev.(name := Some(i))
      else prev
  }

  /** The scan finds the last email header, or 0 when there is none. */
  lemma {:induction false} ScanFindsEmailColumn(header: Row)
    ensures IsEmailColumn(header, ScanHeader(header).email)
  {
    if header != [] {
      var i := |header| - 1;
      ScanFindsEmailColumn(header[..i]);
      var prev := ScanHeader(header[..i]);
      assert forall j | 0 <= j < i :: header[..i][j] == header[j];
      if IsEmailHeader(header[i]) {
        assert ScanHeader(header).email == i;
      } else {
        assert ScanHeader(header).email == prev.email;
      }
    }
  }

  /** The scan finds the last name header, or none when there is none. */
  lemma {:induction false} ScanFindsNameColumn(header: Row)
    ensures IsNameColumn(header, ScanHeader(header).name)
  {
    if header != [] {
      var i := |header| - 1;
      ScanFindsNameColumn(header[..i]);
      var prev := ScanHeader(header[..i]);
      assert forall j | 0 <= j < i :: header[..i][j] == header[j];
      if IsNameHeader(header[i]) {
        assert ScanHeader(header).name == Some(i);
      } else {
        assert ScanHeader(header).name == prev.name;
      }
    }
  }

  /** The two column predicates pick exactly one column each, so they
      define the header scan's result on their own. */
  lemma ColumnsAreUnique(header: Row, e1: nat, e2: nat, n1: Option<nat>, n2: Option<nat>)
    requires IsEmailColumn(header, e1) && IsEmailColumn(header, e2)
    requires IsNameColumn(header, n1) && IsNameColumn(header, n2)
    ensures e1 == e2 && n1 == n2
  {
  }

  /** The row filter: the row reaches the email column, that cell is truthy
      and it is not all whitespace (so its stripped text is non-empty). */
  predicate Accepted(row: Row, cols: Columns) {
    cols.email < |row| && Truthy(row[cols.email]) && !AllSpace(row[cols.email].text)
  }

  /** One data row: a record exactly when the row reaches the email column,
      that cell is truthy and its stripped text is non-empty. The name is
      the stripped name cell when there is a name column that the row
      reaches and that cell is truthy, and "Volunteer" otherwise. */
  function ExtractRow(row: Row, cols: Columns): (r: Option<Recipient>)
    ensures r.Some? <==> Accepted(row, cols)
    ensures r.Some? ==> r.value.email != "" && IsStripped(r.value.email)
    ensures r.Some? ==> r.value.email == Strip(row[cols.email].text)
    ensures r.Some? && (cols.name.None? || cols.name.value >= |row|) ==>
      r.value.name == DefaultName
    ensures r.Some? && cols.name.Some? && cols.name.value < |row| ==>
      r.value.name ==
        (if Truthy(row[cols.name.value]) then Strip(row[cols.name.value].text) else DefaultName)
  {
    if cols.email < |row| && Truthy(row[cols.email]) then
      var email := Strip(row[cols.email].text);
      var name :=
        if cols.name.Some? && cols.name.value < |row| && Truthy(row[cols.name.value])
        then Strip(row[cols.name.value].text)
        else DefaultName;
      if email != "" then Some(Recipient(email, name)) else None
    else None
  }

  /** The data-row loop: one record per accepted row, in row order. */
  function ExtractAll(rows: seq<Row>, cols: Columns): (out: seq<Recipient>)
    ensures |out| <= |rows|
    ensures forall k | 0 <= k < |out| :: out[k].email != "" && IsStripped(out[k].email)
  {
    if rows == [] then []
    else
      var prev := ExtractAll(rows[..|rows| - 1], cols);
      match ExtractRow(rows[|rows| - 1], cols)
      case Some(rec) => prev + [rec]
      case None => prev
  }

  /** `read_recipients_from_excel` after the workbook is open: the first row
      only locates the columns, the remaining rows are the data. */
  function ReadRecipients(header: Row, data: seq<Row>): (out: seq<Recipient>)
    ensures |out| <= |data|
    ensures forall k | 0 <= k < |out| :: out[k].email != "" && IsStripped(out[k].email)
  {
    ExtractAll(data, ScanHeader(header))
  }

  predicate StrictlyIncreasing(idx: seq<nat>) {
    forall k, l | 0 <= k < l < |idx| :: idx[k] < idx[l]
  }

  /** The positions of the rows that yield a record, in increasing order. */
  function AcceptedRows(rows: seq<Row>, cols: Columns): (idx: seq<nat>)
    ensures StrictlyIncreasing(idx)
    ensures forall k | 0 <= k < |idx| :: idx[k] < |rows|
  {
    if rows == [] then []
    else
      var i := |rows| - 1;
      var prev := AcceptedRows(rows[..i], cols);
      if Accepted(rows[i], cols) then prev + [i] else prev
  }

  /** A row position is listed exactly when that row passes the filter. */
  lemma {:induction false} AcceptedRowsExact(rows: seq<Row>, cols: Columns)
    ensures forall i | 0 <= i < |rows| :: i in AcceptedRows(rows, cols) <==> Accepted(rows[i], cols)
  {
    if rows != [] {
      var n := |rows| - 1;
      AcceptedRowsExact(rows[..n], cols);
      assert forall i | 0 <= i < n :: rows[..n][i] == rows[i];
    }
  }

  /** The output lists, in order, the records of exactly the accepted rows:
      at most one record per row, order kept, no row skipped that qualifies. */
  lemma {:induction false} ExtractAllFollowsAcceptedRows(rows: seq<Row>, cols: Columns)
    ensures |ExtractAll(rows, cols)| == |AcceptedRows(rows, cols)|
    ensures forall k | 0 <= k < |AcceptedRows(rows, cols)| ::
      ExtractRow(rows[AcceptedRows(rows, cols)[k]], cols) == Some(ExtractAll(rows, cols)[k])
  {
    if rows != [] {
      var n := |rows| - 1;
      ExtractAllFollowsAcceptedRows(rows[..n], cols);
      var idx := AcceptedRows(rows[..n], cols);
      var prev := ExtractAll(rows[..n], cols);
      assert forall k | 0 <= k < |idx| :: rows[..n][idx[k]] == rows[idx[k]];
      match ExtractRow(rows[n], cols)
      case Some(rec) =>
        assert AcceptedRows(rows, cols) == idx + [n];
        assert ExtractAll(rows, cols) == prev + [rec];
      case None =>
        assert AcceptedRows(rows, cols) == idx;
        assert ExtractAll(rows, cols) == prev;
    }
  }

  /** Whenever an email header is found, the header row itself passes the
      row filter: its email cell is truthy and not all whitespace. Only the
      separation of the header from the data rows keeps it out of the
      recipients. */
  lemma HeaderWouldPassRowFilter(header: Row, j: nat)
    requires j < |header| && IsEmailHeader(header[j])
    ensures Accepted(header, ScanHeader(header))
  {
    var cols := ScanHeader(header);
    ScanFindsEmailColumn(header);
    assert IsEmailHeader(header[cols.email]);
    ContainsWordNotAllSpace(header[cols.email].text);
  }

  /** A header text that contains "email" once lowered has a non-space
      character. */
  lemma {:induction false} ContainsWordNotAllSpace(s: string)
    requires Contains(Lower(s), "email")
    ensures !AllSpace(s)
  {
    if "email" <= Lower(s) {
      assert Lower(s)[0] == 'e';
      assert LowerChar(s[0]) == 'e';
    } else {
      assert Lower(s)[1..] == Lower(s[1..]);
      ContainsWordNotAllSpace(s[1..]);
      var i :| 0 <= i < |s[1..]| && !IsSpace(s[1..][i]);
      assert !IsSpace(s[i + 1]);
    }
  }

  /** A name cell holding only whitespace is truthy, so it yields the empty
      name rather than the default. */
  lemma BlankNameIsNotDefaulted(row: Row, cols: Columns)
    requires ExtractRow(row, cols).Some?
    requires cols.name.Some? && cols.name.value < |row|
    requires row[cols.name.value].Text? && row[cols.name.value].text != []
    requires AllSpace(row[cols.name.value].text)
    ensures ExtractRow(row, cols).value.name == ""
  {
  }

  /** Header "Name", "Email": the email column is 1 and the name column 0. */
  lemma ExampleHeaderColumns(header: Row)
    requires header == [Text("Name"), Text("Email")]
    ensures ScanHeader(header) == Columns(1, Some(0))
  {
  }

  /** The accepted row of the example below. */
  lemma ExampleFirstRow(row: Row, cols: Columns)
    requires row == [Text("A"), Text("a@x.com")] && cols == Columns(1, Some(0))
    ensures ExtractRow(row, cols) == Some(Recipient("a@x.com", "A"))
  {
    StripIdentity("A");
    StripIdentity("a@x.com");
    assert !IsSpace(row[1].text[0]);
    assert Accepted(row, cols);
    var r := ExtractRow(row, cols);
    assert r.value.email == "a@x.com";
    assert Truthy(row[0]);
    assert r.value.name == "A";
  }

  /** The example of the loader's documentation: header "Name", "Email";
      rows ("A", "a@x.com"), ("", ""), ("B", "") give one recipient. */
  lemma LoaderExample(header: Row, rows: seq<Row>)
    requires header == [Text("Name"), Text("Email")]
    requires rows == [[Text("A"), Text("a@x.com")], [Text(""), Text("")], [Text("B"), Text("")]]
    ensures ReadRecipients(header, rows) == [Recipient("a@x.com", "A")]
  {
    ExampleHeaderColumns(header);
    var cols := ScanHeader(header);
    ExampleFirstRow(rows[0], cols);
    assert ExtractRow(rows[1], cols) == None;
    assert ExtractRow(rows[2], cols) == None;
    assert rows[..2][..1] == rows[..1];
    assert rows[..1][..0] == [];
    assert ExtractAll(rows[..1], cols) == [Recipient("a@x.com", "A")];
    assert ExtractAll(rows[..2], cols) == [Recipient("a@x.com", "A")];
  }
}
