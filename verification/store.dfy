/** The `reservations` table of app.py and the queries run on it: rows as
    SQLite stores them, `row_to_dict`, and the month listing with its
    NULL-aware WHERE clause and its ORDER BY. */
module Store {
  import opened Wrappers
  import opened Strings
  import opened Values

  /** One row. `checkin`/`checkout` are TEXT columns, so whatever is bound
      to them is stored as text or NULL; `valor_cents` is the integer the
      handlers compute, NULL only if written from outside. `created_at` is
      not modelled. */
  datatype Row = Row(
    id: int, chale: Value, nome: Value, whatsapp: Value, valorCents: Option<int>,
    pessoas: Value, checkin: Option<string>, checkout: Option<string>,
    observacoes: Value, status: Value)

  /** The JSON object `row_to_dict` produces. */
  datatype Record = Record(
    id: int, chale: Value, nome: Value, whatsapp: Value, valorCents: int,
    pessoas: Value, checkin: Option<string>, checkout: Option<string>,
    observacoes: Value, status: Value)

  /** TEXT column affinity: numbers are stored as their decimal text
      (Python binds True/False as 1/0). */
  function TextAffinity(v: Value): Option<string> {
    match v
    case Null => None
    case Bool(b) => Some(if b then "1" else "0")
    case Int(i) => Some(IntToString(i))
    case Str(s) => Some(s)
  }

  /** The text a TEXT column holds for a bound value, kept as a JSON value:
      NULL stays null, anything else is stored as its text. */
  function TextColumn(v: Value): (r: Value)
    ensures r == Null || r.Str?
    ensures v.Str? ==> r == v
  {
    match TextAffinity(v)
    case None => Null
    case Some(t) => Str(t)
  }

  /** SQLite's INTEGER is 64-bit: Python's sqlite3 raises OverflowError when
      it binds a larger int. */
  predicate FitsInt64(i: int) {
    -0x8000_0000_0000_0000 <= i < 0x8000_0000_0000_0000
  }

  /** A JSON value sqlite3 can bind as a parameter. */
  predicate Bindable(v: Value) {
    v.Int? ==> FitsInt64(v.i)
  }

  /** `row_to_dict` on a fetched row: `int(d.get('valor_cents') or 0)`. */
  function ToRecord(row: Row): Record {
    Record(row.id, row.chale, row.nome, row.whatsapp, row.valorCents.GetOr(0),
           row.pessoas, row.checkin, row.checkout, row.observacoes, row.status)
  }

  /** `row_to_dict(row)`: None stays None. */
  function RowToDict(row: Option<Row>): (r: Option<Record>)
    ensures r.None? <==> row.None?
    ensures row.Some? ==> FromRecord(r.value) == row.value.(valorCents := Some(r.value.valorCents))
    ensures row.Some? && row.value.valorCents.None? ==> r.value.valorCents == 0
  {
    match row
    case None => None
    case Some(r) => Some(ToRecord(r))
  }

  /** The row a record describes. */
  function FromRecord(rec: Record): Row {
    Row(rec.id, rec.chale, rec.nome, rec.whatsapp, Some(rec.valorCents),
        rec.pessoas, rec.checkin, rec.checkout, rec.observacoes, rec.status)
  }

  /** `row_to_dict` maps None to None, reads a NULL amount as 0 and loses
      nothing else: it is undone by `FromRecord` on every row whose amount
      is set, and it undoes `FromRecord`. */
  lemma RowToDictRoundTrip(row: Row, rec: Record)
    ensures RowToDict(None) == None
    ensures row.valorCents.None? ==> RowToDict(Some(row)).value.valorCents == 0
    ensures row.valorCents.Some? ==> FromRecord(RowToDict(Some(row)).value) == row
    ensures RowToDict(Some(FromRecord(rec))) == Some(rec)
  {
  }

  // ---------------------------------------------------------------------
  // Table
  // ---------------------------------------------------------------------

  /** `id INTEGER PRIMARY KEY`: no two rows share an id. */
  predicate UniqueIds(table: seq<Row>) {
    forall i, j :: 0 <= i < j < |table| ==> table[i].id != table[j].id
  }

  /** `SELECT * FROM reservations WHERE id = ?` */
  function Find(table: seq<Row>, id: int): (r: Option<Row>)
    ensures r.Some? ==> r.value in table && r.value.id == id
    ensures r.None? ==> forall row :: row in table ==> row.id != id
  {
    if table == [] then None
    else if table[0].id == id then Some(table[0])
    else Find(table[1..], id)
  }

  /** With unique ids the row found is the one row with that id. */
  lemma FindUnique(table: seq<Row>, k: nat)
    requires UniqueIds(table) && k < |table|
    ensures Find(table, table[k].id) == Some(table[k])
  {
    var r := Find(table, table[k].id);
    var j :| 0 <= j < |table| && table[j] == r.value;
    assert j == k;
  }

  // ---------------------------------------------------------------------
  // The month listing
  // ---------------------------------------------------------------------

  /** SQL's three truth values. */
  datatype Truth = True | False | Unknown

  /** `column < ?` on a TEXT column and a text parameter (BINARY collation). */
  function LessThan(column: Option<string>, param: string): Truth {
    match column
    case None => Unknown
    case Some(x) => if LexLt(x, param) then True else False
  }

  /** `column > ?` */
  function GreaterThan(column: Option<string>, param: string): Truth {
    match column
    case None => Unknown
    case Some(x) => if LexLt(param, x) then True else False
  }

  function SqlOr(a: Truth, b: Truth): Truth {
    if a == True || b == True then True
    else if a == Unknown || b == Unknown then Unknown
    else False
  }

  function SqlNot(a: Truth): Truth {
    match a
    case True => False
    case False => True
    case Unknown => Unknown
  }

  /** `WHERE NOT (checkout < ? OR checkin > ?)`: a row is kept only when
      the condition is true, not when it is unknown. */
  predicate InRange(row: Row, from: string, to: string) {
    SqlNot(SqlOr(LessThan(row.checkout, from), GreaterThan(row.checkin, to))) == True
  }

  /** Both dates are set, the stay starts no later than `to` and ends no
      earlier than `from`. */
  predicate StayMeets(row: Row, from: string, to: string) {
    row.checkin.Some? && row.checkout.Some?
    && LexLe(row.checkin.value, to) && LexLe(from, row.checkout.value)
  }

  /** The De Morgan reading of the WHERE clause, NULLs included: a row with
      a missing date is never listed. */
  lemma InRangeIff(row: Row, from: string, to: string)
    ensures InRange(row, from, to) <==> StayMeets(row, from, to)
  {
    if row.checkout.Some? {
      NotLexLe(from, row.checkout.value);
    }
    if row.checkin.Some? {
      NotLexLe(row.checkin.value, to);
    }
  }

  /** The rows the WHERE clause keeps, in table order. */
  function Where(table: seq<Row>, from: string, to: string): (r: seq<Row>)
    ensures forall row :: row in r <==> row in table && InRange(row, from, to)
    ensures forall row :: row in r ==> multiset(r)[row] == multiset(table)[row]
    ensures multiset(r) <= multiset(table)
  {
    if table == [] then []
    else
      assert table == [table[0]] + table[1..];
      (if InRange(table[0], from, to) then [table[0]] else []) + Where(table[1..], from, to)
  }

  // ---------------------------------------------------------------------
  // ORDER BY checkin, chale
  // ---------------------------------------------------------------------

  /** SQLite's ascending order of storage classes: NULL, then numbers, then
      text. */
  function Rank(v: Value): nat {
    match v
    case Null => 0
    case Bool(_) => 1
    case Int(_) => 1
    case Str(_) => 2
  }

  function Number(v: Value): int {
    match v
    case Bool(b) => if b then 1 else 0
    case Int(i) => i
    case _ => 0
  }

  /** Ascending order on one value. */
  predicate ValueLe(a: Value, b: Value) {
    if Rank(a) != Rank(b) then Rank(a) < Rank(b)
    else if Rank(a) == 1 then Number(a) <= Number(b)
    else if Rank(a) == 2 then LexLe(a.s, b.s)
    else true
  }

  /** Ascending order on a TEXT column: NULL first. */
  predicate TextLe(a: Option<string>, b: Option<string>) {
    a.None? || (b.Some? && LexLe(a.value, b.value))
  }

  /** `ORDER BY checkin, chale` */
  predicate KeyLe(x: Row, y: Row) {
    (x.checkin != y.checkin && TextLe(x.checkin, y.checkin))
    || (x.checkin == y.checkin && ValueLe(x.chale, y.chale))
  }

  lemma KeyLeTotal(x: Row, y: Row)
    ensures KeyLe(x, y) || KeyLe(y, x)
  {
    if x.checkin.Some? && y.checkin.Some? {
      LexLeTotal(x.checkin.value, y.checkin.value);
    }
    if Rank(x.chale) == 2 && Rank(y.chale) == 2 {
      LexLeTotal(x.chale.s, y.chale.s);
    }
  }

  lemma TextLeTrans(a: Option<string>, b: Option<string>, c: Option<string>)
    requires TextLe(a, b) && TextLe(b, c)
    ensures TextLe(a, c)
  {
    if a.Some? {
      LexLeTrans(a.value, b.value, c.value);
    }
  }

  lemma TextLeAntisym(a: Option<string>, b: Option<string>)
    requires TextLe(a, b) && TextLe(b, a)
    ensures a == b
  {
    if a.Some? {
      LexLeAntisym(a.value, b.value);
    }
  }

  lemma ValueLeTrans(a: Value, b: Value, c: Value)
    requires ValueLe(a, b) && ValueLe(b, c)
    ensures ValueLe(a, c)
  {
    if Rank(a) == 2 && Rank(b) == 2 && Rank(c) == 2 {
      LexLeTrans(a.s, b.s, c.s);
    }
  }

  lemma KeyLeTrans(x: Row, y: Row, z: Row)
    requires KeyLe(x, y) && KeyLe(y, z)
    ensures KeyLe(x, z)
  {
    if x.checkin == y.checkin && y.checkin == z.checkin {
      ValueLeTrans(x.chale, y.chale, z.chale);
    } else if x.checkin != y.checkin && y.checkin != z.checkin {
      TextLeTrans(x.checkin, y.checkin, z.checkin);
      if x.checkin == z.checkin {
        TextLeAntisym(x.checkin, y.checkin);
      }
    }
  }

  predicate SortedByKey(s: seq<Row>) {
    forall i, j :: 0 <= i < j < |s| ==> KeyLe(s[i], s[j])
  }

  /** Insert x before the first row it does not follow. */
  function InsertByKey(x: Row, s: seq<Row>): seq<Row> {
    if s == [] || KeyLe(x, s[0]) then [x] + s
    else [s[0]] + InsertByKey(x, s[1..])
  }

  /** One ordering SQLite may return; rows with equal keys may come in any
      order, and this model fixes one. */
  function SortByKey(s: seq<Row>): seq<Row> {
    if s == [] then [] else InsertByKey(s[0], SortByKey(s[1..]))
  }

  /** A row placed before a sorted list of rows it precedes keeps the list
      sorted. */
  lemma ConsSortedByKey(h: Row, t: seq<Row>)
    requires SortedByKey(t) && forall i :: 0 <= i < |t| ==> KeyLe(h, t[i])
    ensures SortedByKey([h] + t)
  {
    var u := [h] + t;
    forall i, j | 0 <= i < j < |u| ensures KeyLe(u[i], u[j]) {
      assert u[j] == t[j - 1];
      if i > 0 {
        assert u[i] == t[i - 1];
      }
    }
  }

  /** Inserting a row that `c` precedes into rows that `c` precedes keeps
      `c` before all of them. */
  lemma {:induction false} InsertByKeyBound(c: Row, x: Row, s: seq<Row>)
    requires KeyLe(c, x) && forall i :: 0 <= i < |s| ==> KeyLe(c, s[i])
    ensures forall i :: 0 <= i < |InsertByKey(x, s)| ==> KeyLe(c, InsertByKey(x, s)[i])
  {
    if s != [] && !KeyLe(x, s[0]) {
      InsertByKeyBound(c, x, s[1..]);
    }
  }

  lemma {:induction false} InsertByKeySorted(x: Row, s: seq<Row>)
    requires SortedByKey(s)
    ensures SortedByKey(InsertByKey(x, s))
  {
    if s == [] {
    } else if KeyLe(x, s[0]) {
      forall i | 0 <= i < |s| ensures KeyLe(x, s[i]) {
        if i > 0 {
          KeyLeTrans(x, s[0], s[i]);
        }
      }
      ConsSortedByKey(x, s);
    } else {
      KeyLeTotal(x, s[0]);
      var t := InsertByKey(x, s[1..]);
      InsertByKeySorted(x, s[1..]);
      InsertByKeyBound(s[0], x, s[1..]);
      ConsSortedByKey(s[0], t);
    }
  }

  lemma {:induction false} InsertByKeyPerm(x: Row, s: seq<Row>)
    ensures multiset(InsertByKey(x, s)) == multiset(s) + multiset{x}
  {
    if s != [] && !KeyLe(x, s[0]) {
      assert s == [s[0]] + s[1..];
      InsertByKeyPerm(x, s[1..]);
    }
  }

  /** Inserting into a sorted listing keeps it sorted and adds exactly the
      one row. */
  lemma InsertByKeySpec(x: Row, s: seq<Row>)
    requires SortedByKey(s)
    ensures SortedByKey(InsertByKey(x, s))
    ensures multiset(InsertByKey(x, s)) == multiset(s) + multiset{x}
  {
    InsertByKeySorted(x, s);
    InsertByKeyPerm(x, s);
  }

  /** The listing is ordered by (checkin, chale) and holds exactly the rows
      it was given. */
  lemma {:induction false} SortByKeySpec(s: seq<Row>)
    ensures SortedByKey(SortByKey(s))
    ensures multiset(SortByKey(s)) == multiset(s)
  {
    if s != [] {
      assert s == [s[0]] + s[1..];
      SortByKeySpec(s[1..]);
      InsertByKeySpec(s[0], SortByKey(s[1..]));
    }
  }

  function Records(rows: seq<Row>): (r: seq<Record>)
    ensures |r| == |rows|
    ensures forall i :: 0 <= i < |rows| ==> r[i] == ToRecord(rows[i])
  {
    if rows == [] then [] else [ToRecord(rows[0])] + Records(rows[1..])
  }

  /** The rows `api_list_reservations` selects: the month's rows when both
      `from` and `to` are given and non-empty, every row otherwise. */
  function ListRows(table: seq<Row>, from: Option<string>, to: Option<string>): seq<Row> {
    if from.Some? && from.value != "" && to.Some? && to.value != "" then
      SortByKey(Where(table, from.value, to.value))
    else
      SortByKey(table)
  }

  /** Whether the listing keeps a row: the WHERE clause when both bounds
      are given and non-empty, every row otherwise. */
  predicate Listed(row: Row, from: Option<string>, to: Option<string>) {
    from.Some? && from.value != "" && to.Some? && to.value != "" ==> InRange(row, from.value, to.value)
  }

  /** The listing holds the table's rows the range keeps. */
  lemma ListRowsMembers(table: seq<Row>, from: Option<string>, to: Option<string>)
    ensures forall row :: row in ListRows(table, from, to) <==> row in table && Listed(row, from, to)
  {
    var rows := ListRows(table, from, to);
    if from.Some? && from.value != "" && to.Some? && to.value != "" {
      var w := Where(table, from.value, to.value);
      SortByKeySpec(w);
      forall row ensures row in rows <==> row in w {
        assert row in rows <==> row in multiset(rows);
        assert row in w <==> row in multiset(w);
      }
    } else {
      SortByKeySpec(table);
      forall row ensures row in rows <==> row in table {
        assert row in rows <==> row in multiset(rows);
        assert row in table <==> row in multiset(table);
      }
    }
  }

  /** `GET /api/reservations?from=&to=`: the `row_to_dict` records of
      exactly the table's rows the range keeps. */
  function ListReservations(table: seq<Row>, from: Option<string>, to: Option<string>): (r: seq<Record>)
    ensures forall rec :: rec in r <==> exists row :: row in table && Listed(row, from, to) && rec == ToRecord(row)
  {
    ListRowsMembers(table, from, to);
    Records(ListRows(table, from, to))
  }

  /** The listing for a range returns every row whose stay meets the range,
      each as often as it is stored, and no other, in (checkin, chale)
      order; without a range it returns the whole table in that order. */
  lemma ListSpec(table: seq<Row>, from: string, to: string)
    ensures var rows := ListRows(table, Some(from), Some(to));
            && SortedByKey(rows)
            && (from != "" && to != "" ==> multiset(rows) == multiset(Where(table, from, to)))
            && (from != "" && to != "" ==>
                  forall row :: row in rows <==> (row in table && StayMeets(row, from, to)))
            && (from != "" && to != "" ==>
                  forall row :: row in rows ==> multiset(rows)[row] == multiset(table)[row])
            && (from == "" || to == "" ==> multiset(rows) == multiset(table))
            && |ListReservations(table, Some(from), Some(to))| == |rows|
  {
    var rows := ListRows(table, Some(from), Some(to));
    if from != "" && to != "" {
      var w := Where(table, from, to);
      SortByKeySpec(w);
      forall row ensures row in rows <==> (row in table && StayMeets(row, from, to)) {
        assert row in rows <==> row in multiset(rows);
        assert row in w <==> row in multiset(w);
        InRangeIff(row, from, to);
      }
    } else {
      SortByKeySpec(table);
    }
  }
}
