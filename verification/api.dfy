/** The JSON endpoints of app.py that change or read one reservation:
    create, partial update, get, delete, check-in and checkout. Each maps
    the table (and the request) to the new table and the response; the
    partial update builds its SET list in a loop, so that part is a
    method. */
module Api {
  import opened Wrappers
  import opened Strings
  import opened Values
  import opened Dates
  import opened Money
  import opened Store

  /** The ways a request fails. `ServerError` is an uncaught exception,
      which Flask turns into a 500 page. */
  datatype Failure =
    | MissingDates | BadDateFormat | CheckoutBeforeCheckin
    | NothingToUpdate | NotFound | ServerError

  function Code(f: Failure): nat {
    match f
    case MissingDates => 400
    case BadDateFormat => 400
    case CheckoutBeforeCheckin => 400
    case NothingToUpdate => 400
    case NotFound => 404
    case ServerError => 500
  }

  /** The `error` text of the JSON body; a server error has none, its
      answer being Flask's error page. */
  function Message(f: Failure): (r: string)
    ensures r == "" <==> f == ServerError
  {
    match f
    case MissingDates => "checkin e checkout s\U{00E3}o obrigat\U{00F3}rios"
    case BadDateFormat => "datas com formato inv\U{00E1}lido (use YYYY-MM-DD)"
    case CheckoutBeforeCheckin => "checkout deve ser igual ou posterior ao checkin"
    case NothingToUpdate => "nenhum campo para atualizar"
    case NotFound => "not found"
    case ServerError => ""
  }

  datatype Body = Error(failure: Failure) | One(record: Record) | Success

  datatype Response = Response(code: nat, body: Body)

  /** The table after the request, and the response. */
  datatype Outcome = Outcome(table: seq<Row>, response: Response)

  function Fail(table: seq<Row>, f: Failure): Outcome {
    Outcome(table, Response(Code(f), Error(f)))
  }

  // ---------------------------------------------------------------------
  // Date validation
  // ---------------------------------------------------------------------

  /** How the dates are parsed: Python's `strptime(s, '%Y-%m-%d')`, as
      app.py does, or the RFC 3339 full-date its error message asks for. */
  datatype DateFormat = PyStrptime | FullDate

  function ParseDay(v: Value, format: DateFormat): (r: Option<Date>)
    ensures r.Some? ==> v.Str? && Dates.Valid(r.value)
  {
    match v
    case Str(s) => (match format case PyStrptime => Strptime(s) case FullDate => ParseFullDate(s))
    case _ => None
  }

  /** The `try: strptime ... except` block and the order test after it;
      a non-string date raises TypeError, which the block also catches. */
  function CheckDates(checkin: Value, checkout: Value, format: DateFormat): (r: Option<Failure>)
    ensures r.None? || r == Some(BadDateFormat) || r == Some(CheckoutBeforeCheckin)
    ensures r == Some(BadDateFormat) <==> ParseDay(checkin, format).None? || ParseDay(checkout, format).None?
    ensures r == Some(CheckoutBeforeCheckin) <==>
              && ParseDay(checkin, format).Some? && ParseDay(checkout, format).Some?
              && Before(ParseDay(checkout, format).value, ParseDay(checkin, format).value)
    ensures r.None? ==>
              && ParseDay(checkin, format).Some? && ParseDay(checkout, format).Some?
              && !Before(ParseDay(checkout, format).value, ParseDay(checkin, format).value)
  {
    match (ParseDay(checkin, format), ParseDay(checkout, format))
    case (Some(dci), Some(dco)) => if Before(dco, dci) then Some(CheckoutBeforeCheckin) else None
    case _ => Some(BadDateFormat)
  }

  // ---------------------------------------------------------------------
  // Create
  // ---------------------------------------------------------------------

  /** `payload.get(key, '').strip()`: a missing key reads as empty, a present
      non-string raises. */
  function StripField(p: Payload, key: string): Option<string> {
    if key in p then PyStrip(p[key]) else Some("")
  }

  /** `POST /api/reservations` with the body `p`, as app.py writes it. The
      database assigns `nextId`, larger than every id used so far. */
  function CreateReservation(table: seq<Row>, nextId: int, p: Payload): (out: Outcome)
    ensures out.response.code != 201 ==> out.table == table
    ensures out.response.code == 201 ==>
              && |out.table| == |table| + 1 && out.table[..|table|] == table
              && StoredRow(out.table[|table|], nextId, p)
  {
    CreateWith(table, nextId, p, PyStrptime)
  }

  /** The create handler parsing the dates as the YYYY-MM-DD its error
      message asks for (the RFC 3339 full-date), which is what the listing's
      text comparison needs. */
  function CreateReservationChecked(table: seq<Row>, nextId: int, p: Payload): Outcome {
    CreateWith(table, nextId, p, FullDate)
  }

  /** The create handler with the given date parser. */
  function CreateWith(table: seq<Row>, nextId: int, p: Payload, format: DateFormat): Outcome {
    var chale := PyInt(Or(Get(p, "chale"), Int(1)));
    var nome := StripField(p, "nome");
    var whatsapp := PyStrip(Or(Get(p, "whatsapp"), Str("")));
    var valor := Get(p, "valor");
    var pessoas := PyInt(Or(Get(p, "pessoas"), Int(2)));
    var checkin := Get(p, "checkin");
    var checkout := Get(p, "checkout");
    var observacoes := StripField(p, "observacoes");
    if chale.None? || nome.None? || whatsapp.None? || pessoas.None? || observacoes.None? then
      Fail(table, ServerError)
    else if !Truthy(checkin) || !Truthy(checkout) then
      Fail(table, MissingDates)
    else match CheckDates(checkin, checkout, format)
      case Some(f) => Fail(table, f)
      case None =>
        var cents := ValorToCents(valor);
        if !FitsInt64(chale.value) || !FitsInt64(pessoas.value) || !FitsInt64(cents) then
          Fail(table, ServerError)
        else
          var row := Row(nextId, Int(chale.value), Str(nome.value), Str(whatsapp.value),
                         Some(cents), Int(pessoas.value),
                         Some(checkin.s), Some(checkout.s), Str(observacoes.value), Str("reservado"));
          Outcome(table + [row], Response(201, One(ToRecord(row))))
  }

  /** Every field create converts does so without raising. */
  predicate Converted(p: Payload) {
    && PyInt(Or(Get(p, "chale"), Int(1))).Some?
    && PyInt(Or(Get(p, "pessoas"), Int(2))).Some?
    && StripField(p, "nome").Some? && StripField(p, "observacoes").Some?
    && PyStrip(Or(Get(p, "whatsapp"), Str(""))).Some?
  }

  /** The integers create binds fit SQLite's 64 bits: the cabin, the
      guests and the cents. */
  predicate Storable(p: Payload) {
    && (PyInt(Or(Get(p, "chale"), Int(1))).Some? ==> FitsInt64(PyInt(Or(Get(p, "chale"), Int(1))).value))
    && (PyInt(Or(Get(p, "pessoas"), Int(2))).Some? ==> FitsInt64(PyInt(Or(Get(p, "pessoas"), Int(2))).value))
    && FitsInt64(ValorToCents(Get(p, "valor")))
  }

  /** The row create stores for the body `p` under the id `nextId`: the
      cabin and the guest count as `int` reads them, 1 and 2 when missing
      or falsy; the name and the notes stripped, "" when missing; the phone
      stripped, "" when missing or falsy; the dates as sent; the amount
      `valor_to_cents` reads; status 'reservado'. */
  predicate StoredRow(row: Row, nextId: int, p: Payload) {
    && row.id == nextId
    && (Truthy(Get(p, "chale")) ==> PyInt(Get(p, "chale")).Some? && row.chale == Int(PyInt(Get(p, "chale")).value))
    && (!Truthy(Get(p, "chale")) ==> row.chale == Int(1))
    && (Truthy(Get(p, "pessoas")) ==> PyInt(Get(p, "pessoas")).Some? && row.pessoas == Int(PyInt(Get(p, "pessoas")).value))
    && (!Truthy(Get(p, "pessoas")) ==> row.pessoas == Int(2))
    && ("nome" in p ==> p["nome"].Str? && row.nome == Str(Trim(p["nome"].s)))
    && ("nome" !in p ==> row.nome == Str(""))
    && (Truthy(Get(p, "whatsapp")) ==> Get(p, "whatsapp").Str? && row.whatsapp == Str(Trim(Get(p, "whatsapp").s)))
    && (!Truthy(Get(p, "whatsapp")) ==> row.whatsapp == Str(""))
    && ("observacoes" in p ==> p["observacoes"].Str? && row.observacoes == Str(Trim(p["observacoes"].s)))
    && ("observacoes" !in p ==> row.observacoes == Str(""))
    && Get(p, "checkin").Str? && row.checkin == Some(Get(p, "checkin").s)
    && Get(p, "checkout").Str? && row.checkout == Some(Get(p, "checkout").s)
    && row.valorCents == Some(ValorToCents(Get(p, "valor")))
    && row.status == Str("reservado")
  }

  /** Both dates are sent, parse, and the check-out is not before the
      check-in. */
  predicate DatesAccepted(ci: Value, co: Value, format: DateFormat) {
    && Truthy(ci) && Truthy(co)
    && ParseDay(ci, format).Some? && ParseDay(co, format).Some?
    && !Before(ParseDay(co, format).value, ParseDay(ci, format).value)
  }

  /** What create does, in the order app.py checks it: a field it cannot
      convert is a server error; then missing dates, a date it cannot parse
      and a check-out before the check-in are 400s, none of which touches
      the table; an integer wider than 64 bits is a server error again;
      otherwise one row is added, the `StoredRow` of the body under the
      next id, and answered. */
  lemma CreateSpec(table: seq<Row>, nextId: int, p: Payload, format: DateFormat)
    requires UniqueIds(table) && forall row :: row in table ==> row.id < nextId
    ensures var out := CreateWith(table, nextId, p, format);
            var ci := Get(p, "checkin");
            var co := Get(p, "checkout");
            var dci := ParseDay(ci, format);
            var dco := ParseDay(co, format);
            && (out.response.code != 201 ==> out.table == table)
            && (!Converted(p) ==> out.response == Response(500, Error(ServerError)))
            && (Converted(p) && !(Truthy(ci) && Truthy(co)) ==>
                  out.response == Response(400, Error(MissingDates)))
            && (Converted(p) && Truthy(ci) && Truthy(co) && (dci.None? || dco.None?) ==>
                  out.response == Response(400, Error(BadDateFormat)))
            && (Converted(p) && Truthy(ci) && Truthy(co) && dci.Some? && dco.Some? && Before(dco.value, dci.value) ==>
                  out.response == Response(400, Error(CheckoutBeforeCheckin)))
            && (Converted(p) && DatesAccepted(ci, co, format) && !Storable(p) ==>
                  out.response == Response(500, Error(ServerError)))
            && (Converted(p) && DatesAccepted(ci, co, format) && Storable(p) ==> out.response.code == 201)
            && (out.response.code == 201 ==>
                  && Converted(p) && DatesAccepted(ci, co, format) && Storable(p)
                  && |out.table| == |table| + 1 && out.table[..|table|] == table
                  && UniqueIds(out.table)
                  && StoredRow(out.table[|table|], nextId, p)
                  && out.response.body == One(ToRecord(out.table[|table|])))
  {
    var out := CreateWith(table, nextId, p, format);
    if out.response.code == 201 {
      var t := out.table;
      assert t[..|table|] == table;
      forall i, j | 0 <= i < j < |t| ensures t[i].id != t[j].id {
        if j == |table| {
          assert t[i] in table;
        }
      }
    }
  }

  // ---------------------------------------------------------------------
  // Partial update
  // ---------------------------------------------------------------------

  /** The payload keys the update copies into columns, in this order. */
  const UpdateKeys: seq<string> :=
    ["chale", "nome", "whatsapp", "pessoas", "checkin", "checkout", "observacoes", "status"]

  /** The keys of `keys` present in the payload, in order. */
  function Present(keys: seq<string>, p: Payload): seq<string> {
    if keys == [] then []
    else Present(keys[..|keys| - 1], p) + (if keys[|keys| - 1] in p then [keys[|keys| - 1]] else [])
  }

  /** Present keeps exactly the keys the payload has, and no more of them. */
  lemma {:induction false} PresentMembers(keys: seq<string>, p: Payload)
    ensures |Present(keys, p)| <= |keys|
    ensures forall k :: k in Present(keys, p) <==> k in keys && k in p
  {
    if keys != [] {
      var init := keys[..|keys| - 1];
      var last := keys[|keys| - 1];
      assert keys == init + [last];
      PresentMembers(init, p);
    }
  }

  /** The columns the UPDATE sets: the present keys, then `valor_cents`
      when an amount was sent. */
  function SetColumns(p: Payload, valorCents: Option<int>): seq<string> {
    Present(UpdateKeys, p) + (if valorCents.Some? then ["valor_cents"] else [])
  }

  /** The value bound for a column: the payload's own value, or the cents. */
  function Bound(p: Payload, valorCents: Option<int>, column: string): Value {
    if column == "valor_cents" then Int(valorCents.GetOr(0)) else Get(p, column)
  }

  /** One item of the SET list: `column = ?`. */
  function Placeholder(column: string): string {
    column + " = ?"
  }

  /** Present grows by one key at a time. */
  lemma PresentSnoc(keys: seq<string>, key: string, p: Payload)
    ensures Present(keys + [key], p) == Present(keys, p) + (if key in p then [key] else [])
  {
    var ks := keys + [key];
    assert ks[..|ks| - 1] == keys;
  }

  /** The `for key in (...)` loop of `api_update_reservation`, over the
      given keys: one `key = ?` and one bound value per key present in the
      payload, in the order of the keys. */
  method CollectKeys(keys: seq<string>, p: Payload) returns (fields: seq<string>, params: seq<Value>)
    ensures |fields| == |params| == |Present(keys, p)|
    ensures forall i :: 0 <= i < |fields| ==>
              fields[i] == Placeholder(Present(keys, p)[i]) && params[i] == Get(p, Present(keys, p)[i])
  {
    fields := [];
    params := [];
    ghost var cols: seq<string> := [];
    var k := 0;
    while k < |keys|
      invariant 0 <= k <= |keys|
      invariant cols == Present(keys[..k], p)
      invariant |fields| == |params| == |cols|
      invariant forall i :: 0 <= i < |cols| ==> fields[i] == Placeholder(cols[i]) && params[i] == Get(p, cols[i])
    {
      var key := keys[k];
      assert Present(keys[..k + 1], p) == cols + (if key in p then [key] else []) by {
        assert keys[..k + 1] == keys[..k] + [key];
        PresentSnoc(keys[..k], key, p);
      }
      if key in p {
        fields := fields + [Placeholder(key)];
        params := params + [Get(p, key)];
        cols := cols + [key];
      }
      k := k + 1;
    }
    assert keys[..k] == keys;
  }

  /** The amount's column is not one of the payload keys. */
  lemma ValorNotKey(p: Payload, valorCents: Option<int>)
    ensures forall k :: k in Present(UpdateKeys, p) ==> Bound(p, valorCents, k) == Get(p, k)
  {
    PresentMembers(UpdateKeys, p);
    assert "valor_cents" !in UpdateKeys;
  }

  /** The field list of `api_update_reservation`: the loop, the amount,
      and the `params.append(res_id)` when there is something to set. */
  method BuildUpdate(p: Payload, valorCents: Option<int>, resId: int)
    returns (fields: seq<string>, params: seq<Value>)
    ensures |fields| == |SetColumns(p, valorCents)|
    ensures forall i :: 0 <= i < |fields| ==> fields[i] == Placeholder(SetColumns(p, valorCents)[i])
    ensures fields == [] ==> params == []
    ensures fields != [] ==> |params| == |fields| + 1 && params[|fields|] == Int(resId)
    ensures forall i :: 0 <= i < |fields| ==> params[i] == Bound(p, valorCents, SetColumns(p, valorCents)[i])
  {
    fields, params := CollectKeys(UpdateKeys, p);
    ghost var cols := Present(UpdateKeys, p);
    ValorNotKey(p, valorCents);
    assert forall i :: 0 <= i < |cols| ==> params[i] == Bound(p, valorCents, cols[i]);
    if valorCents.Some? {
      fields := fields + [Placeholder("valor_cents")];
      params := params + [Int(valorCents.value)];
      cols := cols + ["valor_cents"];
    }
    assert cols == SetColumns(p, valorCents);
    if fields != [] {
      params := params + [Int(resId)];
    }
  }

  /** `SET column = ?` on one row. */
  function Assign(row: Row, column: string, v: Value): Row {
    match column
    case "chale" => row.(chale := v)
    case "nome" => row.(nome := TextColumn(v))
    case "whatsapp" => row.(whatsapp := TextColumn(v))
    case "pessoas" => row.(pessoas := v)
    case "checkin" => row.(checkin := TextAffinity(v))
    case "checkout" => row.(checkout := TextAffinity(v))
    case "observacoes" => row.(observacoes := TextColumn(v))
    case "status" => row.(status := TextColumn(v))
    case "valor_cents" => row.(valorCents := Some(Number(v)))
    case _ => row
  }

  /** Carrying out a SET list left to right. */
  function AssignAll(row: Row, columns: seq<string>, values: seq<Value>): Row
    requires |columns| <= |values|
  {
    if columns == [] then row
    else Assign(AssignAll(row, columns[..|columns| - 1], values), columns[|columns| - 1], values[|columns| - 1])
  }

  /** The row after a partial update, column by column: a column named in
      the payload takes the payload's value (as text in the TEXT columns
      nome, whatsapp, checkin, checkout, observacoes and status),
      `valor_cents` takes the cents
      when an amount was sent, every other column keeps its value. */
  function UpdateRow(row: Row, p: Payload, valorCents: Option<int>): Row {
    Row(row.id,
        if "chale" in p then p["chale"] else row.chale,
        if "nome" in p then TextColumn(p["nome"]) else row.nome,
        if "whatsapp" in p then TextColumn(p["whatsapp"]) else row.whatsapp,
        if valorCents.Some? then valorCents else row.valorCents,
        if "pessoas" in p then p["pessoas"] else row.pessoas,
        if "checkin" in p then TextAffinity(p["checkin"]) else row.checkin,
        if "checkout" in p then TextAffinity(p["checkout"]) else row.checkout,
        if "observacoes" in p then TextColumn(p["observacoes"]) else row.observacoes,
        if "status" in p then TextColumn(p["status"]) else row.status)
  }

  /** Assigning one key of the payload, when it is present. */
  function Step(row: Row, p: Payload, key: string): Row {
    if key in p then Assign(row, key, Get(p, key)) else row
  }

  /** Assigning the present keys of a list of keys, in order. */
  function AssignKeys(row: Row, p: Payload, keys: seq<string>): Row {
    if keys == [] then row
    else Step(AssignKeys(row, p, keys[..|keys| - 1]), p, keys[|keys| - 1])
  }

  lemma AssignKeysSnoc(row: Row, p: Payload, keys: seq<string>, key: string)
    ensures AssignKeys(row, p, keys + [key]) == Step(AssignKeys(row, p, keys), p, key)
  {
    var ks := keys + [key];
    assert ks[..|ks| - 1] == keys;
  }

  lemma {:induction false} AssignAllPresent(row: Row, p: Payload, keys: seq<string>, values: seq<Value>)
    requires |Present(keys, p)| <= |values|
    requires forall i :: 0 <= i < |Present(keys, p)| ==> values[i] == Get(p, Present(keys, p)[i])
    ensures AssignAll(row, Present(keys, p), values) == AssignKeys(row, p, keys)
    decreases |keys|
  {
    if keys != [] {
      var init := keys[..|keys| - 1];
      var last := keys[|keys| - 1];
      var pre := Present(init, p);
      assert |pre| <= |Present(keys, p)|;
      forall i | 0 <= i < |pre| ensures values[i] == Get(p, pre[i]) {
        assert Present(keys, p)[i] == pre[i];
      }
      AssignAllPresent(row, p, init, values);
      if last in p {
        var cols := Present(keys, p);
        assert cols == pre + [last];
        assert cols[..|cols| - 1] == pre;
      } else {
        assert Present(keys, p) == pre;
      }
    }
  }

  /** The SET list the handler builds, carried out on a row, is the
      column-by-column update. */
  lemma SetListMeansUpdate(row: Row, p: Payload, valorCents: Option<int>, values: seq<Value>)
    requires |SetColumns(p, valorCents)| <= |values|
    requires forall i :: 0 <= i < |SetColumns(p, valorCents)| ==>
               values[i] == Bound(p, valorCents, SetColumns(p, valorCents)[i])
    ensures AssignAll(row, SetColumns(p, valorCents), values) == UpdateRow(row, p, valorCents)
  {
    var pre := Present(UpdateKeys, p);
    var cols := SetColumns(p, valorCents);
    ValorNotKey(p, valorCents);
    forall i | 0 <= i < |pre| ensures values[i] == Get(p, pre[i]) {
      assert cols[i] == pre[i];
    }
    KeysMeanUpdate(row, p, values);
    if valorCents.Some? {
      assert cols[..|cols| - 1] == pre && cols[|cols| - 1] == "valor_cents";
      assert values[|pre|] == Int(valorCents.value);
      SetAmount(row, p, valorCents.value);
    } else {
      assert cols == pre;
    }
  }

  /** The keys part of the SET list. */
  lemma KeysMeanUpdate(row: Row, p: Payload, values: seq<Value>)
    requires |Present(UpdateKeys, p)| <= |values|
    requires forall i :: 0 <= i < |Present(UpdateKeys, p)| ==> values[i] == Get(p, Present(UpdateKeys, p)[i])
    ensures AssignAll(row, Present(UpdateKeys, p), values) == UpdateRow(row, p, None)
  {
    AssignAllPresent(row, p, UpdateKeys, values);
    AssignKeysUpdateKeys(row, p);
  }

  /** `valor_cents = ?` after the keys. */
  lemma SetAmount(row: Row, p: Payload, cents: int)
    ensures Assign(UpdateRow(row, p, None), "valor_cents", Int(cents)) == UpdateRow(row, p, Some(cents))
  {
  }

  /** The eight keys assigned in turn touch one column each. */
  lemma AssignKeysUpdateKeys(row: Row, p: Payload)
    ensures AssignKeys(row, p, UpdateKeys) == UpdateRow(row, p, None)
  {
    AssignKeysUnrolled(row, p);
    StepsMeanUpdate(row, p);
  }

  /** The eight steps, one after the other. */
  function EightSteps(row: Row, p: Payload): Row {
    var r1 := Step(row, p, "chale");
    var r2 := Step(r1, p, "nome");
    var r3 := Step(r2, p, "whatsapp");
    var r4 := Step(r3, p, "pessoas");
    var r5 := Step(r4, p, "checkin");
    var r6 := Step(r5, p, "checkout");
    var r7 := Step(r6, p, "observacoes");
    Step(r7, p, "status")
  }

  lemma StepsMeanUpdate(row: Row, p: Payload)
    ensures EightSteps(row, p) == UpdateRow(row, p, None)
  {
    var r1 := Step(row, p, "chale");
    var r2 := Step(r1, p, "nome");
    var r3 := Step(r2, p, "whatsapp");
    var r4 := Step(r3, p, "pessoas");
    assert r4 == row.(chale := UpdateRow(row, p, None).chale, nome := UpdateRow(row, p, None).nome,
                      whatsapp := UpdateRow(row, p, None).whatsapp, pessoas := UpdateRow(row, p, None).pessoas);
  }

  lemma AssignKeysUnrolled(row: Row, p: Payload)
    ensures AssignKeys(row, p, UpdateKeys) == EightSteps(row, p)
  {
    var k := UpdateKeys;
    var r1 := Step(row, p, "chale");
    var r2 := Step(r1, p, "nome");
    var r3 := Step(r2, p, "whatsapp");
    var r4 := Step(r3, p, "pessoas");
    var r5 := Step(r4, p, "checkin");
    var r6 := Step(r5, p, "checkout");
    var r7 := Step(r6, p, "observacoes");
    assert AssignKeys(row, p, k[..1]) == r1 by {
      AssignKeysSnoc(row, p, [], "chale");
      assert k[..1] == [] + ["chale"];
    }
    assert AssignKeys(row, p, k[..2]) == r2 by {
      AssignKeysSnoc(row, p, k[..1], "nome");
      assert k[..2] == k[..1] + ["nome"];
    }
    assert AssignKeys(row, p, k[..3]) == r3 by {
      AssignKeysSnoc(row, p, k[..2], "whatsapp");
      assert k[..3] == k[..2] + ["whatsapp"];
    }
    assert AssignKeys(row, p, k[..4]) == r4 by {
      AssignKeysSnoc(row, p, k[..3], "pessoas");
      assert k[..4] == k[..3] + ["pessoas"];
    }
    assert AssignKeys(row, p, k[..5]) == r5 by {
      AssignKeysSnoc(row, p, k[..4], "checkin");
      assert k[..5] == k[..4] + ["checkin"];
    }
    assert AssignKeys(row, p, k[..6]) == r6 by {
      AssignKeysSnoc(row, p, k[..5], "checkout");
      assert k[..6] == k[..5] + ["checkout"];
    }
    assert AssignKeys(row, p, k[..7]) == r7 by {
      AssignKeysSnoc(row, p, k[..6], "observacoes");
      assert k[..7] == k[..6] + ["observacoes"];
    }
    AssignKeysSnoc(row, p, k[..7], "status");
    assert k == k[..7] + ["status"];
  }

  /** `UPDATE reservations SET ... WHERE id = ?`: `f` applied to the rows
      with that id. */
  function UpdateWhereId(table: seq<Row>, id: int, f: Row -> Row): (r: seq<Row>)
    ensures |r| == |table|
    ensures forall i :: 0 <= i < |table| ==> r[i] == if table[i].id == id then f(table[i]) else table[i]
  {
    if table == [] then [] else
      [if table[0].id == id then f(table[0]) else table[0]] + UpdateWhereId(table[1..], id, f)
  }

  /** The amount the update writes: none when `valor` is missing or null. */
  function UpdateCents(p: Payload): Option<int> {
    if Get(p, "valor") != Null then Some(ValorToCents(Get(p, "valor"))) else None
  }

  /** The fetch after a write: 404 when no row has the id. */
  function Reply(table: seq<Row>, id: int): Outcome {
    match Find(table, id)
    case None => Fail(table, NotFound)
    case Some(row) => Outcome(table, Response(200, One(ToRecord(row))))
  }

  /** No column key and no amount in the payload. */
  predicate NoField(p: Payload) {
    (forall k :: k in UpdateKeys ==> k !in p) && Get(p, "valor") == Null
  }

  /** Every value the UPDATE binds fits SQLite's 64 bits: the payload's
      values for the known keys, the cents, and the id. */
  predicate UpdateBindable(p: Payload, id: int) {
    && (forall k :: k in UpdateKeys && k in p ==> Bindable(p[k]))
    && (UpdateCents(p).Some? ==> FitsInt64(UpdateCents(p).value))
    && FitsInt64(id)
  }

  /** The UPDATE writes NULL into the `NOT NULL` cabin column of a row:
      the payload sets the cabin to null and some row has the id. With no
      such row the statement writes nothing and SQLite refuses nothing. */
  predicate WritesNullCabin(table: seq<Row>, p: Payload, id: int) {
    "chale" in p && p["chale"] == Null && exists row :: row in table && row.id == id
  }

  /** The UPDATE succeeds in the database: its values can be bound and it
      does not write NULL into the cabin of a stored row. */
  predicate UpdateStorable(table: seq<Row>, p: Payload, id: int) {
    UpdateBindable(p, id) && !WritesNullCabin(table, p, id)
  }

  /** Every parameter of a statement can be bound. */
  predicate AllBindable(params: seq<Value>) {
    forall i :: 0 <= i < |params| ==> Bindable(params[i])
  }

  /** The parameters `BuildUpdate` produces can all be bound exactly when
      the payload's values, the cents and the id fit. */
  lemma ParamsBindable(p: Payload, id: int, params: seq<Value>)
    requires |params| == |SetColumns(p, UpdateCents(p))| + 1 && params[|params| - 1] == Int(id)
    requires forall i :: 0 <= i < |SetColumns(p, UpdateCents(p))| ==>
               params[i] == Bound(p, UpdateCents(p), SetColumns(p, UpdateCents(p))[i])
    ensures AllBindable(params) <==> UpdateBindable(p, id)
  {
    if AllBindable(params) {
      BindableFromParams(p, id, params);
    }
    if UpdateBindable(p, id) {
      ParamsFromBindable(p, id, params);
    }
  }

  lemma BindableFromParams(p: Payload, id: int, params: seq<Value>)
    requires |params| == |SetColumns(p, UpdateCents(p))| + 1 && params[|params| - 1] == Int(id)
    requires forall i :: 0 <= i < |SetColumns(p, UpdateCents(p))| ==>
               params[i] == Bound(p, UpdateCents(p), SetColumns(p, UpdateCents(p))[i])
    requires AllBindable(params)
    ensures UpdateBindable(p, id)
  {
    var vc := UpdateCents(p);
    var pre := Present(UpdateKeys, p);
    var cols := SetColumns(p, vc);
    PresentMembers(UpdateKeys, p);
    forall k | k in UpdateKeys && k in p ensures Bindable(p[k]) {
      var i :| 0 <= i < |pre| && pre[i] == k;
      assert cols[i] == k && k != "valor_cents";
      assert Bindable(params[i]);
    }
    if vc.Some? {
      assert cols[|pre|] == "valor_cents";
      assert Bindable(params[|pre|]);
    }
    assert Bindable(params[|params| - 1]);
  }

  lemma ParamsFromBindable(p: Payload, id: int, params: seq<Value>)
    requires |params| == |SetColumns(p, UpdateCents(p))| + 1 && params[|params| - 1] == Int(id)
    requires forall i :: 0 <= i < |SetColumns(p, UpdateCents(p))| ==>
               params[i] == Bound(p, UpdateCents(p), SetColumns(p, UpdateCents(p))[i])
    requires UpdateBindable(p, id)
    ensures AllBindable(params)
  {
    var vc := UpdateCents(p);
    var pre := Present(UpdateKeys, p);
    var cols := SetColumns(p, vc);
    PresentMembers(UpdateKeys, p);
    forall i | 0 <= i < |params| ensures Bindable(params[i]) {
      if i < |pre| {
        assert cols[i] == pre[i] && pre[i] in pre;
        assert pre[i] != "valor_cents";
      } else if i < |cols| {
        assert cols[i] == "valor_cents";
      }
    }
  }

  /** `PUT /api/reservations/<id>`, specified column by column. */
  function UpdateOutcome(table: seq<Row>, id: int, p: Payload, format: DateFormat): Outcome {
    var ci := Get(p, "checkin");
    var co := Get(p, "checkout");
    if Truthy(ci) && Truthy(co) && CheckDates(ci, co, format).Some? then
      Fail(table, CheckDates(ci, co, format).value)
    else if SetColumns(p, UpdateCents(p)) == [] then
      Fail(table, NothingToUpdate)
    else if !UpdateStorable(table, p, id) then
      Fail(table, ServerError)
    else
      Reply(UpdatedTable(table, id, p), id)
  }

  /** The table after the UPDATE of an accepted payload. */
  function UpdatedTable(table: seq<Row>, id: int, p: Payload): seq<Row> {
    UpdateWhereId(table, id, r => UpdateRow(r, p, UpdateCents(p)))
  }

  /** `PUT /api/reservations/<id>` as app.py runs it: build the SET list,
      execute it on the rows with the id, fetch the row. */
  method UpdateReservation(table: seq<Row>, id: int, p: Payload) returns (out: Outcome)
    ensures out == UpdateOutcome(table, id, p, PyStrptime)
  {
    var ci := Get(p, "checkin");
    var co := Get(p, "checkout");
    if Truthy(ci) && Truthy(co) {
      var failure := CheckDates(ci, co, PyStrptime);
      if failure.Some? {
        return Fail(table, failure.value);
      }
    }
    var valorCents := UpdateCents(p);
    var fields, params := BuildUpdate(p, valorCents, id);
    if fields == [] {
      return Fail(table, NothingToUpdate);
    }
    ParamsBindable(p, id, params);
    if !AllBindable(params) || ("chale" in p && p["chale"] == Null && Find(table, id).Some?) {
      return Fail(table, ServerError);
    }
    var columns := SetColumns(p, valorCents);
    forall row: Row ensures AssignAll(row, columns, params) == UpdateRow(row, p, valorCents) {
      SetListMeansUpdate(row, p, valorCents, params);
    }
    var updated := UpdateWhereId(table, id, r => AssignAll(r, columns, params));
    assert updated == UpdatedTable(table, id, p);
    out := Reply(updated, id);
  }

  /** The dates of an update pass: both are sent and accepted, or they are
      not both sent (and so not checked). */
  predicate UpdateDatesPass(p: Payload, format: DateFormat) {
    Truthy(Get(p, "checkin")) && Truthy(Get(p, "checkout")) ==>
      CheckDates(Get(p, "checkin"), Get(p, "checkout"), format).None?
  }

  /** What update does: when both dates are sent they are checked as on
      create, and only then, a bad pair being refused with its 400; with no
      known key and no amount it answers 400 "nenhum campo"; a bound integer
      wider than 64 bits, or a null cabin written into a row that has the
      id, is a server error; otherwise it rewrites the named columns of the
      row with that id, leaves every other row alone, and answers 404 when
      there is no such row. A payload with only one of the dates is never
      order-checked. */
  lemma UpdateSpec(table: seq<Row>, id: int, p: Payload, format: DateFormat)
    ensures var out := UpdateOutcome(table, id, p, format);
            var ci := Get(p, "checkin");
            var co := Get(p, "checkout");
            && (out.response.code == 400 || out.response.code == 500 ==> out.table == table)
            && (Truthy(ci) && Truthy(co) && CheckDates(ci, co, format).Some? ==>
                  out == Fail(table, CheckDates(ci, co, format).value))
            && (!(Truthy(ci) && Truthy(co)) ==> out.response.body != Error(CheckoutBeforeCheckin)
                                                && out.response.body != Error(BadDateFormat))
            && (UpdateDatesPass(p, format) ==>
                  && (out.response.body == Error(NothingToUpdate) <==> NoField(p))
                  && (!NoField(p) && !UpdateStorable(table, p, id) ==> out == Fail(table, ServerError)))
            && (out.response.code == 200 || out.response.code == 404 ==>
                  && UpdateStorable(table, p, id)
                  && |out.table| == |table|
                  && (forall i :: 0 <= i < |table| && table[i].id != id ==> out.table[i] == table[i])
                  && (forall i :: 0 <= i < |table| && table[i].id == id ==>
                        out.table[i] == UpdateRow(table[i], p, UpdateCents(p)))
                  && (out.response.code == 404 <==> forall row :: row in table ==> row.id != id))
            && (UpdateDatesPass(p, format) && !NoField(p) && UpdateStorable(table, p, id) ==>
                  && out == Reply(UpdatedTable(table, id, p), id)
                  && (out.response.code == 200 || out.response.code == 404))
            && (out.response.code == 500 ==> UpdateDatesPass(p, format) && !NoField(p) && !UpdateStorable(table, p, id))
  {
    UpdateRefusals(table, id, p, format);
    UpdateWrites(table, id, p, format);
    UpdateAccepted(table, id, p, format);
  }

  /** An update whose dates pass, that names a field, whose integers fit
      and that does not null the cabin of a stored row is carried out and
      answered by the fetch; a server error comes only from such an update
      whose integers do not fit or that nulls a stored row's cabin. */
  lemma UpdateAccepted(table: seq<Row>, id: int, p: Payload, format: DateFormat)
    ensures var out := UpdateOutcome(table, id, p, format);
            && (UpdateDatesPass(p, format) && !NoField(p) && UpdateStorable(table, p, id) ==>
                  && out == Reply(UpdatedTable(table, id, p), id)
                  && (out.response.code == 200 || out.response.code == 404))
            && (out.response.code == 500 ==> UpdateDatesPass(p, format) && !NoField(p) && !UpdateStorable(table, p, id))
  {
    NoFieldIff(p);
    var ci := Get(p, "checkin");
    var co := Get(p, "checkout");
    if Truthy(ci) && Truthy(co) && CheckDates(ci, co, format).Some? {
      var e := CheckDates(ci, co, format).value;
      assert e == BadDateFormat || e == CheckoutBeforeCheckin;
      assert Code(e) == 400;
    }
  }

  /** A null cabin for an id that no row has writes nothing, so nothing is
      refused: the answer is the fetch's 404 and the table is unchanged. */
  lemma NullCabinOnAbsentId(table: seq<Row>, id: int, p: Payload, format: DateFormat)
    requires UpdateDatesPass(p, format) && UpdateBindable(p, id)
    requires "chale" in p && p["chale"] == Null
    requires forall row :: row in table ==> row.id != id
    ensures UpdateOutcome(table, id, p, format) == Fail(table, NotFound)
  {
    NoFieldIff(p);
    var t := UpdatedTable(table, id, p);
    assert t == table by {
      forall i | 0 <= i < |table| ensures t[i] == table[i] {
        assert table[i] in table;
      }
    }
    if Truthy(Get(p, "checkin")) && Truthy(Get(p, "checkout")) {
      assert CheckDates(Get(p, "checkin"), Get(p, "checkout"), format).None?;
    }
  }

  /** The answers of update that leave the table alone. */
  lemma UpdateRefusals(table: seq<Row>, id: int, p: Payload, format: DateFormat)
    ensures var out := UpdateOutcome(table, id, p, format);
            var ci := Get(p, "checkin");
            var co := Get(p, "checkout");
            && (out.response.code == 400 || out.response.code == 500 ==> out.table == table)
            && (Truthy(ci) && Truthy(co) && CheckDates(ci, co, format).Some? ==>
                  out == Fail(table, CheckDates(ci, co, format).value))
            && (!(Truthy(ci) && Truthy(co)) ==> out.response.body != Error(CheckoutBeforeCheckin)
                                                && out.response.body != Error(BadDateFormat))
            && (UpdateDatesPass(p, format) ==>
                  && (out.response.body == Error(NothingToUpdate) <==> NoField(p))
                  && (!NoField(p) && !UpdateStorable(table, p, id) ==> out == Fail(table, ServerError)))
  {
    NoFieldIff(p);
    var t := UpdatedTable(table, id, p);
    assert Reply(t, id).response.code == 200 || Reply(t, id).response.code == 404;
  }

  /** The answers of update that write: the rows with the id are rewritten
      column by column and the answer is the fetch. */
  lemma UpdateWrites(table: seq<Row>, id: int, p: Payload, format: DateFormat)
    ensures var out := UpdateOutcome(table, id, p, format);
            (out.response.code == 200 || out.response.code == 404 ==>
                  && UpdateStorable(table, p, id)
                  && |out.table| == |table|
                  && (forall i :: 0 <= i < |table| && table[i].id != id ==> out.table[i] == table[i])
                  && (forall i :: 0 <= i < |table| && table[i].id == id ==>
                        out.table[i] == UpdateRow(table[i], p, UpdateCents(p)))
                  && (out.response.code == 404 <==> forall row :: row in table ==> row.id != id))
  {
    var ci := Get(p, "checkin");
    var co := Get(p, "checkout");
    if Truthy(ci) && Truthy(co) && CheckDates(ci, co, format).Some? {
      var e := CheckDates(ci, co, format).value;
      assert e == BadDateFormat || e == CheckoutBeforeCheckin;
      assert Code(e) == 400;
    } else if SetColumns(p, UpdateCents(p)) == [] || !UpdateStorable(table, p, id) {
    } else {
      var f := r => UpdateRow(r, p, UpdateCents(p));
      WriteThenFetch(table, id, f);
      assert UpdateOutcome(table, id, p, format) == Reply(UpdateWhereId(table, id, f), id);
    }
  }

  /** The handler's `if not fields` test is "no column key and no amount". */
  lemma NoFieldIff(p: Payload)
    ensures SetColumns(p, UpdateCents(p)) == [] <==> NoField(p)
  {
    PresentMembers(UpdateKeys, p);
    if Present(UpdateKeys, p) != [] {
      assert Present(UpdateKeys, p)[0] in UpdateKeys;
    }
  }

  /** An UPDATE by id followed by the fetch: the table keeps its length and
      its other rows; the answer is 404 exactly when no row has the id, and
      otherwise the updated row. */
  lemma WriteThenFetch(table: seq<Row>, id: int, f: Row -> Row)
    requires forall r: Row :: f(r).id == r.id
    ensures var out := Reply(UpdateWhereId(table, id, f), id);
            && out.table == UpdateWhereId(table, id, f)
            && (out.response.code == 404 <==> forall row :: row in table ==> row.id != id)
            && (out.response.code == 200 ==>
                  exists i :: 0 <= i < |table| && table[i].id == id && out.response.body == One(ToRecord(f(table[i]))))
  {
    var t := UpdateWhereId(table, id, f);
    var found := Find(t, id);
    if found.Some? {
      var i :| 0 <= i < |t| && t[i] == found.value;
      assert table[i].id == id;
    } else {
      forall row | row in table ensures row.id != id {
        var i :| 0 <= i < |table| && table[i] == row;
        assert t[i] in t;
      }
    }
  }

  // ---------------------------------------------------------------------
  // Get, delete, check-in, checkout
  // ---------------------------------------------------------------------

  /** `GET /api/reservations/<id>`: the row with the id, or 404; an id
      wider than 64 bits cannot be bound (500). */
  function GetReservation(table: seq<Row>, id: int): (out: Outcome)
    ensures out.table == table
    ensures !FitsInt64(id) ==> out.response == Response(500, Error(ServerError))
    ensures FitsInt64(id) ==> (out.response.code == 404 <==> forall row :: row in table ==> row.id != id)
    ensures out.response.code == 200 ==>
              exists row :: row in table && row.id == id && out.response.body == One(ToRecord(row))
  {
    if !FitsInt64(id) then Fail(table, ServerError) else Reply(table, id)
  }

  /** `DELETE FROM reservations WHERE id = ?` */
  function DeleteWhereId(table: seq<Row>, id: int): (r: seq<Row>)
    ensures forall row :: row in r <==> row in table && row.id != id
    ensures forall row :: row in r ==> multiset(r)[row] == multiset(table)[row]
  {
    if table == [] then []
    else
      assert table == [table[0]] + table[1..];
      (if table[0].id == id then [] else [table[0]]) + DeleteWhereId(table[1..], id)
  }

  /** `DELETE /api/reservations/<id>`: a success even for an unknown id; an
      id wider than 64 bits cannot be bound (500). */
  function DeleteReservation(table: seq<Row>, id: int): (out: Outcome)
    ensures FitsInt64(id) ==> out.response == Response(200, Success)
    ensures FitsInt64(id) ==> forall row :: row in out.table <==> row in table && row.id != id
    ensures !FitsInt64(id) ==> out == Fail(table, ServerError)
  {
    if !FitsInt64(id) then Fail(table, ServerError)
    else Outcome(DeleteWhereId(table, id), Response(200, Success))
  }

  function WithStatus(row: Row, status: string): Row {
    row.(status := Str(status))
  }

  /** `UPDATE reservations SET status = ? WHERE id = ?` and the fetch; an
      id wider than 64 bits cannot be bound (500). */
  function SetStatus(table: seq<Row>, id: int, status: string): Outcome {
    if !FitsInt64(id) then Fail(table, ServerError)
    else Reply(UpdateWhereId(table, id, r => WithStatus(r, status)), id)
  }

  /** `POST /api/reservations/<id>/checkin`; what it does is stated once,
      for both status endpoints, by `SetStatusReply` and `SetStatusSpec`. */
  function Checkin(table: seq<Row>, id: int): Outcome {
    SetStatus(table, id, "checkin")
  }

  /** `POST /api/reservations/<id>/checkout`, the same with 'checkout'. */
  function Checkout(table: seq<Row>, id: int): Outcome {
    SetStatus(table, id, "checkout")
  }

  /** A successful status change answers with the record, carrying the id
      and the new status. */
  lemma SetStatusReply(table: seq<Row>, id: int, status: string)
    ensures var out := SetStatus(table, id, status);
            out.response.code == 200 ==>
              out.response.body.One? && out.response.body.record.id == id
              && out.response.body.record.status == Str(status)
  {
    if FitsInt64(id) {
      WriteThenFetch(table, id, r => WithStatus(r, status));
    }
  }

  /** A status endpoint sets the status of the row with the id and nothing
      else: every other column of it and every other row are unchanged; it
      answers with the updated row, or 404 when the id is absent; an id
      wider than 64 bits is a server error that changes nothing. */
  lemma SetStatusSpec(table: seq<Row>, id: int, status: string)
    requires UniqueIds(table)
    ensures var out := SetStatus(table, id, status);
            && (!FitsInt64(id) ==> out == Fail(table, ServerError))
            && (FitsInt64(id) ==>
                  && |out.table| == |table|
                  && (forall i :: 0 <= i < |table| && table[i].id != id ==> out.table[i] == table[i])
                  && (forall i :: 0 <= i < |table| && table[i].id == id ==>
                        out.table[i] == table[i].(status := Str(status)))
                  && (out.response.code == 404 <==> forall row :: row in table ==> row.id != id))
            && (out.response.code == 200 ==>
                  exists i :: 0 <= i < |table| && table[i].id == id
                              && out.response.body == One(ToRecord(table[i].(status := Str(status)))))
  {
    if FitsInt64(id) {
      WriteThenFetch(table, id, r => WithStatus(r, status));
    }
  }

  /** Check-in then checkout leave the row in status 'checkout'; the row's
      other columns keep their values throughout. An id wider than 64 bits
      leaves the table as it was. */
  lemma CheckinThenCheckout(table: seq<Row>, id: int)
    ensures var t := Checkout(Checkin(table, id).table, id).table;
            && |t| == |table|
            && (FitsInt64(id) ==>
                  forall i :: 0 <= i < |table| ==>
                    t[i] == if table[i].id == id then table[i].(status := Str("checkout")) else table[i])
            && (!FitsInt64(id) ==> t == table)
  {
    if FitsInt64(id) {
      var t1 := UpdateWhereId(table, id, r => WithStatus(r, "checkin"));
      assert Checkin(table, id).table == t1;
      var t2 := UpdateWhereId(t1, id, r => WithStatus(r, "checkout"));
      assert Checkout(t1, id).table == t2;
      assert forall i :: 0 <= i < |table| ==> t1[i].id == table[i].id;
    }
  }
}
