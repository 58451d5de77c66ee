/** The `account` table created by the migration 20160214005355-create-account-table,
    seen as the store the account layer sends its statements to: rows keyed by the
    SERIAL `id`, the unique index `account_key_idx`, the NOT NULL columns and the
    `prepaid_account_balance` check. Statements arrive structured (field list,
    parameter list, placeholder numbers), not as SQL text. */
module Store {
  import opened Values

  const Statuses: set<string> := {"active", "suspended", "deleted"}

  /** numeric(11,2) keeps nine integer digits, so a balance in cents stays below 10^11. */
  const BalanceBound: int := 100_000_000_000

  const KeyIndex: string := "account_key_idx"
  const PrepaidCheck: string := "prepaid_account_balance"

  /** Every column of the table. */
  const Columns: set<string> :=
    {"id", "key", "type", "balance", "postpaid", "status", "created_at", "updated_at"}

  /** The columns a statement may set from a parameter, in the table's order. */
  const DataColumns: seq<string> := ["key", "type", "balance", "postpaid", "status"]

  /** The NOT NULL columns a statement may set, in the table's order. */
  const NotNullColumns: seq<string> := ["key", "balance", "postpaid", "status"]

  /** The driver sends an `undefined` parameter as NULL. */
  function Param(v: Value): (p: Value)
    ensures p != Undefined
    ensures v != Undefined ==> p == v
  {
    if v == Undefined then Null else v
  }

  /** Whether `v` converts to the declared type of `column`; NULL always converts. */
  predicate Converts(column: string, v: Value)
  {
    v == Null ||
    if column == "key" then v.Str? && |v.s| <= 36
    else if column == "type" then v.Str? && |v.s| <= 20
    else if column == "balance" then v.Num? && -BalanceBound < v.n < BalanceBound
    else if column == "postpaid" then v.Bool?
    else if column == "status" then v.Str? && v.s in Statuses
    else true
  }

  /** The rows by id, the unique index on `key`, and the next value of the id sequence. */
  datatype Table = Table(rows: map<int, Attrs>, byKey: map<string, int>, nextId: int)

  const Empty: Table := Table(map[], map[], 1)

  function KeyOf(row: Attrs): string
  {
    var k := Get(row, "key");
    if k.Str? then k.s else ""
  }

  /** A stored row: every column present, typed as declared, NOT NULL columns set,
      and the check `postpaid = TRUE OR balance >= 0` holding. */
  predicate RowOk(id: int, row: Attrs)
  {
    && row.Keys == Columns
    && row["id"] == Num(id)
    && row["key"].Str? && |row["key"].s| <= 36
    && Converts("type", row["type"])
    && row["balance"].Num? && Converts("balance", row["balance"])
    && row["postpaid"].Bool?
    && row["status"].Str? && row["status"].s in Statuses
    && (row["postpaid"].b || row["balance"].n >= 0)
  }

  /** Rows are well formed, under ids the sequence has handed out. */
  ghost predicate RowsOk(t: Table)
  {
    && t.nextId >= 1
    && (forall id :: id in t.rows ==> 0 < id < t.nextId && RowOk(id, t.rows[id]))
  }

  /** `byKey` indexes every row by its key, one row per key. */
  ghost predicate Indexed(rows: map<int, Attrs>, byKey: map<string, int>)
  {
    && (forall k :: k in byKey ==> byKey[k] in rows && KeyOf(rows[byKey[k]]) == k)
    && (forall id :: id in rows ==> KeyOf(rows[id]) in byKey && byKey[KeyOf(rows[id])] == id)
  }

  /** The table invariant. */
  ghost predicate Consistent(t: Table)
  {
    RowsOk(t) && Indexed(t.rows, t.byKey)
  }

  lemma EmptyConsistent()
    ensures Consistent(Empty)
  {
  }

  /** INSERT INTO account (fields) VALUES ($placeholders) RETURNING * */
  datatype InsertQuery = InsertQuery(fields: seq<string>, values: seq<Value>, placeholders: seq<int>)

  /** One SET clause of an UPDATE: `"field" = $index` or `"field" = NOW()`. */
  datatype Assignment = SetParam(field: string, index: int) | SetNow(field: string)

  /** UPDATE account SET assignments WHERE id = $idIndex RETURNING * */
  datatype UpdateQuery = UpdateQuery(assignments: seq<Assignment>, values: seq<Value>, idIndex: int)

  predicate Distinct(s: seq<string>)
  {
    forall i, j :: 0 <= i < j < |s| ==> s[i] != s[j]
  }

  predicate InsertWellFormed(q: InsertQuery)
  {
    && |q.placeholders| == |q.fields|
    && (forall i :: 0 <= i < |q.fields| ==> q.fields[i] in DataColumns && 1 <= q.placeholders[i] <= |q.values|)
    && Distinct(q.fields)
  }

  /** The columns the first `n` fields of an INSERT bind: each field takes the parameter
      its placeholder names. */
  function BindInsert(q: InsertQuery, n: nat): map<string, Value>
    requires InsertWellFormed(q) && n <= |q.fields|
  {
    if n == 0 then map[]
    else BindInsert(q, n - 1)[q.fields[n - 1] := Param(q.values[q.placeholders[n - 1] - 1])]
  }

  /** The column values an INSERT binds (none for a malformed one, which is refused
      before anything is bound). */
  function InsertColumns(q: InsertQuery): map<string, Value>
  {
    if InsertWellFormed(q) then BindInsert(q, |q.fields|) else map[]
  }

  predicate AssignmentOk(a: Assignment, paramCount: int)
  {
    match a
    case SetParam(f, k) => f in DataColumns && 1 <= k <= paramCount
    case SetNow(f) => f == "updated_at"
  }

  predicate UpdateWellFormed(q: UpdateQuery)
  {
    && (forall i :: 0 <= i < |q.assignments| ==> AssignmentOk(q.assignments[i], |q.values|))
    && (forall i, j :: 0 <= i < j < |q.assignments| ==> q.assignments[i].field != q.assignments[j].field)
    && 1 <= q.idIndex <= |q.values|
  }

  function AssignedValue(a: Assignment, values: seq<Value>, now: Value): Value
    requires AssignmentOk(a, |values|)
  {
    match a
    case SetParam(_, k) => Param(values[k - 1])
    case SetNow(_) => now
  }

  /** The columns the first `n` assignments of an UPDATE set. */
  function BindUpdate(q: UpdateQuery, now: Value, n: nat): map<string, Value>
    requires UpdateWellFormed(q) && n <= |q.assignments|
  {
    if n == 0 then map[]
    else BindUpdate(q, now, n - 1)[q.assignments[n - 1].field := AssignedValue(q.assignments[n - 1], q.values, now)]
  }

  /** The column values an UPDATE sets (none for a malformed one, which is refused
      before anything is bound). `now` is the store's clock reading. */
  function UpdateColumns(q: UpdateQuery, now: Value): map<string, Value>
  {
    if UpdateWellFormed(q) then BindUpdate(q, now, |q.assignments|) else map[]
  }

  /** The first column of `order` whose value in `cols` does not convert. */
  function FirstUnconvertible(cols: map<string, Value>, order: seq<string>): (r: Option<string>)
    ensures r.None? <==> forall c :: c in order && c in cols ==> Converts(c, cols[c])
    ensures r.Some? ==> r.value in order && r.value in cols && !Converts(r.value, cols[r.value])
  {
    if order == [] then None
    else if order[0] in cols && !Converts(order[0], cols[order[0]]) then Some(order[0])
    else FirstUnconvertible(cols, order[1..])
  }

  /** The first column of `order` that is NULL in `row`. */
  function FirstNull(row: Attrs, order: seq<string>): (r: Option<string>)
    ensures r.None? <==> forall c :: c in order ==> Get(row, c) != Null
    ensures r.Some? ==> r.value in order && Get(row, r.value) == Null
  {
    if order == [] then None
    else if Get(row, order[0]) == Null then Some(order[0])
    else FirstNull(row, order[1..])
  }

  /** The constraint `row` breaks when stored under `id`, checked as the store does:
      NOT NULL, then the check, then the unique index. */
  function Violation(t: Table, id: int, row: Attrs): Option<Error>
  {
    match FirstNull(row, NotNullColumns)
    case Some(c) => Some(NotNullViolation(c))
    case None =>
      if !(Get(row, "postpaid") == Bool(true) || (Get(row, "balance").Num? && Get(row, "balance").n >= 0)) then
        Some(CheckViolation(PrepaidCheck))
      else if KeyOf(row) in t.byKey && t.byKey[KeyOf(row)] != id then
        Some(UniqueViolation(KeyIndex))
      else
        None
  }

  /** A fresh row before the statement's columns are applied: the column defaults. */
  function Defaults(id: int, now: Value): Attrs
  {
    map["id" := Num(id), "key" := Null, "type" := Null, "balance" := Num(0),
        "postpaid" := Bool(false), "status" := Str("active"),
        "created_at" := now, "updated_at" := Null]
  }

  /** Stores `row` under `id`, moving the key index entry with it. */
  function Put(t: Table, id: int, row: Attrs): Table
  {
    var byKey := if id in t.rows then t.byKey - {KeyOf(t.rows[id])} else t.byKey;
    t.(rows := t.rows[id := row], byKey := byKey[KeyOf(row) := id])
  }

  /** An INSERT ... RETURNING *: the reply (the inserted row) and the table afterwards.
      The id sequence advances once the parameters have converted, even if a
      constraint then rejects the row. */
  function ExecInsert(t: Table, q: InsertQuery, now: Value): (r: (Result<seq<Attrs>, Error>, Table))
    ensures r.0.Success? ==> |r.0.value| == 1 && r.1.nextId == t.nextId + 1
    ensures r.0.Success? ==> r.1.rows == t.rows[t.nextId := r.0.value[0]]
    // a refused row is not stored; the sequence has advanced unless a parameter failed to convert
    ensures r.0.Failure? ==> r.1.rows == t.rows && r.1.byKey == t.byKey
    ensures r.0.Failure? ==> r.1.nextId == if r.0.error.MalformedQuery? || r.0.error.InvalidInput? then t.nextId else t.nextId + 1
  {
    if !InsertWellFormed(q) then (Failure(MalformedQuery), t)
    else
      var cols := InsertColumns(q);
      match FirstUnconvertible(cols, DataColumns)
      case Some(c) => (Failure(InvalidInput(c)), t)
      case None =>
        var id := t.nextId;
        var advanced := t.(nextId := id + 1);
        var row := Defaults(id, now) + cols;
        match Violation(advanced, id, row)
        case Some(e) => (Failure(e), advanced)
        case None => (Success([row]), Put(advanced, id, row))
  }

  /** What the parameter of `WHERE "id" = $n` selects. The driver sends a value as its
      text (`String(v)`), `null` and `undefined` as NULL, and the server reads the text as an
      integer: NULL matches no row, and a text that is not an integer is invalid input. */
  datatype IdTarget = Id(n: int) | NoId | NotAnId

  function IdParam(v: Value): IdTarget
  {
    match v
    case Undefined => NoId
    case Null => NoId
    case Object(_) => NotAnId
    case _ =>
      var n := IntegerText(PropertyKey(v));
      if n.Some? then Id(n.value) else NotAnId
  }

  /** A number selects the row with that id. */
  lemma IdParamOfNumber(n: int)
    ensures IdParam(Num(n)) == Id(n)
  {
    NumberTextRoundTrip(n);
  }

  /** The text `WHERE "key" = $1` compares the key column with; NULL (none) matches no row.
      The JSON text the driver sends for an object is not modelled: it matches no row. */
  function KeyParam(v: Value): (k: Option<string>)
    ensures v.Str? ==> k == Some(v.s)
    ensures v.Num? ==> k == Some(NumberText(v.n))
  {
    match v
    case Undefined => None
    case Null => None
    case Object(_) => None
    case _ => Some(PropertyKey(v))
  }

  /** A lookup parameter given as the decimal text of a number selects what the number
      itself selects, by id and by key. */
  lemma NumberTextSelectsAlike(n: int)
    ensures IdParam(Str(NumberText(n))) == IdParam(Num(n)) == Id(n)
    ensures KeyParam(Str(NumberText(n))) == KeyParam(Num(n))
  {
    NumberTextRoundTrip(n);
    IdParamOfNumber(n);
  }

  /** A text with a character that is neither a digit nor a leading sign is not an id. */
  lemma NonIntegerTextIsNotAnId(s: string, i: int)
    requires 0 <= i < |s| && !('0' <= s[i] <= '9')
    requires i == 0 ==> |s| < 2 || (s[0] != '-' && s[0] != '+')
    ensures IdParam(Str(s)) == NotAnId
  {
    assert !IsDigits(s);
    if i >= 1 {
      assert s[1..][i - 1] == s[i];
    }
  }

  /** An UPDATE ... WHERE id = $n RETURNING *: the reply (no row or the updated row)
      and the table afterwards. An id parameter that is not an integer is invalid input;
      a NULL one matches no row. */
  function ExecUpdate(t: Table, q: UpdateQuery, now: Value): (r: (Result<seq<Attrs>, Error>, Table))
    ensures r.0.Success? ==> |r.0.value| <= 1
    ensures r.1.nextId == t.nextId
    // a refused statement, and one that matched no row, leave the table as it was
    ensures r.0.Failure? || r.0 == Success([]) ==> r.1 == t
  {
    if !UpdateWellFormed(q) then (Failure(MalformedQuery), t)
    else
      var cols := UpdateColumns(q, now);
      match FirstUnconvertible(cols, DataColumns)
      case Some(c) => (Failure(InvalidInput(c)), t)
      case None =>
        match IdParam(q.values[q.idIndex - 1])
        case NotAnId => (Failure(InvalidInput("id")), t)
        case NoId => (Success([]), t)
        case Id(id) =>
          if id !in t.rows then (Success([]), t)
          else
            var row := t.rows[id] + cols;
            match Violation(t, id, row)
            case Some(e) => (Failure(e), t)
            case None => (Success([row]), Put(t, id, row))
  }

  /** SELECT * FROM account WHERE field = $1, for the two fields the layer looks up by.
      An id parameter that is not an integer is invalid input. */
  function ExecSelect(t: Table, field: string, v: Value): (r: Result<seq<Attrs>, Error>)
    ensures r.Success? ==> |r.value| <= 1
    ensures field == "id" ==> (r.Failure? <==> IdParam(v) == NotAnId)
    ensures r.Failure? ==> r.error == (if field == "id" then InvalidInput("id") else MalformedQuery)
    ensures field == "key" ==> r.Success?
    // a lookup by id finds exactly the row stored under that id
    ensures field == "id" && r.Success? && r.value != [] ==>
              IdParam(v).Id? && IdParam(v).n in t.rows && r.value == [t.rows[IdParam(v).n]]
    ensures field == "id" && IdParam(v).Id? && IdParam(v).n in t.rows ==> r == Success([t.rows[IdParam(v).n]])
    // a lookup by key finds only a stored row, and, when the index is sound, one with that key
    ensures field == "key" && r.value != [] ==> r.value[0] in t.rows.Values && KeyParam(v).Some?
    ensures field == "key" && r.value != [] && Indexed(t.rows, t.byKey) ==> KeyOf(r.value[0]) == KeyParam(v).value
  {
    if field == "key" then
      var k := KeyParam(v);
      Success(if k.Some? && k.value in t.byKey && t.byKey[k.value] in t.rows then [t.rows[t.byKey[k.value]]] else [])
    else if field == "id" then
      match IdParam(v)
      case NotAnId => Failure(InvalidInput("id"))
      case NoId => Success([])
      case Id(n) => Success(if n in t.rows then [t.rows[n]] else [])
    else
      Failure(MalformedQuery)
  }

  /** Each of the first `n` fields is bound to the parameter its placeholder names; the
      fields are distinct, so a later one never overwrites an earlier one. */
  lemma {:induction false} BindInsertAt(q: InsertQuery, n: nat, i: int)
    requires InsertWellFormed(q) && 0 <= i < n <= |q.fields|
    ensures q.fields[i] in BindInsert(q, n)
    ensures BindInsert(q, n)[q.fields[i]] == Param(q.values[q.placeholders[i] - 1])
  {
    if i < n - 1 {
      BindInsertAt(q, n - 1, i);
      assert q.fields[i] != q.fields[n - 1];
    }
  }

  /** Only the first `n` fields are bound. */
  lemma {:induction false} BindInsertFrom(q: InsertQuery, n: nat, c: string)
    requires InsertWellFormed(q) && n <= |q.fields|
    requires c in BindInsert(q, n)
    ensures c in q.fields[..n]
  {
    if c != q.fields[n - 1] {
      BindInsertFrom(q, n - 1, c);
      assert q.fields[..n - 1] == q.fields[..n][..n - 1];
    }
  }

  /** The column a field of an INSERT names is set to the parameter its placeholder binds. */
  lemma InsertColumnsAt(q: InsertQuery, i: int)
    requires InsertWellFormed(q) && 0 <= i < |q.fields|
    ensures q.fields[i] in InsertColumns(q)
    ensures InsertColumns(q)[q.fields[i]] == Param(q.values[q.placeholders[i] - 1])
  {
    BindInsertAt(q, |q.fields|, i);
  }

  /** An INSERT sets exactly the columns its fields name, all of them data columns. */
  lemma InsertColumnsFrom(q: InsertQuery)
    requires InsertWellFormed(q)
    ensures forall c :: c in InsertColumns(q) <==> c in q.fields
    ensures forall c :: c in InsertColumns(q) ==> c in DataColumns
  {
    forall c | c in InsertColumns(q) ensures c in q.fields {
      BindInsertFrom(q, |q.fields|, c);
      assert q.fields[..|q.fields|] == q.fields;
    }
    forall c | c in q.fields ensures c in InsertColumns(q) {
      var i :| 0 <= i < |q.fields| && q.fields[i] == c;
      InsertColumnsAt(q, i);
    }
  }

  /** Each of the first `n` assignments sets its column; the assigned columns are
      distinct, so a later one never overwrites an earlier one. */
  lemma {:induction false} BindUpdateAt(q: UpdateQuery, now: Value, n: nat, i: int)
    requires UpdateWellFormed(q) && 0 <= i < n <= |q.assignments|
    ensures q.assignments[i].field in BindUpdate(q, now, n)
    ensures BindUpdate(q, now, n)[q.assignments[i].field] == AssignedValue(q.assignments[i], q.values, now)
  {
    if i < n - 1 {
      BindUpdateAt(q, now, n - 1, i);
      assert q.assignments[i].field != q.assignments[n - 1].field;
    }
  }

  /** Only the columns of the first `n` assignments are set; `i` is the one that sets `c`. */
  lemma {:induction false} BindUpdateFrom(q: UpdateQuery, now: Value, n: nat, c: string) returns (i: int)
    requires UpdateWellFormed(q) && n <= |q.assignments|
    requires c in BindUpdate(q, now, n)
    ensures 0 <= i < n && q.assignments[i].field == c
  {
    if c == q.assignments[n - 1].field {
      i := n - 1;
    } else {
      i := BindUpdateFrom(q, now, n - 1, c);
    }
  }

  /** The column an assignment names is set to the value it assigns. */
  lemma UpdateColumnsAt(q: UpdateQuery, now: Value, i: int)
    requires UpdateWellFormed(q) && 0 <= i < |q.assignments|
    ensures q.assignments[i].field in UpdateColumns(q, now)
    ensures UpdateColumns(q, now)[q.assignments[i].field] == AssignedValue(q.assignments[i], q.values, now)
  {
    BindUpdateAt(q, now, |q.assignments|, i);
  }

  /** Every column an UPDATE sets is named by one of its assignments, the `i`-th. */
  lemma UpdateColumnsFrom(q: UpdateQuery, now: Value, c: string) returns (i: int)
    requires UpdateWellFormed(q) && c in UpdateColumns(q, now)
    ensures 0 <= i < |q.assignments| && q.assignments[i].field == c
  {
    i := BindUpdateFrom(q, now, |q.assignments|, c);
  }

  /** An UPDATE sets only data columns and `updated_at`. */
  lemma UpdateColumnsWithin(q: UpdateQuery, now: Value)
    requires UpdateWellFormed(q)
    ensures forall c :: c in UpdateColumns(q, now) ==> c in DataColumns || c == "updated_at"
  {
    forall c | c in UpdateColumns(q, now) ensures c in DataColumns || c == "updated_at" {
      var i := UpdateColumnsFrom(q, now, c);
      assert AssignmentOk(q.assignments[i], |q.values|);
    }
  }

  /** Moving a row's index entry along with it keeps the index exact, provided the row's
      key is free or already its own. */
  lemma {:induction false} PutKeepsIndexed(rows: map<int, Attrs>, byKey: map<string, int>, id: int, row: Attrs)
    requires Indexed(rows, byKey)
    requires KeyOf(row) in byKey ==> byKey[KeyOf(row)] == id
    ensures var byKey' := if id in rows then byKey - {KeyOf(rows[id])} else byKey;
            Indexed(rows[id := row], byKey'[KeyOf(row) := id])
  {
    var rows' := rows[id := row];
    var byKey' := (if id in rows then byKey - {KeyOf(rows[id])} else byKey)[KeyOf(row) := id];
    forall k | k in byKey'
      ensures byKey'[k] in rows' && KeyOf(rows'[byKey'[k]]) == k
    {
      if k != KeyOf(row) {
        var other := byKey[k];
        assert other != id;
      }
    }
    forall other | other in rows'
      ensures KeyOf(rows'[other]) in byKey' && byKey'[KeyOf(rows'[other])] == other
    {
      if other != id {
        var k := KeyOf(rows[other]);
        assert byKey[k] == other;
        assert id in rows ==> KeyOf(rows[id]) != k;
      }
    }
  }

  /** Storing a well-formed row whose key is free (or already its own) keeps the table valid. */
  lemma PutKeepsConsistent(t: Table, id: int, row: Attrs)
    requires Consistent(t)
    requires 0 < id < t.nextId && RowOk(id, row)
    requires KeyOf(row) in t.byKey ==> t.byKey[KeyOf(row)] == id
    ensures Consistent(Put(t, id, row))
  {
    PutKeepsIndexed(t.rows, t.byKey, id, row);
  }

  /** A row that takes its columns from `base` and then from `cols`, where `cols` sets
      only data columns to values that convert and the result passes the NOT NULL and
      check constraints, is a well-formed row. */
  lemma MergedRowOk(id: int, base: Attrs, cols: map<string, Value>)
    requires base.Keys == Columns && base["id"] == Num(id)
    requires "type" !in cols ==> Converts("type", base["type"])
    requires forall c :: c in cols ==> (c in DataColumns || c == "updated_at") && Converts(c, cols[c])
    requires FirstNull(base + cols, NotNullColumns).None?
    requires Get(base + cols, "postpaid") == Bool(true)
          || (Get(base + cols, "balance").Num? && Get(base + cols, "balance").n >= 0)
    requires forall c :: c in NotNullColumns && c !in cols ==> Converts(c, base[c])
    ensures RowOk(id, base + cols)
  {
    var row := base + cols;
    assert row.Keys == Columns by {
      forall c | c in cols ensures c in Columns {
      }
    }
    assert "id" !in cols;
    assert forall c :: c in NotNullColumns ==> Get(row, c) != Null;
    assert NotNullColumns == ["key", "balance", "postpaid", "status"];
    assert Converts("key", row["key"]) && row["key"] != Null;
    assert Converts("type", row["type"]);
    assert Converts("balance", row["balance"]) && row["balance"] != Null;
    assert Converts("postpaid", row["postpaid"]) && row["postpaid"] != Null;
    assert "status" in NotNullColumns;
    assert Get(row, "status") != Null;
    if "status" in cols {
      assert Converts("status", cols["status"]);
    } else {
      assert Converts("status", base["status"]);
    }
  }

  /** The column defaults form a complete row whose data columns all convert. */
  lemma DefaultsComplete(id: int, now: Value)
    ensures Defaults(id, now).Keys == Columns && Defaults(id, now)["id"] == Num(id)
    ensures forall c :: c in DataColumns ==> Converts(c, Defaults(id, now)[c])
  {
  }

  /** A successful INSERT returns the column defaults overridden by its columns, a
      well-formed row under the id the sequence handed out. */
  lemma InsertedRow(t: Table, q: InsertQuery, now: Value)
    ensures var reply := ExecInsert(t, q, now).0;
            reply.Success? ==>
              && InsertWellFormed(q)
              && reply.value[0] == Defaults(t.nextId, now) + InsertColumns(q)
              && RowOk(t.nextId, reply.value[0])
  {
    InsertTable(t, q, now);
  }

  /** Drawing an id from the sequence keeps the table valid. */
  lemma AdvanceKeepsConsistent(t: Table)
    requires Consistent(t)
    ensures Consistent(t.(nextId := t.nextId + 1))
  {
  }

  /** The row a well-formed INSERT builds, once its parameters convert and it breaks
      no constraint, is a well-formed row. */
  lemma InsertedRowOk(t: Table, q: InsertQuery, now: Value)
    requires InsertWellFormed(q) && FirstUnconvertible(InsertColumns(q), DataColumns).None?
    requires Violation(t.(nextId := t.nextId + 1), t.nextId, Defaults(t.nextId, now) + InsertColumns(q)).None?
    ensures RowOk(t.nextId, Defaults(t.nextId, now) + InsertColumns(q))
  {
    var cols := InsertColumns(q);
    var base := Defaults(t.nextId, now);
    InsertColumnsFrom(q);
    DefaultsComplete(t.nextId, now);
    assert forall c :: c in cols ==> (c in DataColumns || c == "updated_at") && Converts(c, cols[c]);
    assert FirstNull(base + cols, NotNullColumns).None?;
    assert forall c :: c in NotNullColumns && c !in cols ==> Converts(c, base[c]);
    MergedRowOk(t.nextId, base, cols);
  }

  /** A refused INSERT leaves the table as it was or only draws an id; an accepted one
      stores a well-formed row, whose key was free, under the id it drew. */
  lemma InsertTable(t: Table, q: InsertQuery, now: Value)
    ensures var (reply, t') := ExecInsert(t, q, now);
            && (reply.Failure? ==> t' == t || t' == t.(nextId := t.nextId + 1))
            && (reply.Success? ==>
                  && InsertWellFormed(q)
                  && var row := Defaults(t.nextId, now) + InsertColumns(q);
                  && reply.value[0] == row
                  && RowOk(t.nextId, row)
                  && (KeyOf(row) in t.byKey ==> t.byKey[KeyOf(row)] == t.nextId)
                  && t' == Put(t.(nextId := t.nextId + 1), t.nextId, row))
  {
    if ExecInsert(t, q, now).0.Success? {
      InsertedRowOk(t, q, now);
    }
  }

  /** INSERT keeps the table invariant, whatever it is asked to insert. */
  lemma InsertKeepsConsistent(t: Table, q: InsertQuery, now: Value)
    requires Consistent(t)
    ensures Consistent(ExecInsert(t, q, now).1)
  {
    InsertTable(t, q, now);
    AdvanceKeepsConsistent(t);
    if ExecInsert(t, q, now).0.Success? {
      PutKeepsConsistent(t.(nextId := t.nextId + 1), t.nextId, Defaults(t.nextId, now) + InsertColumns(q));
    }
  }

  /** The row a well-formed UPDATE writes over a stored row, once its parameters
      convert and it breaks no constraint, is a well-formed row. */
  lemma UpdatedRowOk(t: Table, q: UpdateQuery, now: Value, id: int)
    requires Consistent(t) && id in t.rows
    requires UpdateWellFormed(q) && FirstUnconvertible(UpdateColumns(q, now), DataColumns).None?
    requires Violation(t, id, t.rows[id] + UpdateColumns(q, now)).None?
    ensures RowOk(id, t.rows[id] + UpdateColumns(q, now))
  {
    var cols := UpdateColumns(q, now);
    var base := t.rows[id];
    assert RowOk(id, base);
    UpdateColumnsWithin(q, now);
    assert forall c :: c in cols ==> (c in DataColumns || c == "updated_at") && Converts(c, cols[c]);
    assert FirstNull(base + cols, NotNullColumns).None?;
    assert forall c :: c in NotNullColumns && c !in cols ==> Converts(c, base[c]);
    MergedRowOk(id, base, cols);
  }

  /** An UPDATE that changes the table stores the merged row under the id it names. */
  lemma UpdateStores(t: Table, q: UpdateQuery, now: Value)
    requires ExecUpdate(t, q, now).1 != t
    ensures UpdateWellFormed(q) && FirstUnconvertible(UpdateColumns(q, now), DataColumns).None?
    ensures var target := IdParam(q.values[q.idIndex - 1]);
            && target.Id? && target.n in t.rows
            && Violation(t, target.n, t.rows[target.n] + UpdateColumns(q, now)).None?
            && ExecUpdate(t, q, now).1 == Put(t, target.n, t.rows[target.n] + UpdateColumns(q, now))
  {
  }

  /** UPDATE keeps the table invariant, whatever it is asked to set. */
  lemma UpdateKeepsConsistent(t: Table, q: UpdateQuery, now: Value)
    requires Consistent(t)
    ensures Consistent(ExecUpdate(t, q, now).1)
  {
    if ExecUpdate(t, q, now).1 != t {
      UpdateStores(t, q, now);
      var id := IdParam(q.values[q.idIndex - 1]).n;
      UpdatedRowOk(t, q, now, id);
      PutKeepsConsistent(t, id, t.rows[id] + UpdateColumns(q, now));
    }
  }

  /** Storing a row under an id no row has, with a key no other row holds, adds exactly
      that row, and the row is found by its key and by its id. */
  lemma PutFresh(t: Table, id: int, row: Attrs)
    requires Indexed(t.rows, t.byKey) && id !in t.rows
    requires KeyOf(row) in t.byKey ==> t.byKey[KeyOf(row)] == id
    requires Get(row, "key").Str? && Get(row, "id") == Num(id)
    ensures KeyOf(row) !in t.byKey
    ensures Put(t, id, row).rows == t.rows[id := row]
    ensures ExecSelect(Put(t, id, row), "key", Get(row, "key")) == Success([row])
    ensures ExecSelect(Put(t, id, row), "id", Get(row, "id")) == Success([row])
  {
    IdParamOfNumber(id);
  }

  /** A successful INSERT adds exactly one row, under a fresh id and a key no row held,
      and looking the row up by its key or by its id finds exactly it. */
  lemma InsertThenSelect(t: Table, q: InsertQuery, now: Value)
    requires Consistent(t)
    ensures var (reply, t') := ExecInsert(t, q, now);
            reply.Success? ==>
            var row := reply.value[0];
            && InsertWellFormed(q)
            && row == Defaults(t.nextId, now) + InsertColumns(q)
            && t.nextId !in t.rows
            && t'.rows == t.rows[t.nextId := row]
            && Get(row, "id") == Num(t.nextId)
            && KeyOf(row) !in t.byKey
            && ExecSelect(t', "key", Get(row, "key")) == Success([row])
            && ExecSelect(t', "id", Get(row, "id")) == Success([row])
  {
    InsertTable(t, q, now);
    if ExecInsert(t, q, now).0.Success? {
      var row := Defaults(t.nextId, now) + InsertColumns(q);
      assert t.nextId !in t.rows;
      PutFresh(t.(nextId := t.nextId + 1), t.nextId, row);
    }
  }

  /** A row with a key no other row holds, its NOT NULL columns set and the prepaid check
      met breaks no constraint. */
  lemma NoViolation(t: Table, id: int, row: Attrs)
    requires "key" in row && row["key"].Str? && (row["key"].s in t.byKey ==> t.byKey[row["key"].s] == id)
    requires "balance" in row && "postpaid" in row && "status" in row
    requires row["balance"] != Null && row["postpaid"] != Null && row["status"] != Null
    requires row["postpaid"] == Bool(true) || (row["balance"].Num? && row["balance"].n >= 0)
    ensures Violation(t, id, row).None?
  {
    assert FirstNull(row, NotNullColumns).None?;
  }

  lemma DefaultValues(id: int, now: Value)
    ensures Defaults(id, now)["key"] == Null && Defaults(id, now)["balance"] == Num(0)
    ensures Defaults(id, now)["postpaid"] == Bool(false) && Defaults(id, now)["status"] == Str("active")
  {
  }

  /** An INSERT whose parameters convert and whose completed row breaks no constraint is
      accepted. */
  lemma InsertAccepted(t: Table, q: InsertQuery, now: Value)
    requires InsertWellFormed(q) && FirstUnconvertible(InsertColumns(q), DataColumns).None?
    requires Violation(t.(nextId := t.nextId + 1), t.nextId, Defaults(t.nextId, now) + InsertColumns(q)).None?
    ensures ExecInsert(t, q, now).0 == Success([Defaults(t.nextId, now) + InsertColumns(q)])
  {
  }

  /** An UPDATE whose parameters convert, whose id parameter names a stored row, and whose
      merged row breaks no constraint returns that merged row. */
  lemma UpdateAccepted(t: Table, q: UpdateQuery, now: Value, id: int)
    requires UpdateWellFormed(q) && FirstUnconvertible(UpdateColumns(q, now), DataColumns).None?
    requires IdParam(q.values[q.idIndex - 1]) == Id(id) && id in t.rows
    requires Violation(t, id, t.rows[id] + UpdateColumns(q, now)).None?
    ensures ExecUpdate(t, q, now).0 == Success([t.rows[id] + UpdateColumns(q, now)])
  {
    var row := t.rows[id] + UpdateColumns(q, now);
    assert ExecUpdate(t, q, now) == (Success([row]), Put(t, id, row));
  }

  /** Every stored row is found again, by its key and by its id. */
  lemma SelectFindsStored(t: Table, id: int)
    requires Consistent(t) && id in t.rows
    ensures ExecSelect(t, "key", t.rows[id]["key"]) == Success([t.rows[id]])
    ensures ExecSelect(t, "id", t.rows[id]["id"]) == Success([t.rows[id]])
  {
    assert RowOk(id, t.rows[id]);
    IdParamOfNumber(id);
  }

  /** An INSERT whose key is NULL or left out fails, on the NOT NULL constraint of `key`
      unless a parameter failed to convert first, and stores nothing. */
  lemma InsertWithoutKeyFails(t: Table, q: InsertQuery, now: Value)
    requires InsertWellFormed(q)
    requires Get(InsertColumns(q), "key") == Null || "key" !in InsertColumns(q)
    ensures var (reply, t') := ExecInsert(t, q, now);
            && reply.Failure?
            && (reply.error.InvalidInput? || reply.error == NotNullViolation("key"))
            && t'.rows == t.rows
  {
    var cols := InsertColumns(q);
    var row := Defaults(t.nextId, now) + cols;
    assert Get(row, "key") == Null;
    assert FirstNull(row, NotNullColumns) == Some("key");
  }

  /** An INSERT of a key some row already holds never stores a second row with it. When its
      parameters convert and the row meets the NOT NULL and prepaid constraints, it is the
      unique index on `key` that refuses it, after the sequence has advanced. */
  lemma DuplicateKeyRejected(t: Table, q: InsertQuery, now: Value, k: string)
    requires Consistent(t)
    requires k in t.byKey
    requires InsertWellFormed(q) && Get(InsertColumns(q), "key") == Str(k)
    ensures var (reply, t') := ExecInsert(t, q, now);
            reply.Failure? && t'.rows == t.rows && t'.byKey == t.byKey
    ensures var row := Defaults(t.nextId, now) + InsertColumns(q);
            FirstUnconvertible(InsertColumns(q), DataColumns).None? &&
            FirstNull(row, NotNullColumns).None? &&
            (Get(row, "postpaid") == Bool(true) || (Get(row, "balance").Num? && Get(row, "balance").n >= 0)) ==>
              ExecInsert(t, q, now) == (Failure(UniqueViolation(KeyIndex)), t.(nextId := t.nextId + 1))
  {
    var row := Defaults(t.nextId, now) + InsertColumns(q);
    if FirstUnconvertible(InsertColumns(q), DataColumns).None? && FirstNull(row, NotNullColumns).None? &&
       (Get(row, "postpaid") == Bool(true) || (Get(row, "balance").Num? && Get(row, "balance").n >= 0)) {
      DuplicateKeyViolates(t, k, row);
      InsertRefused(t, q, now, UniqueViolation(KeyIndex));
    } else {
      InsertThenSelect(t, q, now);
    }
  }

  /** An INSERT whose parameters convert and whose row breaks a constraint is refused with
      that constraint's error, after the sequence has advanced. */
  lemma InsertRefused(t: Table, q: InsertQuery, now: Value, e: Error)
    requires InsertWellFormed(q) && FirstUnconvertible(InsertColumns(q), DataColumns).None?
    requires Violation(t.(nextId := t.nextId + 1), t.nextId, Defaults(t.nextId, now) + InsertColumns(q)) == Some(e)
    ensures ExecInsert(t, q, now) == (Failure(e), t.(nextId := t.nextId + 1))
  {
  }

  /** A row carrying a key held by a stored row, and meeting the other constraints, breaks
      the unique index when it is stored under the sequence's next id. */
  lemma DuplicateKeyViolates(t: Table, k: string, row: Attrs)
    requires Consistent(t) && k in t.byKey && Get(row, "key") == Str(k)
    requires FirstNull(row, NotNullColumns).None?
    requires Get(row, "postpaid") == Bool(true) || (Get(row, "balance").Num? && Get(row, "balance").n >= 0)
    ensures Violation(t.(nextId := t.nextId + 1), t.nextId, row) == Some(UniqueViolation(KeyIndex))
  {
    assert KeyOf(row) == k;
    assert t.byKey[k] in t.rows;
  }

  /** A successful UPDATE changes exactly the row its id parameter names (or nothing, when
      that id has no row); every other row is left as it was. */
  lemma UpdateChangesOnlyItsRow(t: Table, q: UpdateQuery, now: Value)
    ensures var (reply, t') := ExecUpdate(t, q, now);
            && (reply.Failure? || reply == Success([]) ==> t' == t)
            && (reply.Success? && reply.value != [] ==>
                  && UpdateWellFormed(q)
                  && var target := IdParam(q.values[q.idIndex - 1]);
                  && target.Id? && target.n in t.rows
                  && reply.value[0] == t.rows[target.n] + UpdateColumns(q, now)
                  && t'.rows == t.rows[target.n := reply.value[0]])
  {
  }

  /** The database the pool connects to. */
  class Database {
    var table: Table

    ghost predicate Valid()
      reads this
    {
      Consistent(table)
    }

    constructor ()
      ensures Valid() && table == Empty
    {
      table := Empty;
      EmptyConsistent();
    }
  }
}
