/** lib/account.js: the account base class, its discriminator mechanism (sub-types
    registered by name in the application's type map), the factory `create`, the lookup
    `get`, and the instance operations `insert`, `update` and `toObject`. The database is
    the `account` table of module Store; `db.connect` is an oracle passed in as the error
    it reported, if any. */
module Accounts {
  import opened Values
  import Store
  import Db

  // ---------------------------------------------------------------------------
  // Constructors and instanceof

  /** A constructor: the application's `Account` base, or one made by `discriminator`
      under a type name, inheriting from its parent. */
  datatype Impl = Base | Sub(name: string, parent: Impl)

  /** `attributes || (attributes = {})`: a missing argument starts from an empty object. */
  function Initial(params: Option<Attrs>): Attrs
  {
    if params.Some? then params.value else map[]
  }

  /** The attributes `new impl(params)` holds: the base keeps the object it was given and
      every sub-type constructor, after its parent's, stamps its own name into `type`. */
  function Construct(impl: Impl, attrs: Attrs): Attrs
  {
    match impl
    case Base => attrs
    case Sub(n, p) => Construct(p, attrs)["type" := Str(n)]
  }

  /** Only the outermost constructor's stamp survives; no other attribute is touched. */
  lemma {:induction false} ConstructStamps(impl: Impl, attrs: Attrs)
    ensures impl.Base? ==> Construct(impl, attrs) == attrs
    ensures impl.Sub? ==> Construct(impl, attrs) == attrs["type" := Str(impl.name)]
  {
    match impl
    case Base =>
    case Sub(n, p) =>
      ConstructStamps(p, attrs);
      if p.Sub? {
        assert attrs["type" := Str(p.name)]["type" := Str(n)] == attrs["type" := Str(n)];
      }
  }

  /** A sub-type leaves an object already stamped with its name as it is. */
  lemma ConstructKeepsStamped(impl: Impl, attrs: Attrs)
    requires impl.Sub? && Get(attrs, "type") == Str(impl.name)
    ensures Construct(impl, attrs) == attrs
  {
    ConstructStamps(impl, attrs);
    assert attrs["type" := Str(impl.name)] == attrs;
  }

  /** `x instanceof ancestor` for an instance made by `impl`. */
  predicate IsA(impl: Impl, ancestor: Impl)
  {
    impl == ancestor || (impl.Sub? && IsA(impl.parent, ancestor))
  }

  function Depth(impl: Impl): nat
  {
    match impl
    case Base => 0
    case Sub(_, p) => Depth(p) + 1
  }

  /** Every account, whatever its type, is an instance of the base `Account`. */
  lemma {:induction false} EveryAccountIsABase(impl: Impl)
    ensures IsA(impl, Base)
  {
    if impl.Sub? {
      EveryAccountIsABase(impl.parent);
    }
  }

  /** An instance of a constructor is made by it or by one derived from it. */
  lemma {:induction false} IsADeepens(a: Impl, b: Impl)
    ensures IsA(a, b) ==> Depth(a) >= Depth(b) && (Depth(a) == Depth(b) ==> a == b)
  {
    if a.Sub? {
      IsADeepens(a.parent, b);
    }
  }

  /** Two types derived under different names from the same parent are unrelated: an
      instance of one is never an instance of the other. */
  lemma SiblingsUnrelated(n1: string, n2: string, parent: Impl)
    requires n1 != n2
    ensures !IsA(Sub(n1, parent), Sub(n2, parent))
    ensures !IsA(Sub(n2, parent), Sub(n1, parent))
    ensures IsA(Sub(n1, parent), parent) && IsA(Sub(n2, parent), parent)
  {
    IsADeepens(parent, Sub(n2, parent));
    IsADeepens(parent, Sub(n1, parent));
  }

  // ---------------------------------------------------------------------------
  // The type map and the discriminator

  /** `app._accountTypeMap`: type name to constructor, own properties only. */
  type Registry = map<string, Impl>

  /** Every registered constructor was made by the discriminator under its own name. */
  predicate RegistryOk(m: Registry)
  {
    forall n :: n in m ==> m[n].Sub? && m[n].name == n
  }

  /** Account.discriminator(type, impl): registers a new constructor deriving from `impl`
      (the base when none is given) under `type`, once. */
  function Discriminate(m: Registry, name: string, parent: Option<Impl>): (r: Result<(Registry, Impl), Error>)
    ensures r.Success? <==> name !in m
    ensures r.Failure? ==> r.error == DiscriminatorDefined(name)
    ensures r.Success? ==>
              && r.value.0 == m[name := r.value.1]
              && r.value.1 == Sub(name, if parent.Some? then parent.value else Base)
              && IsA(r.value.1, Base)
              && (parent.Some? ==> IsA(r.value.1, parent.value))
              && (RegistryOk(m) ==> RegistryOk(r.value.0))
  {
    if name in m then Failure(DiscriminatorDefined(name))
    else
      var impl := Sub(name, if parent.Some? then parent.value else Base);
      EveryAccountIsABase(impl);
      Success((m[name := impl], impl))
  }

  /** The constructor `create` and `get` pick for a `type` value: the base for a falsy
      type, the registered constructor otherwise (none when the name is not registered). */
  function Resolve(m: Registry, t: Value): (r: Option<Impl>)
    ensures !Truthy(t) ==> r == Some(Base)
    ensures Truthy(t) ==> (r.Some? <==> PropertyKey(t) in m)
    ensures RegistryOk(m) && Truthy(t) && r.Some? ==> r.value.Sub? && r.value.name == PropertyKey(t) && r.value.name != ""
  {
    if !Truthy(t) then Some(Base)
    else if PropertyKey(t) in m then Some(m[PropertyKey(t)])
    else None
  }

  /** A registered constructor's name resolves back to it. */
  lemma ResolveRegistered(m: Registry, n: string)
    requires RegistryOk(m) && n in m && n != ""
    ensures Resolve(m, Str(n)) == Some(m[n])
  {
  }

  /** What `app._accountTypeMap[k]` reads as written: an own entry, a member every object
      inherits from `Object.prototype` (a truthy function), or `undefined`. */
  datatype Slot = Own(impl: Impl) | Inherited(member: string) | Absent

  function ReadAsWritten(m: Registry, k: string): Slot
  {
    if k in m then Own(m[k])
    else if k in ObjectPrototypeMembers then Inherited(k)
    else Absent
  }

  /** The discriminator as written: it refuses any name whose read is truthy, which takes in
      the inherited members. */
  function DiscriminateAsWritten(m: Registry, name: string, parent: Option<Impl>): Result<(Registry, Impl), Error>
  {
    if ReadAsWritten(m, name) != Absent then Failure(DiscriminatorDefined(name))
    else
      var impl := Sub(name, if parent.Some? then parent.value else Base);
      Success((m[name := impl], impl))
  }

  /** The two discriminators differ exactly on the unregistered names `Object.prototype`
      supplies: the one as written reports those as already defined. */
  lemma DiscriminateAsWrittenDiffers(m: Registry, name: string, parent: Option<Impl>)
    ensures (DiscriminateAsWritten(m, name, parent) != Discriminate(m, name, parent))
              <==> (name !in m && name in ObjectPrototypeMembers)
    ensures DiscriminateAsWritten(map[], "constructor", None) == Failure(DiscriminatorDefined("constructor"))
    ensures Discriminate(map[], "constructor", None).Success?
  {
    assert "constructor" in ObjectPrototypeMembers;
  }

  /** The constructor `create` (lib/account.js:159) and `get` (lib/account.js:245) pick
      as written: the base for a falsy type, otherwise whatever the type map yields for the
      name, which takes in the members every object inherits. */
  function ResolveAsWritten(m: Registry, t: Value): Slot
  {
    if !Truthy(t) then Own(Base) else ReadAsWritten(m, PropertyKey(t))
  }

  /** The pick as written agrees with `Resolve` except on the unregistered names that
      `Object.prototype` supplies, where it yields the inherited member instead of nothing. */
  lemma ResolveAsWrittenDiffers(m: Registry, t: Value)
    ensures Resolve(m, t).Some? ==> ResolveAsWritten(m, t) == Own(Resolve(m, t).value)
    ensures Resolve(m, t).None? ==>
              ResolveAsWritten(m, t) == if PropertyKey(t) in ObjectPrototypeMembers then Inherited(PropertyKey(t)) else Absent
    ensures ResolveAsWritten(map[], Str("toString")) == Inherited("toString") && Resolve(map[], Str("toString")).None?
  {
    assert "toString" in ObjectPrototypeMembers;
  }

  /** How `create` as written settles once it has picked a constructor: an own one goes on to
      the insert, none is an unrecognized type, and an inherited member fails with a
      TypeError. `new Object(params)` hands back the params object, whose `insert` is not a
      function; every other inherited member is not a constructor. */
  function CreateTypeAsWritten(m: Registry, t: Value): Result<Impl, Error>
  {
    match ResolveAsWritten(m, t)
    case Own(impl) => Success(impl)
    case Absent => Failure(UnrecognizedType(t))
    case Inherited(k) => Failure(if k == "constructor" then NotAFunction("insert") else NotAConstructor(t))
  }

  /** `create` as written differs from the corrected one exactly on the unregistered type
      names `Object.prototype` supplies: it rejects them with a TypeError instead of
      "unrecognized account type". */
  lemma CreateTypeAsWrittenDiffers(m: Registry, t: Value)
    ensures Resolve(m, t).Some? ==> CreateTypeAsWritten(m, t) == Success(Resolve(m, t).value)
    ensures Resolve(m, t).None? ==>
              && CreateTypeAsWritten(m, t).Failure?
              && (CreateTypeAsWritten(m, t).error == UnrecognizedType(t) <==> PropertyKey(t) !in ObjectPrototypeMembers)
    ensures CreateTypeAsWritten(map[], Str("toString")) == Failure(NotAConstructor(Str("toString")))
    ensures CreateTypeAsWritten(map[], Str("constructor")) == Failure(NotAFunction("insert"))
  {
    ResolveAsWrittenDiffers(m, t);
    ResolveAsWrittenDiffers(map[], Str("toString"));
    assert "constructor" in ObjectPrototypeMembers;
  }

  // ---------------------------------------------------------------------------
  // Statements

  /** `Account.schema.fields`, in declaration order. */
  const Schema: seq<string> := Store.DataColumns

  /** The fields of `cols` that `a` defines (`typeof a[field] !== 'undefined'`), in order. */
  function PresentFields(a: Attrs, cols: seq<string>): (fs: seq<string>)
    ensures forall f :: f in fs <==> f in cols && Defined(a, f)
    ensures Store.Distinct(cols) ==> Store.Distinct(fs)
    decreases |cols|
  {
    if cols == [] then []
    else
      var last := cols[|cols| - 1];
      assert forall f :: f in cols <==> f in cols[..|cols| - 1] || f == last;
      PresentFields(a, cols[..|cols| - 1]) + (if Defined(a, last) then [last] else [])
  }

  /** The values `a` holds for the fields `fs`, in the same order. */
  function ValuesOf(a: Attrs, fs: seq<string>): (vs: seq<Value>)
    ensures |vs| == |fs|
    ensures forall i :: 0 <= i < |fs| ==> vs[i] == Get(a, fs[i])
    decreases |fs|
  {
    if fs == [] then [] else ValuesOf(a, fs[..|fs| - 1]) + [Get(a, fs[|fs| - 1])]
  }

  /** `$1, $2, ...` */
  function Placeholders(n: nat): (ps: seq<int>)
    ensures |ps| == n
    ensures forall i :: 0 <= i < n ==> ps[i] == i + 1
  {
    if n == 0 then [] else Placeholders(n - 1) + [n]
  }

  /** The INSERT `insert` sends: every schema field the account defines, bound in order. */
  function InsertQueryFor(a: Attrs): Store.InsertQuery
  {
    var fs := PresentFields(a, Schema);
    Store.InsertQuery(fs, ValuesOf(a, fs), Placeholders(|fs|))
  }

  /** `"field" = $i` for the i-th of `fs`. */
  function SetParams(fs: seq<string>): (asg: seq<Store.Assignment>)
    ensures |asg| == |fs|
    ensures forall i :: 0 <= i < |fs| ==> asg[i] == Store.SetParam(fs[i], i + 1)
    decreases |fs|
  {
    if fs == [] then [] else SetParams(fs[..|fs| - 1]) + [Store.SetParam(fs[|fs| - 1], |fs|)]
  }

  /** The UPDATE `update` sends: every schema field `changes` defines, then `updated_at`
      set to NOW(), for the row whose id is bound last. */
  function UpdateQueryFor(changes: Attrs, id: Value): Store.UpdateQuery
  {
    var fs := PresentFields(changes, Schema);
    Store.UpdateQuery(SetParams(fs) + [Store.SetNow("updated_at")], ValuesOf(changes, fs) + [id], |fs| + 1)
  }

  /** `x` stands before `y` in `cols`. */
  ghost predicate Before(cols: seq<string>, x: string, y: string)
  {
    exists p, q :: 0 <= p < q < |cols| && cols[p] == x && cols[q] == y
  }

  /** The fields sent keep the order of the schema. */
  lemma {:induction false} PresentFieldsInOrder(a: Attrs, cols: seq<string>)
    ensures forall i, j :: 0 <= i < j < |PresentFields(a, cols)| ==>
              Before(cols, PresentFields(a, cols)[i], PresentFields(a, cols)[j])
    decreases |cols|
  {
    if cols != [] {
      var init, last := cols[..|cols| - 1], cols[|cols| - 1];
      PresentFieldsInOrder(a, init);
      var front := PresentFields(a, init);
      var fs := PresentFields(a, cols);
      assert fs == front + (if Defined(a, last) then [last] else []);
      forall i, j | 0 <= i < j < |fs|
        ensures Before(cols, fs[i], fs[j])
      {
        if j < |front| {
          assert fs[i] == front[i] && fs[j] == front[j];
          assert Before(init, front[i], front[j]);
          var p, q :| 0 <= p < q < |init| && init[p] == fs[i] && init[q] == fs[j];
          assert cols[p] == fs[i] && cols[q] == fs[j];
        } else {
          assert fs[i] == front[i] && front[i] in front && fs[j] == last;
          var p :| 0 <= p < |init| && init[p] == fs[i];
          assert cols[p] == fs[i] && cols[|cols| - 1] == fs[j];
        }
      }
    }
  }

  /** One more column: the fields defined so far, then that column if it is defined. */
  lemma PresentFieldsStep(a: Attrs, cols: seq<string>, i: int)
    requires 0 <= i < |cols|
    ensures PresentFields(a, cols[..i + 1]) == PresentFields(a, cols[..i]) + (if Defined(a, cols[i]) then [cols[i]] else [])
  {
    assert cols[..i + 1][..i] == cols[..i];
  }

  /** Binding one more field appends its value and its assignment. */
  lemma BindStep(a: Attrs, fs: seq<string>, f: string)
    ensures ValuesOf(a, fs + [f]) == ValuesOf(a, fs) + [Get(a, f)]
    ensures SetParams(fs + [f]) == SetParams(fs) + [Store.SetParam(f, |fs| + 1)]
  {
    assert (fs + [f])[..|fs|] == fs;
  }

  /** The loop of `insert` over the schema fields. */
  method BuildInsert(a: Attrs) returns (q: Store.InsertQuery)
    ensures q == InsertQueryFor(a)
  {
    var fields: seq<string> := [];
    var values: seq<Value> := [];
    var i := 0;
    while i < |Schema|
      invariant 0 <= i <= |Schema|
      invariant fields == PresentFields(a, Schema[..i])
      invariant values == ValuesOf(a, fields)
    {
      var field := Schema[i];
      PresentFieldsStep(a, Schema, i);
      if Defined(a, field) {
        BindStep(a, fields, field);
        fields := fields + [field];
        values := values + [a[field]];
      }
      i := i + 1;
    }
    assert Schema[..i] == Schema;
    q := Store.InsertQuery(fields, values, Placeholders(|values|));
  }

  /** The loop of `update` over the schema fields: each defined field is bound to the next
      parameter; then `updated_at` and the id. */
  method BuildUpdate(changes: Attrs, id: Value) returns (q: Store.UpdateQuery)
    ensures q == UpdateQueryFor(changes, id)
  {
    var names: seq<string> := [];
    var fields: seq<Store.Assignment> := [];
    var values: seq<Value> := [];
    var i := 0;
    while i < |Schema|
      invariant 0 <= i <= |Schema|
      invariant names == PresentFields(changes, Schema[..i])
      invariant values == ValuesOf(changes, names)
      invariant fields == SetParams(names)
    {
      var field := Schema[i];
      PresentFieldsStep(changes, Schema, i);
      if Defined(changes, field) {
        BindStep(changes, names, field);
        values := values + [changes[field]];
        fields := fields + [Store.SetParam(field, |values|)];
        names := names + [field];
      }
      i := i + 1;
    }
    assert Schema[..i] == Schema;
    fields := fields + [Store.SetNow("updated_at")];
    values := values + [id];
    q := Store.UpdateQuery(fields, values, |values|);
  }

  /** An INSERT of distinct data columns, each bound in order to the account's own
      (defined) value, is well formed and sets exactly those columns to those values. */
  lemma BoundInsert(a: Attrs, fs: seq<string>)
    requires Store.Distinct(fs)
    requires forall f :: f in fs ==> f in Store.DataColumns && Defined(a, f)
    ensures var q := Store.InsertQuery(fs, ValuesOf(a, fs), Placeholders(|fs|));
            && Store.InsertWellFormed(q)
            && (forall c :: c in Store.InsertColumns(q) <==> c in fs)
            && (forall c :: c in Store.InsertColumns(q) ==> Store.InsertColumns(q)[c] == Get(a, c))
  {
    var q := Store.InsertQuery(fs, ValuesOf(a, fs), Placeholders(|fs|));
    assert Store.InsertWellFormed(q);
    Store.InsertColumnsFrom(q);
    var cols := Store.InsertColumns(q);
    forall c | c in cols ensures cols[c] == Get(a, c) {
      var i :| 0 <= i < |fs| && fs[i] == c;
      Store.InsertColumnsAt(q, i);
      assert cols[fs[i]] == Store.Param(Get(a, c));
    }
  }

  /** The INSERT is well formed and binds exactly the schema fields the account defines, each
      to its own value. */
  lemma InsertQueryShape(a: Attrs)
    ensures Store.InsertWellFormed(InsertQueryFor(a))
    ensures forall c :: c in Store.InsertColumns(InsertQueryFor(a)) <==> c in Schema && Defined(a, c)
    ensures forall c :: c in Store.InsertColumns(InsertQueryFor(a)) ==> Store.InsertColumns(InsertQueryFor(a))[c] == Get(a, c)
  {
    var fs := PresentFields(a, Schema);
    assert Store.Distinct(Schema);
    BoundInsert(a, fs);
  }

  /** The UPDATE of distinct data columns, then `updated_at`, with the id bound last, is
      well formed. */
  lemma BoundUpdateWellFormed(changes: Attrs, fs: seq<string>, id: Value)
    requires Store.Distinct(fs)
    requires forall f :: f in fs ==> f in Store.DataColumns
    ensures Store.UpdateWellFormed(Store.UpdateQuery(SetParams(fs) + [Store.SetNow("updated_at")], ValuesOf(changes, fs) + [id], |fs| + 1))
  {
    var asg := SetParams(fs) + [Store.SetNow("updated_at")];
    var vs := ValuesOf(changes, fs) + [id];
    assert "updated_at" !in Store.DataColumns;
    forall i | 0 <= i < |asg| ensures Store.AssignmentOk(asg[i], |vs|) {
      if i < |fs| {
        assert asg[i] == Store.SetParam(fs[i], i + 1);
      }
    }
    forall i, j | 0 <= i < j < |asg| ensures asg[i].field != asg[j].field {
      assert asg[i].field == fs[i];
      if j < |fs| {
        assert asg[j].field == fs[j];
      }
    }
  }

  /** An UPDATE of distinct data columns, each bound in order to its (defined) new value,
      then `updated_at` set to the clock and the id bound last, is well formed and sets
      exactly those columns and `updated_at`. */
  lemma BoundUpdate(changes: Attrs, fs: seq<string>, id: Value, now: Value)
    requires Store.Distinct(fs)
    requires forall f :: f in fs ==> f in Store.DataColumns && Defined(changes, f)
    ensures var q := Store.UpdateQuery(SetParams(fs) + [Store.SetNow("updated_at")], ValuesOf(changes, fs) + [id], |fs| + 1);
            && Store.UpdateWellFormed(q)
            && q.values[q.idIndex - 1] == id
            && var cols := Store.UpdateColumns(q, now);
            && (forall c :: c in cols <==> c in fs || c == "updated_at")
            && (forall c :: c in cols && c != "updated_at" ==> cols[c] == Get(changes, c))
            && "updated_at" in cols && cols["updated_at"] == now
  {
    var asg := SetParams(fs) + [Store.SetNow("updated_at")];
    var vs := ValuesOf(changes, fs) + [id];
    var q := Store.UpdateQuery(asg, vs, |fs| + 1);
    BoundUpdateWellFormed(changes, fs, id);
    var cols := Store.UpdateColumns(q, now);
    forall c | c in fs ensures c in cols && cols[c] == Get(changes, c) {
      var i :| 0 <= i < |fs| && fs[i] == c;
      Store.UpdateColumnsAt(q, now, i);
      assert asg[i] == Store.SetParam(c, i + 1);
      assert vs[i] == Get(changes, c) && Defined(changes, c);
    }
    forall c | c in cols ensures c in fs || c == "updated_at" {
      var i := Store.UpdateColumnsFrom(q, now, c);
      if i < |fs| {
        assert asg[i].field == fs[i];
      }
    }
    Store.UpdateColumnsAt(q, now, |fs|);
  }

  /** The UPDATE sets exactly the schema fields `changes` defines, to their values, and
      `updated_at` to the clock reading; the id is bound last. */
  lemma UpdateQueryShape(changes: Attrs, id: Value, now: Value)
    ensures Store.UpdateWellFormed(UpdateQueryFor(changes, id))
    ensures var cols := Store.UpdateColumns(UpdateQueryFor(changes, id), now);
            && (forall c :: c in cols <==> (c in Schema && Defined(changes, c)) || c == "updated_at")
            && (forall c :: c in cols && c != "updated_at" ==> cols[c] == Get(changes, c))
            && "updated_at" in cols && cols["updated_at"] == now
    ensures var q := UpdateQueryFor(changes, id); q.values[q.idIndex - 1] == id
  {
    assert Store.Distinct(Schema);
    BoundUpdate(changes, PresentFields(changes, Schema), id, now);
  }

  /** `attributes.key || (attributes.key = null)`: a falsy key becomes NULL. */
  function NormaliseKey(a: Attrs): (r: Attrs)
    ensures r.Keys == a.Keys + {"key"}
    ensures forall k :: k in a && k != "key" ==> r[k] == a[k]
    ensures Truthy(Get(a, "key")) ==> r == a
    ensures !Truthy(Get(a, "key")) ==> r["key"] == Null
  {
    if Truthy(Get(a, "key")) then a else a["key" := Null]
  }

  /** An account without a (truthy) key is never stored: its insert always fails, on the
      NOT NULL constraint of `key` unless some other parameter failed to convert first. */
  lemma KeylessInsertFails(t: Store.Table, a: Attrs, now: Value)
    requires !Truthy(Get(a, "key"))
    ensures var (reply, t') := Store.ExecInsert(t, InsertQueryFor(NormaliseKey(a)), now);
            && reply.Failure?
            && (reply.error.InvalidInput? || reply.error == NotNullViolation("key"))
            && t'.rows == t.rows
  {
    var sent := NormaliseKey(a);
    InsertQueryShape(sent);
    assert "key" in Schema;
    Store.InsertWithoutKeyFails(t, InsertQueryFor(sent), now);
  }

  /** Attributes the table accepts as a new row: a non-empty key no row holds; every
      defined schema field of the column's type, and set where the column is NOT NULL;
      and the prepaid check met by the row the defaults complete. */
  ghost predicate Insertable(t: Store.Table, a: Attrs)
  {
    && Get(a, "key").Str? && Get(a, "key").s != "" && Get(a, "key").s !in t.byKey
    && (forall c :: c in Schema && Defined(a, c) ==>
          Store.Converts(c, Get(a, c)) && (c in Store.NotNullColumns ==> Get(a, c) != Null))
    && (Get(a, "postpaid") == Bool(true) || !Defined(a, "balance") ||
        (Get(a, "balance").Num? && Get(a, "balance").n >= 0))
  }

  /** An insert of such attributes succeeds. */
  lemma InsertSucceeds(t: Store.Table, a: Attrs, now: Value)
    requires Insertable(t, a)
    ensures Store.ExecInsert(t, InsertQueryFor(NormaliseKey(a)), now).0.Success?
  {
    assert NormaliseKey(a) == a;
    InsertQueryShape(a);
    InsertableConverts(t, a);
    InsertableMeetsConstraints(t, a, now);
    Store.InsertAccepted(t, InsertQueryFor(a), now);
  }

  lemma InsertableConverts(t: Store.Table, a: Attrs)
    requires Insertable(t, a)
    ensures Store.FirstUnconvertible(Store.InsertColumns(InsertQueryFor(a)), Store.DataColumns).None?
  {
    InsertQueryShape(a);
  }

  lemma InsertableMeetsConstraints(t: Store.Table, a: Attrs, now: Value)
    requires Insertable(t, a)
    ensures Store.Violation(t.(nextId := t.nextId + 1), t.nextId,
                            Store.Defaults(t.nextId, now) + Store.InsertColumns(InsertQueryFor(a))).None?
  {
    var id := t.nextId;
    InsertableKey(t, a, id, now);
    InsertableNotNull(t, a, id, now);
    InsertableCheck(t, a, id, now);
    Store.NoViolation(t.(nextId := id + 1), id, Store.Defaults(id, now) + Store.InsertColumns(InsertQueryFor(a)));
  }

  lemma InsertableKey(t: Store.Table, a: Attrs, id: int, now: Value)
    requires Insertable(t, a)
    ensures var row := Store.Defaults(id, now) + Store.InsertColumns(InsertQueryFor(a));
            "key" in row && row["key"] == Get(a, "key")
  {
    InsertedColumn(a, id, now, "key");
  }

  lemma InsertableNotNull(t: Store.Table, a: Attrs, id: int, now: Value)
    requires Insertable(t, a)
    ensures var row := Store.Defaults(id, now) + Store.InsertColumns(InsertQueryFor(a));
            && "balance" in row && "postpaid" in row && "status" in row
            && row["balance"] != Null && row["postpaid"] != Null && row["status"] != Null
  {
    Store.DefaultValues(id, now);
    InsertedColumn(a, id, now, "balance");
    InsertedColumn(a, id, now, "postpaid");
    InsertedColumn(a, id, now, "status");
  }

  lemma InsertableCheck(t: Store.Table, a: Attrs, id: int, now: Value)
    requires Insertable(t, a)
    ensures var row := Store.Defaults(id, now) + Store.InsertColumns(InsertQueryFor(a));
            && "balance" in row && "postpaid" in row
            && (row["postpaid"] == Bool(true) || (row["balance"].Num? && row["balance"].n >= 0))
  {
    Store.DefaultValues(id, now);
    InsertedColumn(a, id, now, "balance");
    InsertedColumn(a, id, now, "postpaid");
  }

  // ---------------------------------------------------------------------------
  // Instances

  /** Names an account instance answers with a truthy value besides its eight column
      getters: its own `attributes` and `_events`, the methods of `Account.prototype` and of
      `EventEmitter.prototype`, and what `Object.prototype` supplies. */
  const InstanceMembers: set<string> :=
    {"attributes", "_events", "insert", "update", "toObject",
     "on", "off", "once", "emit", "addListener", "removeListener", "removeAllListeners",
     "listeners", "rawListeners", "listenerCount", "setMaxListeners", "getMaxListeners",
     "prependListener", "prependOnceListener", "eventNames"} + ObjectPrototypeMembers

  /** The attribute names `toObject` replaces by the instance's own member. */
  const Shadowed: set<string> := InstanceMembers - Store.Columns

  /** An account instance: the constructor that made it and its attribute object. */
  class Account {
    const impl: Impl
    var attributes: Attrs

    constructor (impl: Impl, params: Option<Attrs>)
      ensures this.impl == impl
      ensures attributes == Construct(impl, Initial(params))
      ensures impl.Sub? ==> Get(attributes, "type") == Str(impl.name)
    {
      this.impl := impl;
      attributes := Construct(impl, Initial(params));
      ConstructStamps(impl, Initial(params));
    }

    /** `this[name]`: the column getters read through to the attributes; the other members
        are objects or functions (named by `Object(name)`); anything else is undefined. */
    function Property(name: string): (v: Value)
      reads this
      ensures name in Store.Columns ==> v == Get(attributes, name)
      ensures name in Shadowed ==> Truthy(v)
      ensures name !in Store.Columns && name !in Shadowed ==> v == Undefined
    {
      if name in Store.Columns then Get(attributes, name)
      else if name in InstanceMembers then Object(name)
      else Undefined
    }

    /** toObject(): a plain copy of the attributes, except that an attribute named like an
        instance member comes out as that member. */
    method ToObject() returns (obj: Attrs)
      ensures obj.Keys == attributes.Keys
      ensures forall k :: k in attributes && k !in Shadowed ==> obj[k] == attributes[k]
      ensures forall k :: k in attributes && k in Shadowed ==> obj[k] == Object(k)
      ensures attributes.Keys !! Shadowed ==> obj == attributes
    {
      var attrs := attributes;
      obj := map[];
      var pending := attrs.Keys;
      while pending != {}
        invariant pending <= attrs.Keys
        invariant obj.Keys == attrs.Keys - pending
        invariant forall k :: k in obj && k !in Shadowed ==> obj[k] == attrs[k]
        invariant forall k :: k in obj && k in Shadowed ==> obj[k] == Object(k)
        decreases pending
      {
        var key :| key in pending;
        var own := Property(key);
        obj := obj[key := if Truthy(own) then own else attrs[key]];
        pending := pending - {key};
      }
    }

    /** insert(callback): normalises a falsy key to NULL, then (once connected) sends the
        INSERT; on success the attributes become the stored row, which the database now
        holds under its new id. A failed statement destroys the connection. */
    method Insert(db: Store.Database, connect: Option<Error>, now: Value)
      returns (err: Option<Error>, release: Option<Db.Release>)
      requires db.Valid()
      modifies this, db
      ensures db.Valid()
      ensures connect.Some? ==>
                && err == connect && release.None?
                && attributes == NormaliseKey(old(attributes)) && db.table == old(db.table)
      ensures connect.None? ==>
                var (reply, t) := Store.ExecInsert(old(db.table), InsertQueryFor(NormaliseKey(old(attributes))), now);
                && db.table == t
                && (reply.Failure? ==>
                      && err == Some(reply.error) && release == Some(Db.Discarded(reply.error))
                      && attributes == NormaliseKey(old(attributes)))
                && (reply.Success? ==>
                      && err.None? && release == Some(Db.Pooled) && attributes == reply.value[0])
      ensures err.None? ==>
                && Get(attributes, "id") == Num(old(db.table).nextId)
                && db.table.rows == old(db.table.rows)[old(db.table).nextId := attributes]
    {
      attributes := NormaliseKey(attributes);
      if connect.Some? {
        return connect, None;
      }
      var q := BuildInsert(attributes);
      var reply, t := Store.ExecInsert(db.table, q, now).0, Store.ExecInsert(db.table, q, now).1;
      Store.InsertThenSelect(db.table, q, now);
      Store.InsertKeepsConsistent(db.table, q, now);
      db.table := t;
      if reply.Failure? {
        return Some(reply.error), Some(Db.Discarded(reply.error));
      }
      attributes := reply.value[0];
      err, release := None, Some(Db.Pooled);
    }

    /** update(changes, callback): refuses an account without a (truthy) id; otherwise sends
        the UPDATE and takes the updated row as its attributes. An id no row has is
        reported as AccountNotFound and leaves the attributes as they were. */
    method Update(changes: Attrs, db: Store.Database, connect: Option<Error>, now: Value)
      returns (err: Option<Error>, release: Option<Db.Release>)
      requires db.Valid()
      modifies this, db
      ensures db.Valid()
      ensures !Truthy(Get(old(attributes), "id")) ==>
                err == Some(MissingId) && release.None? && attributes == old(attributes) && db.table == old(db.table)
      ensures Truthy(Get(old(attributes), "id")) && connect.Some? ==>
                err == connect && release.None? && attributes == old(attributes) && db.table == old(db.table)
      ensures Truthy(Get(old(attributes), "id")) && connect.None? ==>
                var (reply, t) := Store.ExecUpdate(old(db.table), UpdateQueryFor(changes, Get(old(attributes), "id")), now);
                db.table == t && (err, release, attributes) == UpdateOutcome(reply, old(attributes))
      ensures err.None? ==> UpdatedTo(old(db.table), db.table, changes, Get(old(attributes), "id"), attributes, now)
      // an UPDATE the table accepts succeeds
      ensures (Truthy(Get(old(attributes), "id")) && connect.None? &&
               Updatable(old(db.table), Get(old(attributes), "id"), changes)) ==> err.None?
    {
      if !Truthy(Get(attributes, "id")) {
        return Some(MissingId), None;
      }
      if connect.Some? {
        return connect, None;
      }
      err, release := SendUpdate(changes, db, now);
    }

    /** The connected part of `update`: builds and runs the UPDATE of this account's id,
        then settles from the reply. */
    method SendUpdate(changes: Attrs, db: Store.Database, now: Value)
      returns (err: Option<Error>, release: Option<Db.Release>)
      requires db.Valid() && Truthy(Get(attributes, "id"))
      modifies this, db
      ensures db.Valid()
      ensures var (reply, t) := Store.ExecUpdate(old(db.table), UpdateQueryFor(changes, Get(old(attributes), "id")), now);
              db.table == t && (err, release, attributes) == UpdateOutcome(reply, old(attributes))
      ensures err.None? ==> UpdatedTo(old(db.table), db.table, changes, Get(old(attributes), "id"), attributes, now)
      ensures Updatable(old(db.table), Get(old(attributes), "id"), changes) ==> err.None?
    {
      var id := Get(attributes, "id");
      var q := BuildUpdate(changes, id);
      UpdatedRow(db.table, changes, id, now);
      if Updatable(db.table, id, changes) {
        UpdateSucceeds(db.table, id, changes, now);
      }
      var (reply, t) := Store.ExecUpdate(db.table, q, now);
      db.table := t;
      if reply.Failure? {
        return Some(reply.error), Some(Db.Discarded(reply.error));
      }
      if reply.value == [] {
        return Some(AccountNotFound), Some(Db.Pooled);
      }
      attributes := reply.value[0];
      err, release := None, Some(Db.Pooled);
    }
  }

  /** What a successful UPDATE of a truthy id leaves: the stored row under that id, with
      the changes applied and `updated_at` set to the clock; anything else changes nothing. */
  /** `after` is `before` with the row of `id` replaced by `row`, which keeps that id
      and carries `changes` and the clock reading `now`. */
  ghost predicate UpdatedTo(before: Store.Table, after: Store.Table, changes: Attrs, id: Value, row: Attrs, now: Value)
  {
    && Store.IdParam(id).Id?
    && Get(row, "id") == Num(Store.IdParam(id).n)
    && after.rows == before.rows[Store.IdParam(id).n := row]
    && Get(row, "updated_at") == now
    && (forall c :: c in Schema && Defined(changes, c) ==> Get(row, c) == Get(changes, c))
  }

  lemma UpdatedRow(t: Store.Table, changes: Attrs, id: Value, now: Value)
    requires Store.Consistent(t) && Truthy(id)
    ensures var (reply, t') := Store.ExecUpdate(t, UpdateQueryFor(changes, id), now);
            && Store.Consistent(t')
            && (reply.Failure? || reply == Success([]) ==> t' == t)
            && (reply.Success? && reply.value != [] ==> UpdatedTo(t, t', changes, id, reply.value[0], now))
  {
    var q := UpdateQueryFor(changes, id);
    UpdateQueryShape(changes, id, now);
    Store.UpdateChangesOnlyItsRow(t, q, now);
    Store.UpdateKeepsConsistent(t, q, now);
    var (reply, t') := Store.ExecUpdate(t, q, now);
    if reply.Success? && reply.value != [] {
      var n := Store.IdParam(id).n;
      assert Store.RowOk(n, t.rows[n]);
      MergedChanges(t.rows[n], Store.UpdateColumns(q, now), changes, Num(n), now);
    }
  }

  /** A column of a row after an UPDATE of `changes`: the change when there is one, the
      row's own value otherwise. */
  function After(row: Attrs, changes: Attrs, c: string): Value
  {
    if Defined(changes, c) then Get(changes, c) else Get(row, c)
  }

  /** An UPDATE the table accepts: the id names a stored row; every defined schema change
      is of the column's type, and set where the column is NOT NULL; a new key is held by
      no other row; and the prepaid check holds on the row as changed. */
  ghost predicate Updatable(t: Store.Table, id: Value, changes: Attrs)
  {
    && Store.IdParam(id).Id? && Store.IdParam(id).n in t.rows
    && (forall c :: c in Schema && Defined(changes, c) ==>
          Store.Converts(c, Get(changes, c)) && (c in Store.NotNullColumns ==> Get(changes, c) != Null))
    && (Get(changes, "key").Str? && Get(changes, "key").s in t.byKey ==>
          t.byKey[Get(changes, "key").s] == Store.IdParam(id).n)
    && var row := t.rows[Store.IdParam(id).n];
       After(row, changes, "postpaid") == Bool(true) ||
       (After(row, changes, "balance").Num? && After(row, changes, "balance").n >= 0)
  }

  /** Such an UPDATE succeeds and returns the stored row merged with its columns. */
  lemma UpdateSucceeds(t: Store.Table, id: Value, changes: Attrs, now: Value)
    requires Store.Consistent(t) && Updatable(t, id, changes)
    ensures var q := UpdateQueryFor(changes, id);
            Store.ExecUpdate(t, q, now).0 == Success([t.rows[Store.IdParam(id).n] + Store.UpdateColumns(q, now)])
  {
    var n := Store.IdParam(id).n;
    UpdateQueryShape(changes, id, now);
    UpdatableConverts(t, id, changes, now);
    UpdatableMeetsConstraints(t, id, changes, now);
    Store.UpdateAccepted(t, UpdateQueryFor(changes, id), now, n);
  }

  lemma UpdatableConverts(t: Store.Table, id: Value, changes: Attrs, now: Value)
    requires Updatable(t, id, changes)
    ensures Store.FirstUnconvertible(Store.UpdateColumns(UpdateQueryFor(changes, id), now), Store.DataColumns).None?
  {
    UpdateQueryShape(changes, id, now);
  }

  /** A schema column of the merged row. */
  lemma UpdatedColumn(base: Attrs, changes: Attrs, id: Value, now: Value, c: string)
    requires c in Schema && c in base
    ensures var merged := base + Store.UpdateColumns(UpdateQueryFor(changes, id), now);
            c in merged && merged[c] == After(base, changes, c)
  {
    UpdateQueryShape(changes, id, now);
  }

  lemma UpdatableMeetsConstraints(t: Store.Table, id: Value, changes: Attrs, now: Value)
    requires Store.Consistent(t) && Updatable(t, id, changes)
    ensures var n := Store.IdParam(id).n;
            Store.Violation(t, n, t.rows[n] + Store.UpdateColumns(UpdateQueryFor(changes, id), now)).None?
  {
    var n := Store.IdParam(id).n;
    assert Store.RowOk(n, t.rows[n]);
    UpdatableKey(t, id, changes, now);
    UpdatableNotNull(t, id, changes, now);
    UpdatableCheck(t, id, changes, now);
    Store.NoViolation(t, n, t.rows[n] + Store.UpdateColumns(UpdateQueryFor(changes, id), now));
  }

  lemma UpdatableKey(t: Store.Table, id: Value, changes: Attrs, now: Value)
    requires Store.Consistent(t) && Updatable(t, id, changes)
    ensures var n := Store.IdParam(id).n;
            var merged := t.rows[n] + Store.UpdateColumns(UpdateQueryFor(changes, id), now);
            && "key" in merged && merged["key"].Str?
            && (merged["key"].s in t.byKey ==> t.byKey[merged["key"].s] == n)
  {
    var n := Store.IdParam(id).n;
    assert Store.RowOk(n, t.rows[n]);
    UpdatedColumn(t.rows[n], changes, id, now, "key");
    if !Defined(changes, "key") {
      assert Store.KeyOf(t.rows[n]) == t.rows[n]["key"].s;
    }
  }

  lemma UpdatableNotNull(t: Store.Table, id: Value, changes: Attrs, now: Value)
    requires Store.Consistent(t) && Updatable(t, id, changes)
    ensures var n := Store.IdParam(id).n;
            var merged := t.rows[n] + Store.UpdateColumns(UpdateQueryFor(changes, id), now);
            && "balance" in merged && "postpaid" in merged && "status" in merged
            && merged["balance"] != Null && merged["postpaid"] != Null && merged["status"] != Null
  {
    var n := Store.IdParam(id).n;
    assert Store.RowOk(n, t.rows[n]);
    UpdatedColumn(t.rows[n], changes, id, now, "balance");
    UpdatedColumn(t.rows[n], changes, id, now, "postpaid");
    UpdatedColumn(t.rows[n], changes, id, now, "status");
  }

  lemma UpdatableCheck(t: Store.Table, id: Value, changes: Attrs, now: Value)
    requires Store.Consistent(t) && Updatable(t, id, changes)
    ensures var n := Store.IdParam(id).n;
            var merged := t.rows[n] + Store.UpdateColumns(UpdateQueryFor(changes, id), now);
            && "balance" in merged && "postpaid" in merged
            && (merged["postpaid"] == Bool(true) || (merged["balance"].Num? && merged["balance"].n >= 0))
  {
    var n := Store.IdParam(id).n;
    assert Store.RowOk(n, t.rows[n]);
    UpdatedColumn(t.rows[n], changes, id, now, "balance");
    UpdatedColumn(t.rows[n], changes, id, now, "postpaid");
  }

  /** A row merged with the columns of an UPDATE of `changes` keeps its id and takes the
      changes and the clock reading. */
  lemma MergedChanges(base: Attrs, cols: map<string, Value>, changes: Attrs, id: Value, now: Value)
    requires "id" in base && base["id"] == id
    requires forall c :: c in cols <==> (c in Schema && Defined(changes, c)) || c == "updated_at"
    requires forall c :: c in cols && c != "updated_at" ==> cols[c] == Get(changes, c)
    requires "updated_at" in cols && cols["updated_at"] == now
    ensures Get(base + cols, "id") == id && Get(base + cols, "updated_at") == now
    ensures forall c :: c in Schema && Defined(changes, c) ==> Get(base + cols, c) == Get(changes, c)
  {
    assert "id" !in cols;
  }

  /** How `update` settles once the UPDATE is answered: a refusal is reported and destroys
      the client; no matching row is reported as "not found"; otherwise the account takes
      the returned row. Only a success changes the attributes. */
  function UpdateOutcome(reply: Result<seq<Attrs>, Error>, attributes: Attrs): (Option<Error>, Option<Db.Release>, Attrs)
  {
    if reply.Failure? then (Some(reply.error), Some(Db.Discarded(reply.error)), attributes)
    else if reply.value == [] then (Some(AccountNotFound), Some(Db.Pooled), attributes)
    else (None, Some(Db.Pooled), reply.value[0])
  }

  /** The code as written and the corrected outcome part only on an UPDATE that matched
      no row: there the code reports success and drops the attributes. */
  lemma UpdateOutcomeCorrects(reply: Result<seq<Attrs>, Error>, attributes: Attrs)
    ensures reply != Success([]) ==>
              && UpdateOutcomeAsWritten(reply, attributes).0 == UpdateOutcome(reply, attributes).0
              && UpdateOutcomeAsWritten(reply, attributes).1 == Some(UpdateOutcome(reply, attributes).2)
    ensures reply == Success([]) ==>
              && UpdateOutcomeAsWritten(reply, attributes) == (None, None)
              && UpdateOutcome(reply, attributes) == (Some(AccountNotFound), Some(Db.Pooled), attributes)
  {
  }

  /** The callback outcome of `update` as written: the reply's first row becomes the
      attributes and no error is reported, even when no row matched (`None` stands for the
      `undefined` the attributes then hold). */
  function UpdateOutcomeAsWritten(reply: Result<seq<Attrs>, Error>, attributes: Attrs): (Option<Error>, Option<Attrs>)
  {
    if reply.Failure? then (Some(reply.error), Some(attributes))
    else if reply.value == [] then (None, None)
    else (None, Some(reply.value[0]))
  }

  /** An account whose id has no row (deleted, or never stored under it) updates
      "successfully" as written and loses its attributes. */
  lemma UpdateOfMissingRowAsWritten(t: Store.Table, attributes: Attrs, changes: Attrs, now: Value)
    requires Truthy(Get(attributes, "id"))
    requires Store.IdParam(Get(attributes, "id")).Id? && Store.IdParam(Get(attributes, "id")).n !in t.rows
    requires forall c :: c in changes ==> Store.Converts(c, changes[c])
    ensures var reply := Store.ExecUpdate(t, UpdateQueryFor(changes, Get(attributes, "id")), now).0;
            && reply == Success([])
            && UpdateOutcomeAsWritten(reply, attributes) == (None, None)
  {
    UpdateQueryShape(changes, Get(attributes, "id"), now);
  }

  // ---------------------------------------------------------------------------
  // create and get

  /** Account.create(params): picks the constructor by `params.type`, builds the account and
      inserts it; an unregistered type is refused before anything is sent. */
  method Create(typeMap: Registry, params: Attrs, db: Store.Database, connect: Option<Error>, now: Value)
    returns (r: Result<Account, Error>, release: Option<Db.Release>)
    requires db.Valid() && RegistryOk(typeMap)
    modifies db
    ensures db.Valid()
    ensures Resolve(typeMap, Get(params, "type")).None? ==>
              r == Failure(UnrecognizedType(Get(params, "type"))) && release.None? && db.table == old(db.table)
    ensures Resolve(typeMap, Get(params, "type")).Some? && connect.Some? ==>
              r == Failure(connect.value) && release.None? && db.table == old(db.table)
    ensures Resolve(typeMap, Get(params, "type")).Some? && connect.None? ==>
              var impl := Resolve(typeMap, Get(params, "type")).value;
              var (reply, t) := Store.ExecInsert(old(db.table), InsertQueryFor(NormaliseKey(Construct(impl, params))), now);
              && db.table == t
              && (reply.Failure? ==> r == Failure(reply.error) && release == Some(Db.Discarded(reply.error)))
              && (reply.Success? ==> r.Success? && r.value.impl == impl && r.value.attributes == reply.value[0])
    // a connected create of insertable attributes succeeds
    ensures Resolve(typeMap, Get(params, "type")).Some? && connect.None? &&
            Insertable(old(db.table), Construct(Resolve(typeMap, Get(params, "type")).value, params)) ==>
              r.Success?
    ensures r.Success? ==>
              var impl := Resolve(typeMap, Get(params, "type")).value;
              var row := r.value.attributes;
              && r.value.impl == impl
              && Get(row, "id") == Num(old(db.table).nextId)
              && db.table.rows == old(db.table.rows)[old(db.table).nextId := row]
              && (impl.Sub? ==> Get(row, "type") == Str(impl.name))
              && release == Some(Db.Pooled)
  {
    var impl := Resolve(typeMap, Get(params, "type"));
    if impl.None? {
      return Failure(UnrecognizedType(Get(params, "type"))), None;
    }
    var account := new Account(impl.value, Some(params));
    ghost var t0 := db.table;
    if connect.None? && Insertable(t0, Construct(impl.value, params)) {
      InsertSucceeds(t0, Construct(impl.value, params), now);
    }
    var err;
    err, release := account.Insert(db, connect, now);
    if err.Some? {
      return Failure(err.value), release;
    }
    CreatedRowType(typeMap, t0, impl.value, params, now);
    r := Success(account);
  }

  /** The field `get` looks up by: a truthy `key` wins over a truthy `id`; neither is an
      error. */
  function LookupField(query: Attrs): (r: Result<(string, Value), Error>)
    ensures r.Success? ==> Truthy(r.value.1) && r.value.1 == Get(query, r.value.0)
    ensures r.Success? ==> r.value.0 == (if Truthy(Get(query, "key")) then "key" else "id")
    ensures r.Failure? <==> !Truthy(Get(query, "key")) && !Truthy(Get(query, "id"))
    ensures r.Failure? ==> r.error == BadQueryParams
  {
    if Truthy(Get(query, "key")) then Success(("key", query["key"]))
    else if Truthy(Get(query, "id")) then Success(("id", query["id"]))
    else Failure(BadQueryParams)
  }

  /** What `get` settles with: an account made by `impl` from the row, no account, a
      rejection, or an exception thrown in the driver's callback (the promise never settles). */
  datatype Fetched = Found(impl: Impl, attributes: Attrs) | NotFound | Rejected(error: Error) | Thrown(error: Error)

  /** The outcome of `get` on a connected client, as a function of the table. */
  function Fetch(typeMap: Registry, t: Store.Table, query: Attrs): Fetched
  {
    match LookupField(query)
    case Failure(e) => Rejected(e)
    case Success((field, value)) =>
      match Store.ExecSelect(t, field, value)
      case Failure(e) => Rejected(e)
      case Success(rows) =>
        if rows == [] then NotFound
        else
          var ty := Get(rows[0], "type");
          match Resolve(typeMap, ty)
          case None => Thrown(NotAConstructor(ty))
          case Some(impl) => Found(impl, Construct(impl, rows[0]))
  }

  datatype GetOutcome = Resolved(account: Account) | Missing | Refused(error: Error) | Raised(error: Error)

  /** Account.get(query). The query is checked before connecting; a failed SELECT destroys
      the connection, any other reply returns it to the pool. */
  method GetAccount(typeMap: Registry, query: Attrs, db: Store.Database, connect: Option<Error>)
    returns (out: GetOutcome, release: Option<Db.Release>)
    ensures LookupField(query).Failure? ==> out == Refused(BadQueryParams) && release.None?
    ensures LookupField(query).Success? && connect.Some? ==> out == Refused(connect.value) && release.None?
    ensures LookupField(query).Success? && connect.None? ==>
              match Fetch(typeMap, db.table, query)
              case Found(impl, attrs) => out.Resolved? && out.account.impl == impl && out.account.attributes == attrs
                                         && release == Some(Db.Pooled)
              case NotFound => out == Missing && release == Some(Db.Pooled)
              case Rejected(e) => out == Refused(e) && release == Some(Db.Discarded(e))
              case Thrown(e) => out == Raised(e) && release == Some(Db.Pooled)
  {
    var lookup := LookupField(query);
    if lookup.Failure? {
      return Refused(lookup.error), None;
    }
    if connect.Some? {
      return Refused(connect.value), None;
    }
    var (field, value) := lookup.value;
    var reply := Store.ExecSelect(db.table, field, value);
    if reply.Failure? {
      return Refused(reply.error), Some(Db.Discarded(reply.error));
    }
    release := Some(Db.Pooled);
    if reply.value == [] {
      return Missing, release;
    }
    var row := reply.value[0];
    var impl := Resolve(typeMap, Get(row, "type"));
    if impl.None? {
      return Raised(NotAConstructor(Get(row, "type"))), release;
    }
    var account := new Account(impl.value, Some(row));
    out := Resolved(account);
  }

  /** A row wrapped by the constructor its own `type` resolves to keeps its attributes. */
  lemma {:induction false} WrapStoredRow(m: Registry, row: Attrs)
    requires RegistryOk(m)
    requires Resolve(m, Get(row, "type")).Some?
    requires Get(row, "type").Str? || !Truthy(Get(row, "type"))
    ensures Construct(Resolve(m, Get(row, "type")).value, row) == row
  {
    var impl := Resolve(m, Get(row, "type")).value;
    ConstructStamps(impl, row);
    if impl.Sub? {
      assert row["type"] == Str(impl.name);
    }
  }

  /** A schema column of an inserted row holds the account's value when it defines one,
      the column default otherwise. */
  lemma InsertedColumn(a: Attrs, id: int, now: Value, c: string)
    requires c in Schema
    ensures var row := Store.Defaults(id, now) + Store.InsertColumns(InsertQueryFor(a));
            c in row && row[c] == if Defined(a, c) then a[c] else Store.Defaults(id, now)[c]
  {
    InsertQueryShape(a);
  }

  /** The `type` column of the row inserted for a created account: the type its
      constructor left, NULL when it left none. */
  lemma InsertedType(impl: Impl, params: Attrs, id: int, now: Value)
    ensures var made := Construct(impl, params);
            var row := Store.Defaults(id, now) + Store.InsertColumns(InsertQueryFor(NormaliseKey(made)));
            "type" in row && row["type"] == if Defined(made, "type") then made["type"] else Null
  {
    var made := Construct(impl, params);
    var sent := NormaliseKey(made);
    InsertedColumn(sent, id, now, "type");
    assert Store.Defaults(id, now)["type"] == Null;
    assert Get(sent, "type") == Get(made, "type");
  }

  /** A row whose `type` is the one a created account was sent with (NULL when it had
      none) resolves to the account's constructor, and wrapping the row with that
      constructor leaves it as it is. */
  lemma StoredTypeResolves(typeMap: Registry, impl: Impl, params: Attrs, row: Attrs)
    requires RegistryOk(typeMap) && Resolve(typeMap, Get(params, "type")) == Some(impl)
    requires var made := Construct(impl, params);
             "type" in row && row["type"] == if Defined(made, "type") then made["type"] else Null
    ensures Resolve(typeMap, Get(row, "type")) == Some(impl)
    ensures Construct(impl, row) == row
    ensures impl.Sub? ==> Get(row, "type") == Str(impl.name)
  {
    ConstructStamps(impl, params);
    var t := Get(params, "type");
    if impl.Sub? {
      assert Truthy(t) && PropertyKey(t) == impl.name;
      assert Get(Construct(impl, params), "type") == Str(impl.name);
      assert row["type"] == Str(impl.name);
      assert PropertyKey(Str(impl.name)) == impl.name;
      ConstructKeepsStamped(impl, row);
    } else {
      assert !Truthy(t);
      assert Construct(impl, params) == params;
      assert !Truthy(row["type"]);
    }
  }

  /** The stored row of a created account carries a type that resolves back to the
      account's constructor (its own name, for a sub-type), and wrapping the row with that
      constructor leaves it as it is. */
  lemma CreatedRowType(typeMap: Registry, t: Store.Table, impl: Impl, params: Attrs, now: Value)
    requires RegistryOk(typeMap)
    requires Resolve(typeMap, Get(params, "type")) == Some(impl)
    ensures var reply := Store.ExecInsert(t, InsertQueryFor(NormaliseKey(Construct(impl, params))), now).0;
            reply.Success? ==>
              && Resolve(typeMap, Get(reply.value[0], "type")) == Some(impl)
              && Construct(impl, reply.value[0]) == reply.value[0]
              && (impl.Sub? ==> Get(reply.value[0], "type") == Str(impl.name))
  {
    var sent := NormaliseKey(Construct(impl, params));
    var q := InsertQueryFor(sent);
    var reply := Store.ExecInsert(t, q, now).0;
    Store.InsertedRow(t, q, now);
    if reply.Success? {
      InsertedType(impl, params, t.nextId, now);
      StoredTypeResolves(typeMap, impl, params, reply.value[0]);
    }
  }

  /** What a successful insert of a created account stores: a row with a truthy key and a
      type that resolves back to the account's constructor, found again by key and by id. */
  lemma CreatedRow(typeMap: Registry, t: Store.Table, impl: Impl, params: Attrs, now: Value)
    requires Store.Consistent(t) && RegistryOk(typeMap)
    requires Resolve(typeMap, Get(params, "type")) == Some(impl)
    ensures var (reply, t') := Store.ExecInsert(t, InsertQueryFor(NormaliseKey(Construct(impl, params))), now);
            reply.Success? ==>
              var row := reply.value[0];
              && Truthy(Get(row, "key")) && Truthy(Get(row, "id"))
              && Resolve(typeMap, Get(row, "type")) == Some(impl)
              && Construct(impl, row) == row
              && Store.ExecSelect(t', "key", Get(row, "key")) == Success([row])
              && Store.ExecSelect(t', "id", Get(row, "id")) == Success([row])
  {
    var sent := NormaliseKey(Construct(impl, params));
    var q := InsertQueryFor(sent);
    var reply := Store.ExecInsert(t, q, now).0;
    Store.InsertThenSelect(t, q, now);
    Store.InsertedRow(t, q, now);
    CreatedRowType(typeMap, t, impl, params, now);
    if reply.Success? {
      InsertedColumn(sent, t.nextId, now, "key");
    }
  }

  /** What `create` stores, `get` finds again, by its key and by its id, as an instance of
      the same constructor holding the same attributes. */
  lemma CreatedThenFetched(typeMap: Registry, t: Store.Table, impl: Impl, params: Attrs, now: Value)
    requires Store.Consistent(t) && RegistryOk(typeMap)
    requires Resolve(typeMap, Get(params, "type")) == Some(impl)
    ensures var (reply, t') := Store.ExecInsert(t, InsertQueryFor(NormaliseKey(Construct(impl, params))), now);
            && (Insertable(t, Construct(impl, params)) ==> reply.Success?)
            && (reply.Success? ==>
                  var row := reply.value[0];
                  && Fetch(typeMap, t', map["key" := Get(row, "key")]) == Found(impl, row)
                  && Fetch(typeMap, t', map["id" := Get(row, "id")]) == Found(impl, row))
  {
    var (reply, t') := Store.ExecInsert(t, InsertQueryFor(NormaliseKey(Construct(impl, params))), now);
    if Insertable(t, Construct(impl, params)) {
      InsertSucceeds(t, Construct(impl, params), now);
    }
    CreatedRow(typeMap, t, impl, params, now);
    if reply.Success? {
      FetchedBoth(typeMap, t', impl, reply.value[0]);
    }
  }

  /** `get` reads an id given as text as the server does: a text that reads as a non-zero
      integer finds what that number finds. */
  lemma FetchByIdText(typeMap: Registry, t: Store.Table, s: string, n: int)
    requires IntegerText(s) == Some(n) && n != 0
    ensures Fetch(typeMap, t, map["id" := Str(s)]) == Fetch(typeMap, t, map["id" := Num(n)])
  {
    assert s != [];
    Store.IdParamOfNumber(n);
    assert Store.IdParam(Str(s)) == Store.Id(n);
    assert LookupField(map["id" := Str(s)]) == Success(("id", Str(s)));
    assert LookupField(map["id" := Num(n)]) == Success(("id", Num(n)));
  }

  /** Any other non-empty text is refused by the server as invalid input. */
  lemma FetchByNonIntegerText(typeMap: Registry, t: Store.Table, s: string)
    requires s != "" && IntegerText(s).None?
    ensures Fetch(typeMap, t, map["id" := Str(s)]) == Rejected(InvalidInput("id"))
  {
    assert Store.IdParam(Str(s)) == Store.NotAnId;
    assert LookupField(map["id" := Str(s)]) == Success(("id", Str(s)));
  }

  /** The number 0 is falsy, so `get` refuses it before connecting; the text '0' is truthy
      and looks up id 0, which no stored row has. */
  lemma FetchByZeroId(typeMap: Registry, t: Store.Table)
    requires Store.Consistent(t)
    ensures Fetch(typeMap, t, map["id" := Num(0)]) == Rejected(BadQueryParams)
    ensures Fetch(typeMap, t, map["id" := Str("0")]) == NotFound
  {
    assert IsDigits("0") && DigitsValue("0") == 0 && "0"[0] == '0';
    assert IntegerText("0") == Some(0);
    assert Store.IdParam(Str("0")) == Store.Id(0);
    assert 0 !in t.rows;
    assert LookupField(map["id" := Str("0")]) == Success(("id", Str("0")));
  }

  /** `get` by a single truthy key or id whose SELECT returns exactly `row`, and whose
      type resolves. */
  lemma FetchOfSelected(typeMap: Registry, t: Store.Table, field: string, v: Value, row: Attrs)
    requires (field == "key" || field == "id") && Truthy(v)
    requires Store.ExecSelect(t, field, v) == Success([row])
    requires Resolve(typeMap, Get(row, "type")).Some?
    ensures Fetch(typeMap, t, map[field := v]) == Found(Resolve(typeMap, Get(row, "type")).value,
                                                        Construct(Resolve(typeMap, Get(row, "type")).value, row))
  {
    var query := map[field := v];
    assert Get(query, field) == v;
    if field == "id" {
      assert Get(query, "key") == Undefined;
    }
    assert LookupField(query) == Success((field, v));
  }

  /** A stored row that both SELECTs find and whose type resolves to `impl`, which leaves
      it as it is, is what `get` finds by its key and by its id. */
  lemma FetchedBoth(typeMap: Registry, t: Store.Table, impl: Impl, row: Attrs)
    requires Truthy(Get(row, "key")) && Truthy(Get(row, "id"))
    requires Resolve(typeMap, Get(row, "type")) == Some(impl) && Construct(impl, row) == row
    requires Store.ExecSelect(t, "key", Get(row, "key")) == Success([row])
    requires Store.ExecSelect(t, "id", Get(row, "id")) == Success([row])
    ensures Fetch(typeMap, t, map["key" := Get(row, "key")]) == Found(impl, row)
    ensures Fetch(typeMap, t, map["id" := Get(row, "id")]) == Found(impl, row)
  {
    FetchOfSelected(typeMap, t, "key", Get(row, "key"), row);
    FetchOfSelected(typeMap, t, "id", Get(row, "id"), row);
  }
}
