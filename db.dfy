/** lib/db.js: the database configuration lookup and the transaction protocol run on a
    pooled client. The pool itself (`pg.connect`) is an oracle: the caller passes what it
    handed out, a client or an error. Replies of the server are oracles too. */
module Db {
  import opened Values

  // ---------------------------------------------------------------------------
  // Configuration

  /** An entry of the environment's section of `db/config.json`: a JSON scalar, or an
      object (which may redirect to an environment variable through its `ENV` member). */
  datatype ConfigEntry = Scalar(value: Value) | Nested(props: Attrs)

  /** A property read from the parsed section; a missing name reads as `undefined`. */
  function Entry(configs: map<string, ConfigEntry>, name: string): ConfigEntry
  {
    if name in configs then configs[name] else Scalar(Undefined)
  }

  /** `process.env[k]`: a variable that is not set reads as `undefined`. */
  function EnvVar(env: map<string, string>, k: string): Value
  {
    if k in env then Str(env[k]) else Undefined
  }

  /** getConfig(name, defaultValue). An object entry with a truthy `ENV` member is replaced
      by the environment variable it names; a missing entry by the default; a JSON `null`
      entry makes the `ENV` read throw a TypeError; anything else is returned as it is. */
  function GetConfig(configs: map<string, ConfigEntry>, env: map<string, string>,
                     name: string, defaultValue: Value): (r: Result<ConfigEntry, Error>)
    ensures r.Failure? <==> Entry(configs, name) == Scalar(Null)
    ensures r.Failure? ==> r.error == NullProperty("ENV")
    // the default is used exactly when the entry is missing (or undefined)
    ensures Entry(configs, name) == Scalar(Undefined) ==> r == Success(Scalar(defaultValue))
    // an ENV indirection is always resolved: to the named variable's text when it is set,
    // to undefined when it is not (the default is not used then)
    ensures Entry(configs, name).Nested? && Truthy(Get(Entry(configs, name).props, "ENV")) ==>
              var k := PropertyKey(Get(Entry(configs, name).props, "ENV"));
              r == Success(Scalar(if k in env then Str(env[k]) else Undefined))
    // a scalar other than null or undefined, and an object without ENV, come back unchanged
    ensures (Entry(configs, name).Scalar? && Entry(configs, name).value !in {Null, Undefined}) ||
            (Entry(configs, name).Nested? && !Truthy(Get(Entry(configs, name).props, "ENV"))) ==>
              r == Success(Entry(configs, name))
  {
    match Entry(configs, name)
    case Nested(props) =>
      if Truthy(Get(props, "ENV")) then Success(Scalar(EnvVar(env, PropertyKey(props["ENV"]))))
      else Success(Nested(props))
    case Scalar(Null) => Failure(NullProperty("ENV"))
    case Scalar(Undefined) => Success(Scalar(defaultValue))
    case Scalar(v) => Success(Scalar(v))
  }

  /** The connection settings read once at load time (`port` is kept as read; its
      `parseInt` is not modelled). */
  datatype Settings = Settings(user: ConfigEntry, password: ConfigEntry, host: ConfigEntry,
                               port: ConfigEntry, database: ConfigEntry)

  /** The names read by `new pg.Client(...)`, in the order they are read. */
  const SettingNames: seq<string> := ["user", "password", "host", "port", "database"]

  /** The settings module loads exactly when none of the five entries is a JSON `null`;
      each setting is what getConfig returns for it, with `localhost` the only default. */
  function Connection(configs: map<string, ConfigEntry>, env: map<string, string>): (r: Result<Settings, Error>)
    ensures r.Success? <==> forall n :: n in SettingNames ==> Entry(configs, n) != Scalar(Null)
    ensures r.Failure? ==> r.error == NullProperty("ENV")
    ensures r.Success? ==>
              && Success(r.value.user) == GetConfig(configs, env, "user", Undefined)
              && Success(r.value.password) == GetConfig(configs, env, "password", Undefined)
              && Success(r.value.host) == GetConfig(configs, env, "host", Str("localhost"))
              && Success(r.value.port) == GetConfig(configs, env, "port", Undefined)
              && Success(r.value.database) == GetConfig(configs, env, "database", Undefined)
  {
    var user := GetConfig(configs, env, "user", Undefined);
    var password := GetConfig(configs, env, "password", Undefined);
    var host := GetConfig(configs, env, "host", Str("localhost"));
    var port := GetConfig(configs, env, "port", Undefined);
    var database := GetConfig(configs, env, "database", Undefined);
    if user.Failure? then Failure(user.error)
    else if password.Failure? then Failure(password.error)
    else if host.Failure? then Failure(host.error)
    else if port.Failure? then Failure(port.error)
    else if database.Failure? then Failure(database.error)
    else Success(Settings(user.value, password.value, host.value, port.value, database.value))
  }

  /** The host falls back to `localhost` when the configuration does not name one, and an
      `ENV` indirection is never defaulted: the host is the named variable, or undefined
      when that variable is not set. */
  lemma HostDefault(configs: map<string, ConfigEntry>, env: map<string, string>)
    requires Connection(configs, env).Success?
    ensures "host" !in configs ==> Connection(configs, env).value.host == Scalar(Str("localhost"))
    ensures "host" in configs && configs["host"].Nested? && Truthy(Get(configs["host"].props, "ENV")) ==>
              var k := PropertyKey(Get(configs["host"].props, "ENV"));
              && (k in env ==> Connection(configs, env).value.host == Scalar(Str(env[k])))
              && (k !in env ==> Connection(configs, env).value.host == Scalar(Undefined))
  {
  }

  // ---------------------------------------------------------------------------
  // Transactions

  datatype Statement = Begin | Commit | Rollback | Sql(text: string)

  /** A statement the client sent and the error (if any) the server answered with. */
  datatype Sent = Sent(stmt: Statement, reply: Option<Error>)

  /** What the pool's release callback did with the client: nothing yet, took it back
      into the pool (`done()`), or destroyed it (`done(err)`). */
  datatype Release = Held | Pooled | Discarded(error: Error)

  function ReleaseFor(err: Option<Error>): (r: Release)
    ensures r != Held
    ensures r == Pooled <==> err.None?
  {
    if err.Some? then Discarded(err.value) else Pooled
  }

  /** A transaction in progress: a successful BEGIN, then the caller's own statements. */
  ghost predicate Open(log: seq<Sent>)
  {
    && |log| >= 1
    && log[0] == Sent(Begin, None)
    && forall i :: 1 <= i < |log| ==> log[i].stmt.Sql?
  }

  predicate Terminator(s: Statement)
  {
    s == Commit || s == Rollback
  }

  /** A transaction brought to its end by exactly one COMMIT or ROLLBACK. */
  ghost predicate Finished(log: seq<Sent>)
  {
    |log| >= 2 && Open(log[..|log| - 1]) && Terminator(log[|log| - 1].stmt)
  }

  /** The texts of the caller's statements, in the order sent. */
  function Work(log: seq<Sent>): (w: seq<string>)
    ensures |w| <= |log|
  {
    if log == [] then []
    else (if log[0].stmt.Sql? then [log[0].stmt.text] else []) + Work(log[1..])
  }

  lemma {:induction false} WorkAppend(a: seq<Sent>, b: seq<Sent>)
    ensures Work(a + b) == Work(a) + Work(b)
  {
    if a == [] {
      assert a + b == b;
    } else {
      var head := if a[0].stmt.Sql? then [a[0].stmt.text] else [];
      assert (a + b)[0] == a[0] && (a + b)[1..] == a[1..] + b;
      assert Work(a + b) == head + Work(a[1..] + b);
      WorkAppend(a[1..], b);
      assert head + (Work(a[1..]) + Work(b)) == (head + Work(a[1..])) + Work(b);
    }
  }

  /** Every statement of the caller's transaction is in its work. */
  lemma {:induction false} WorkOfOpen(log: seq<Sent>)
    requires forall i :: 0 <= i < |log| ==> log[i].stmt.Sql?
    ensures |Work(log)| == |log|
    ensures forall i :: 0 <= i < |log| ==> Work(log)[i] == log[i].stmt.text
  {
    if log != [] {
      WorkOfOpen(log[1..]);
    }
  }

  /** The work of an open transaction is every statement after its BEGIN, in order. */
  lemma {:induction false} OpenWork(log: seq<Sent>)
    requires Open(log)
    ensures |Work(log)| == |log| - 1
    ensures forall i :: 1 <= i < |log| ==> Work(log)[i - 1] == log[i].stmt.text
  {
    assert log == [log[0]] + log[1..];
    WorkAppend([log[0]], log[1..]);
    WorkOfOpen(log[1..]);
  }

  /** What a finished transaction leaves in the database: its work, when every statement
      succeeded and COMMIT succeeded; nothing otherwise (an error inside a PostgreSQL
      transaction turns the COMMIT into a ROLLBACK). */
  ghost function Effects(log: seq<Sent>): seq<string>
  {
    if Finished(log) && log[|log| - 1] == Sent(Commit, None)
       && (forall i :: 0 <= i < |log| ==> log[i].reply.None?)
    then Work(log[..|log| - 1])
    else []
  }

  /** A client is back in the pool only after a statement that ended its transaction
      cleanly; a client left mid-transaction, or after a failed end, is destroyed. */
  ghost predicate ReleasedCleanly(log: seq<Sent>, release: Release)
  {
    release == Pooled ==> |log| >= 1 && Terminator(log[|log| - 1].stmt) && log[|log| - 1].reply.None?
  }

  /** A pooled connection as handed out by `pg.connect`, with the statements it was sent
      since and the release decision. */
  class Client {
    var log: seq<Sent>
    var release: Release

    constructor ()
      ensures log == [] && release == Held
    {
      log := [];
      release := Held;
    }

    /** client.query(statement, callback): `reply` is the server's answer. */
    method Query(s: Statement, reply: Option<Error>) returns (err: Option<Error>)
      requires release == Held
      modifies this
      ensures log == old(log) + [Sent(s, reply)] && release == Held
      ensures err == reply
    {
      log := log + [Sent(s, reply)];
      err := reply;
    }

    /** The pool's release callback, `done(err)`. */
    method Done(err: Option<Error>)
      requires release == Held
      modifies this
      ensures release == ReleaseFor(err) && log == old(log)
    {
      release := ReleaseFor(err);
    }
  }

  /** rollback(client, complete): sends ROLLBACK and releases the client with its reply;
      a failed ROLLBACK destroys the client instead of pooling it. */
  method RollbackAndRelease(c: Client, reply: Option<Error>) returns (err: Option<Error>)
    requires c.release == Held
    modifies c
    ensures c.log == old(c.log) + [Sent(Rollback, reply)]
    ensures c.release == ReleaseFor(reply) && err == reply
    ensures ReleasedCleanly(c.log, c.release)
  {
    err := c.Query(Rollback, reply);
    c.Done(err);
  }

  /** transaction(callback): checks out a client (`connect`), sends BEGIN and hands the
      open transaction to the caller. A failed BEGIN is rolled back and the client released
      with the ROLLBACK's reply, while the caller gets the BEGIN error. */
  method Transaction(connect: Result<Client, Error>, begin: Option<Error>, rollback: Option<Error>)
    returns (r: Result<Client, Error>)
    requires connect.Success? ==> connect.value.release == Held && connect.value.log == []
    modifies if connect.Success? then {connect.value} else {}
    ensures connect.Failure? ==> r == Failure(connect.error)
    ensures connect.Success? && begin.Some? ==>
              && r == Failure(begin.value)
              && connect.value.log == [Sent(Begin, begin), Sent(Rollback, rollback)]
              && connect.value.release == ReleaseFor(rollback)
    ensures connect.Success? && begin.None? ==>
              && r == Success(connect.value)
              && Open(connect.value.log) && connect.value.log == [Sent(Begin, None)]
              && connect.value.release == Held
    ensures connect.Success? ==> ReleasedCleanly(connect.value.log, connect.value.release)
  {
    if connect.Failure? {
      return Failure(connect.error);
    }
    var c := connect.value;
    var err := c.Query(Begin, begin);
    if err.Some? {
      var _ := RollbackAndRelease(c, rollback);
      return Failure(err.value);
    }
    r := Success(c);
  }

  /** The caller's own statement inside the open transaction. */
  method Run(c: Client, text: string, reply: Option<Error>) returns (err: Option<Error>)
    requires c.release == Held && Open(c.log)
    modifies c
    ensures Open(c.log) && c.release == Held
    ensures c.log == old(c.log) + [Sent(Sql(text), reply)] && err == reply
    ensures Work(c.log) == Work(old(c.log)) + [text]
  {
    WorkAppend(c.log, [Sent(Sql(text), reply)]);
    err := c.Query(Sql(text), reply);
  }

  /** complete(error, done): a truthy `error` rolls the transaction back, anything else
      commits it; the client is released with the reply to that statement, and then the
      caller's `done` receives the same reply. `done` is optional to the caller: without
      one, calling it after the release throws a TypeError (`thrown`). */
  method Complete(c: Client, error: Option<Error>, commit: Option<Error>, rollback: Option<Error>, hasDone: bool)
    returns (reply: Option<Error>, thrown: Option<Error>)
    requires c.release == Held && Open(c.log)
    modifies c
    ensures Finished(c.log) && c.log[..|c.log| - 1] == old(c.log)
    ensures error.Some? ==> c.log[|c.log| - 1] == Sent(Rollback, rollback) && reply == rollback
    ensures error.None? ==> c.log[|c.log| - 1] == Sent(Commit, commit) && reply == commit
    // the client is released whether or not `done` was given
    ensures c.release == ReleaseFor(reply)
    ensures ReleasedCleanly(c.log, c.release)
    ensures thrown == if hasDone then None else Some(NotAFunction("done"))
    // a rolled-back transaction leaves nothing; a clean commit leaves all of its work
    ensures error.Some? ==> Effects(c.log) == []
    ensures error.None? && commit.None? && (forall i :: 0 <= i < |old(c.log)| ==> old(c.log)[i].reply.None?) ==>
              Effects(c.log) == Work(old(c.log))
  {
    ghost var before := c.log;
    if error.Some? {
      reply := RollbackAndRelease(c, rollback);
    } else {
      reply := c.Query(Commit, commit);
      c.Done(reply);
    }
    assert c.log[..|c.log| - 1] == before;
    thrown := if hasDone then None else Some(NotAFunction("done"));
  }
}
