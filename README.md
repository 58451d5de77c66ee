# Transaction machine accounts, modelled in Dafny

This project models the account layer of the transaction machine. That layer is an
application object that owns a type map of account constructors. The layer also covers:

- the account base class with its `discriminator`, the factory `create` and the lookup `get`;
- the instance operations `insert`, `update` and `toObject`;
- the database module's configuration lookup and its transaction protocol.

The PostgreSQL `account` table that the code talks to is modelled as an abstract table
(module `Store`). The table enforces the constraints of the migration that creates it:

- NOT NULL on `key`, `balance`, `postpaid` and `status`;
- the `prepaid_account_balance` CHECK;
- the unique `account_key_idx` index;
- the SERIAL `id`, which advances even when a constraint then refuses the row;
- the column types, with balances counted in cents.

Modules:

- `Values`: JavaScript values and truthiness, plain objects as maps, and the errors the layer reports.
- `Store`: the `account` table, plus the INSERT, UPDATE and SELECT statements the layer sends.
  Proved: every statement keeps the table consistent.
- `Db`: `getConfig`, the connection settings, and `transaction`/`rollback`. The transaction
  protocol is a log of statements on a client, together with how the pool released that client.
- `Accounts`: constructors, the discriminator and `instanceof`, the building of statements,
  `Account` instances (`insert`, `update`, `toObject`), and `create` and `get`.
- `Machine`: the application object, `init`, and the `account(type)` accessor.

Things outside the code are parameters. These are the pool's connect outcome, the server's
reply to each statement, the clock reading used for `NOW()`, and the process environment.

## Model

| member | source | states |
|---|---|---|
| Store.InsertThenSelect | db/migrations/20160214005355-create-account-table.js:8-19 | A successful INSERT adds exactly one row, under the fresh SERIAL id. The row holds the column defaults overridden by the inserted values, and its key was held by no row before. Selecting by its key or its id finds exactly that row. |
| Store.InsertKeepsConsistent | db/migrations/20160214005355-create-account-table.js:8-19 | Every INSERT, accepted or refused, leaves a consistent table. Each row meets NOT NULL, the prepaid CHECK, the enum and the column types. Each id is below the sequence. The unique key index maps each key to exactly its row. |
| Store.UpdateKeepsConsistent | db/migrations/20160214005355-create-account-table.js:8-19 | Every UPDATE leaves the table consistent. |
| Store.InsertWithoutKeyFails | db/migrations/20160214005355-create-account-table.js:9 | An INSERT whose key is NULL or missing is refused with a NOT NULL violation on `key`, unless a parameter failed to convert first. The table keeps its rows. |
| Store.DuplicateKeyRejected | db/migrations/20160214005355-create-account-table.js:19 | An INSERT of a key some row already holds is refused, and the table keeps its rows and its key index. When its parameters convert and the row passes the NOT NULL and prepaid checks, the refusal is the unique violation on `account_key_idx`, and the id sequence has advanced. |
| Store.DuplicateKeyViolates | db/migrations/20160214005355-create-account-table.js:19 | A row with a key held by a stored row, and meeting the NOT NULL and prepaid constraints, breaks the unique index `account_key_idx` when stored under a fresh id. |
| Store.InsertRefused | db/migrations/20160214005355-create-account-table.js:8-19 | An INSERT whose parameters convert but whose row breaks a constraint is refused with that constraint's error. Its rows and key index are kept, and the id sequence has advanced. |
| Store.UpdateChangesOnlyItsRow | lib/account.js:331-335 | An UPDATE ... WHERE id = $n changes at most the row with that id. It returns that row, or no row when the id has none. |
| Store.ExecInsert | db/migrations/20160214005355-create-account-table.js:8-19 | An accepted INSERT returns one row, stored under the sequence's current value, and the sequence advances. A refused one stores nothing and leaves the key index alone. The sequence still advances when a constraint refuses the row, but not when a parameter fails to convert. |
| Store.ExecUpdate | lib/account.js:331-335 | An UPDATE returns at most one row and never moves the id sequence. A refused UPDATE, and one that matches no row, leave the table as it was. |
| Store.ExecSelect | lib/account.js:229-231 | A SELECT returns at most one row. A lookup by key never fails, and what it finds is a stored row with that key. A lookup by id fails, as invalid input, exactly when the parameter's text is not an integer. Otherwise it finds exactly the row stored under that id. |
| Store.NumberTextSelectsAlike | lib/account.js:229-231 | For every integer n, the string holding n's decimal text selects the same id and the same key as the number n, and that id is n. |
| Store.NonIntegerTextIsNotAnId | lib/account.js:229-231 | A string with a character other than a digit, apart from a leading sign on a longer string, is not an id. A lookup by it is invalid input. |
| Store.SelectFindsStored | lib/account.js:229-231 | In a consistent table, every stored row is found again, alone, by a SELECT on its key and by one on its id. |
| Store.InsertAccepted | db/migrations/20160214005355-create-account-table.js:8-19 | An INSERT whose parameters convert and whose row breaks no constraint returns that row. The row is the column defaults overridden by the inserted columns, under the sequence's next id. |
| Store.UpdateAccepted | lib/account.js:331-335 | An UPDATE whose parameters convert, whose id parameter names a stored row, and whose merged row breaks no constraint returns that stored row merged with the new columns. |
| Store.NoViolation | db/migrations/20160214005355-create-account-table.js:8-19 | A row breaks no constraint when it has a string key held by no other row, non-null balance, postpaid and status, and passes the prepaid balance check. |
| Store.IdParamOfNumber | lib/account.js:229-231 | A number parameter selects the row with that id. |
| Values.NumberTextRoundTrip | lib/account.js:229-231 | The decimal text of an integer reads back as that integer. |
| Db.GetConfig | lib/db.js:61-72 | A missing entry gives the default. An object entry with a truthy ENV member resolves to the text of the environment variable it names, or to `undefined` when that variable is unset (never to the default). Any other entry comes back unchanged. A `null` entry fails, because the code reads `ENV` from it. |
| Db.Connection | lib/db.js:74-80 | The settings load exactly when none of `user`, `password`, `host`, `port` and `database` is a JSON `null`. Each setting is what getConfig returns for it, and only `host` has a default, `localhost`. |
| Db.HostDefault | lib/db.js:74-80 | Without a configured host, the connection host is `localhost`. A host redirected through a truthy `ENV` is the text of the variable it names, or `undefined` when that variable is unset. |
| Db.Transaction | lib/db.js:117-128 | A connect error is handed to the caller. A failed BEGIN is rolled back and the client released with the ROLLBACK's reply, while the caller gets the BEGIN error. Otherwise the caller gets an open, held transaction whose only statement is BEGIN. |
| Db.Run | test/db.spec.js:104-106 | A statement the caller runs in an open transaction is logged, the transaction stays open and held, and the statement is appended to the transaction's work. |
| Db.Complete | lib/db.js:129-141 | A truthy error ends the transaction with ROLLBACK, anything else with COMMIT, exactly once. The client is released with that statement's reply, and then `done` receives it. Without a `done`, the client is still released and the call then throws a TypeError. A rollback leaves no effect. A clean commit of error-free work leaves all of that work. |
| Db.RollbackAndRelease | lib/db.js:153-161 | Sends ROLLBACK and releases the client with its reply: pooled when the reply is clean, destroyed otherwise. The caller gets the same reply. |
| Db.OpenWork | lib/db.js:123-128 | The work of an open transaction is exactly the statements sent after its BEGIN, in order. |
| Db.Client.Query | lib/db.js:123 | A statement sent on a held client is appended to its log with the server's reply, which the caller receives. The client stays held. |
| Db.Client.Done | lib/db.js:133 | `done()` returns the client to the pool and `done(err)` destroys it. The log is unchanged. |
| Accounts.ConstructStamps | lib/account.js:135-138 | `new impl(attrs)` keeps the attribute object for the base. For a sub-type, it differs only in `type`, which holds the name of the outermost constructor. |
| Accounts.IsADeepens | lib/account.js:142 | An instance of a constructor is made by it or by one derived from it further down. Equal depth means the same constructor. |
| Accounts.Account.constructor | lib/account.js:40-47 | An instance holds its constructor, and its attributes are the given object (or `{}`) as the constructor chain stamps it. |
| Accounts.Account.Property | lib/account.js:49-88 | A column getter reads the attribute of that name. An instance member is always truthy. Any other property is `undefined`. |
| Accounts.EveryAccountIsABase | lib/account.js:135-142 | Every constructor the discriminator makes derives from the base `Account`, so every account is an instance of it. |
| Accounts.SiblingsUnrelated | lib/account.js:135-142 | Two types derived under different names from the same parent are unrelated by `instanceof`. Instances of each are instances of the parent. |
| Accounts.Discriminate | lib/account.js:128-147 | Registration succeeds exactly when the name is not yet registered, and otherwise fails with "already defined". The new constructor carries the name, its direct parent is the given one (the base by default), and the map gains exactly that entry. |
| Accounts.DiscriminateAsWrittenDiffers | lib/account.js:131-133 | The lookup as written refuses exactly the unregistered names that `Object.prototype` supplies (for example `constructor`). The corrected one accepts them. |
| Accounts.Resolve | lib/account.js:159 | A falsy `type` picks the base. A truthy one picks the registered constructor of that name, or none when the name is unregistered. |
| Accounts.ResolveAsWrittenDiffers | lib/account.js:245 | The pick as written agrees with `Resolve` on every registered name and every falsy type. On an unregistered name it yields the member `Object.prototype` supplies, if any (`toString`, for example), instead of nothing. |
| Accounts.CreateTypeAsWrittenDiffers | lib/account.js:159-164 | `create` as written accepts exactly the types `Resolve` accepts. It rejects an unregistered type with "unrecognized account type" only when `Object.prototype` has no member of that name. `toString` fails as not a constructor, and `constructor` fails because `insert` is not a function. |
| Accounts.PresentFields | lib/account.js:271-277 | The fields sent are exactly the schema columns that the account defines, without repetition. |
| Accounts.PresentFieldsInOrder | lib/account.js:271-277 | Of any two fields sent, the earlier one comes earlier in the schema. |
| Accounts.BuildInsert | lib/account.js:267-281 | The loop builds the INSERT of the defined schema fields, with their values and placeholders $1..$n. |
| Accounts.InsertQueryShape | lib/account.js:271-282 | The INSERT is well formed. It sets exactly the defined schema fields, each to the account's value. |
| Accounts.BuildUpdate | lib/account.js:316-329 | The loop builds the UPDATE: one parameter per changed schema field, `updated_at = NOW()`, and the id as the last parameter. |
| Accounts.UpdateQueryShape | lib/account.js:320-335 | The UPDATE is well formed. It sets exactly the defined schema fields of the changes plus `updated_at`, each changed column to its new value and `updated_at` to the clock. |
| Accounts.NormaliseKey | lib/account.js:260 | A falsy key becomes `null`. Every other attribute is kept. |
| Accounts.KeylessInsertFails | lib/account.js:260-282 | Inserting an account without a truthy key is refused with a NOT NULL violation on `key`, and no row is added. |
| Accounts.Account.ToObject | lib/account.js:356-367 | The plain object has the same keys as the attributes. A key that names an instance member reads that member, and every other key reads its attribute. Without such keys the object equals the attributes. |
| Accounts.Account.Insert | lib/account.js:257-296 | The key is normalised first. A connect error is handed on. Otherwise the INSERT runs on the table. Failure reports the error and destroys the client. Success makes the stored row the attributes, stored under the new id, and pools the client. |
| Accounts.Account.Update | lib/account.js:304-349 | Without a truthy id, reports the missing id and sends nothing. A connect error is handed on. Otherwise the UPDATE runs and the outcome follows `UpdateOutcome`. A refusal is reported and destroys the client. No matching row is "not found" (corrected, see Findings). Both leave the attributes as they were. Success stores the returned row under the account's integer id, keeps that id, applies every change and sets `updated_at` to the clock. With a truthy id, no connect error and `Updatable` changes, it succeeds. |
| Accounts.Account.SendUpdate | lib/account.js:315-347 | The connected part of `update`: the table becomes the UPDATE's result and the account settles as `UpdateOutcome` says. On success the row is stored as `UpdatedTo` describes. `Updatable` changes succeed. |
| Accounts.UpdatedRow | lib/account.js:331-343 | An UPDATE of a truthy id keeps the table consistent. A refusal or a missing row leaves the table as it was. A returned row replaces only the row of that integer id, keeps the id, and holds the changes and the clock. |
| Accounts.UpdateOutcomeCorrects | lib/account.js:336-346 | The outcome as written and the corrected one agree on every reply except an UPDATE that matched no row. There the code reports success and drops the attributes, while the corrected one reports "not found" and keeps them. |
| Accounts.UpdateOfMissingRowAsWritten | lib/account.js:342-343 | As written, updating an account whose id holds an integer with no row behind it reports success and leaves the account without attributes. |
| Accounts.Create | lib/account.js:157-168 | An unregistered type is refused before anything is sent. A connect error is handed on and leaves the table alone. Otherwise the INSERT of the constructed, key-normalised params runs on the table. A refusal is reported and destroys the client. On success the account has the resolved constructor, its type stamped in, and the stored row as its attributes. With a registered type, no connect error and `Insertable` params, it succeeds. |
| Accounts.LookupField | lib/account.js:211-221 | A truthy key wins over a truthy id. With neither, the query is refused as bad. |
| Accounts.GetAccount | lib/account.js:208-250 | The query is checked before connecting, and a connect error is handed on. The rest follows the reply. A found row is wrapped by the constructor its type names. No row is "not found". A failed SELECT, such as an id whose text is not an integer, destroys the client. A type with no registered constructor raises a TypeError. |
| Accounts.WrapStoredRow | lib/account.js:244-246 | Wrapping a stored row with the constructor its type resolves to keeps the row unchanged. |
| Accounts.FetchOfSelected | lib/account.js:211-246 | When a lookup's SELECT returns exactly one row whose type resolves, `get` finds that row wrapped by the resolved constructor. |
| Accounts.FetchByIdText | lib/account.js:216-230 | For every non-zero integer n, `get` by the string holding n's text finds exactly what `get` by the number n finds. |
| Accounts.FetchByNonIntegerText | lib/account.js:216-230 | `get` by a non-empty string that is not an integer's text is refused as invalid input. |
| Accounts.FetchByZeroId | lib/account.js:211-221 | `get({id: 0})` is refused as bad query params, because 0 is falsy. `get({id: '0'})` is a truthy string, so it is sent and finds nothing. |
| Accounts.CreatedRow | lib/account.js:157-168 | An account row that `create` stores carries a type resolving back to the account's constructor. It is found again by key and by id. |
| Accounts.CreatedThenFetched | lib/account.js:208-246 | A `create` whose params the table accepts (`Insertable`) succeeds. After a successful `create`, `get` by its key or its id finds an account made by the same constructor, holding the same attributes. |
| Accounts.InsertSucceeds | lib/account.js:260-282 | An INSERT succeeds when the params carry a non-empty string key held by no row, every defined schema column is of its type and non-null where the column is NOT NULL, and the account is postpaid or its balance is absent or at least 0. |
| Accounts.UpdateSucceeds | lib/account.js:315-335 | An UPDATE succeeds, returning the stored row merged with the changes, when the id names a stored row, every defined change is of its column's type and non-null where the column is NOT NULL, a new key is held by no other row, and the changed row is postpaid or has a non-negative balance. |
| Machine.Accessor | lib/transaction-machine.js:144-146 | `account(type)` returns the registered constructor. An unregistered name gets a new constructor deriving from the base, registered under it. |
| Machine.AccessorAsWrittenDiffers | lib/transaction-machine.js:144-146 | The accessor as written agrees with `Accessor` except on an unregistered name that `Object.prototype` supplies. There it returns the inherited member and registers nothing, so `account('constructor')` yields `Object`. |
| Machine.AccessorIdempotent | test/transaction-machine.spec.js:34-44 | A second `account(type)` returns the same constructor and registers nothing. |
| Machine.AccessorDistinct | test/transaction-machine.spec.js:16-32 | Types fetched under different names are distinct and unrelated. Both derive from the base, and the map gains exactly both. |
| Machine.TransactionMachine.constructor | lib/transaction-machine.js:39-58 | A new application starts with its own empty account type map. |
| Machine.TransactionMachine.Init | lib/transaction-machine.js:68-70 | `init` returns a new application with an empty type map. |
| Machine.TransactionMachine.Discriminator | lib/account.js:128-147 | Registers a sub-type in this application's map once. Registering it again is refused, and the map is unchanged. |
| Machine.TransactionMachine.Account | lib/transaction-machine.js:144-146 | The method follows `Accessor` on the application's map and keeps every entry named after its constructor. |

## Left out

- Hooks, the examples and test helpers: not part of the account core.
- The `transaction` type accessor (lib/transaction-machine.js:154-155): an empty stub.
- The pool's internals: client reuse, pool size and idle timeouts. `connect` is an outcome passed in.
- Events emitted through EventEmitter. Their member names appear only as properties that shadow attribute keys in `toObject`.
- The configuration file lookup, `NODE_ENV` and `PG_DEBUG`. The configuration section is passed in as a map.
- `parseInt` of the port: `Db.Connection` keeps the configured entry as read.
- The SQL text: statements are structured values with the same fields, values and placeholders.
- Floating point: balances are integer cents, and `numeric(11,2)` is a bound on that integer.
- Server-side coercion of data parameters in INSERT and UPDATE, such as the string '14.95' for `balance`: a data parameter must already have its column's type, or the statement is refused as invalid input. Lookup parameters (`WHERE id = $1`, `WHERE key = $1`) are read from their text as the server does.
- Integer input forms beyond an optional sign and decimal digits: surrounding whitespace, the non-decimal and underscore forms of PostgreSQL 16, and the int4 range of `id`. The JSON text the driver sends for an object parameter is not modelled either: such a key matches no row.
- Driver errors raised while a statement runs, other than the constraint and conversion errors above.
- Varchar lengths are counted in characters: no encoding is modelled.
- Timestamps: `created_at` and `updated_at` hold the clock reading passed in as `now`.
- Aliasing: `create` and `insert` write into the caller's params object (the type stamp, the key normalisation). Attributes are values here, so the caller's object is not shown changing.
- Object key order: attributes are maps, so the order of `for ... in` does not appear.
- An attribute named `__proto__`, and names that `process.env` inherits: JavaScript's special cases for these are not modelled.
- Accounts.InstanceMembers: the EventEmitter members are those of Node 10 and later (with `off` and `rawListeners`). Older versions lack those two. `_eventsCount` and `_maxListeners` are left out because they are falsy (0 and undefined), so `this[key] || attrs[key]` falls back to the attribute.
- Accounts.IsA: the base constructors of two applications are not told apart, so `instanceof` across applications is not modelled.
- Accounts.GetAccount: an exception thrown inside the driver's callback is returned as `Raised`. The caller's callback is then never called, and that is not modelled.
- Db.Transaction: the order of the caller's callback relative to releasing the client after a failed BEGIN is not modelled.
- Db.Complete: requires the transaction still open and held. A second call of `complete`, which the code does not guard against, is not modelled.
- Db.Effects: how PostgreSQL treats a COMMIT after a failed statement is reduced to "a transaction with a failed statement leaves no effect".
- Concurrency between callbacks, and two clients working on the table at once.

## Findings

| source | as written | input that shows it | evidently intended | confidence | as-written member | corrected member |
|---|---|---|---|---|---|---|
| lib/account.js:131-133 | `app._accountTypeMap[type]` is read as a plain property, so names every object inherits from `Object.prototype` count as registered. | `discriminator("constructor")` on a new application is refused as "already defined". | Only names the map owns count as registered. | medium, not executed | Accounts.DiscriminateAsWritten (Accounts.DiscriminateAsWrittenDiffers) | Accounts.Discriminate |
| lib/account.js:159-164 | `create` picks `app._accountTypeMap[params.type]`, which yields an inherited member for a name the map does not own. | `create({type: 'toString'})` fails with a TypeError (not a constructor) instead of "unrecognized account type". `create({type: 'constructor'})` builds `new Object(params)` and fails because `insert` is not a function. | An unregistered type is rejected as unrecognized. | medium, not executed | Accounts.CreateTypeAsWritten (Accounts.CreateTypeAsWrittenDiffers) | Accounts.Resolve |
| lib/account.js:245 | `get` picks the constructor for a stored row's `type` by the same plain read. | A row whose type is `constructor` is wrapped by `Object`, and `new Object(row)` hands back the bare row instead of an account. A row whose type is `toString` raises a TypeError. | A row whose type is not registered is an error. | medium, not executed | Accounts.ResolveAsWritten (Accounts.ResolveAsWrittenDiffers) | Accounts.Resolve |
| lib/transaction-machine.js:145 | `this._accountTypeMap[type] \|\| ...` takes an inherited member as a registered type. | `app.account('constructor')` returns `Object` and registers nothing. | An unregistered name gets a new sub-type. | medium, not executed | Machine.AccessorAsWritten (Machine.AccessorAsWrittenDiffers) | Machine.Accessor |
| lib/account.js:342-343 | After a clean UPDATE, `attributes` becomes `result.rows[0]` and the callback gets no error, even when no row matched. | An account with id 7 when the table has no row 7, for example after it was deleted. | Report that no account matched, and keep the attributes. | medium, not executed | Accounts.UpdateOutcomeAsWritten (Accounts.UpdateOutcomeCorrects) | Accounts.Account.Update |
