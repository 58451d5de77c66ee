/** lib/transaction-machine.js: the application object. Each instance owns its own account
    type map, through which its account base class registers sub-types, and the accessor
    `account(type)` that registers a type on first use and returns it afterwards. */
module Machine {
  import opened Values
  import Accounts

  /** account(type) on a type map: the registered constructor, or a new one deriving from
      the base, registered under `name`. */
  function Accessor(m: Accounts.Registry, name: string): (r: (Accounts.Registry, Accounts.Impl))
    ensures name in m ==> r == (m, m[name])
    ensures name !in m ==> r.0 == m[name := r.1] && r.1 == Accounts.Sub(name, Accounts.Base)
    ensures Accounts.RegistryOk(m) ==> Accounts.RegistryOk(r.0) && r.1.Sub? && r.1.name == name
  {
    if name in m then (m, m[name])
    else
      var d := Accounts.Discriminate(m, name, None);
      d.value
  }

  /** account(type) as written: `map[type] || discriminator(type)`. A member the map
      inherits is truthy, so it is handed back and nothing is registered. */
  function AccessorAsWritten(m: Accounts.Registry, name: string): (Accounts.Registry, Accounts.Slot)
  {
    match Accounts.ReadAsWritten(m, name)
    case Absent => (m[name := Accounts.Sub(name, Accounts.Base)], Accounts.Own(Accounts.Sub(name, Accounts.Base)))
    case slot => (m, slot)
  }

  /** The accessor as written differs from `Accessor` exactly on the unregistered names
      `Object.prototype` supplies: for those it returns the inherited member, not a new
      account type, and registers nothing. */
  lemma AccessorAsWrittenDiffers(m: Accounts.Registry, name: string)
    ensures name in m || name !in ObjectPrototypeMembers ==>
              AccessorAsWritten(m, name) == (Accessor(m, name).0, Accounts.Own(Accessor(m, name).1))
    ensures name !in m && name in ObjectPrototypeMembers ==>
              AccessorAsWritten(m, name) == (m, Accounts.Inherited(name))
    ensures AccessorAsWritten(map[], "constructor") == (map[], Accounts.Inherited("constructor"))
  {
    assert "constructor" in ObjectPrototypeMembers;
  }

  /** A second call with the same name returns the same constructor and registers nothing. */
  lemma AccessorIdempotent(m: Accounts.Registry, name: string)
    ensures var (m1, impl) := Accessor(m, name);
            Accessor(m1, name) == (m1, impl)
  {
  }

  /** Types fetched under two different names are distinct constructors: instances of
      each are accounts, and never instances of the other. */
  lemma AccessorDistinct(m: Accounts.Registry, a: string, b: string)
    requires Accounts.RegistryOk(m) && a != b && a !in m && b !in m
    ensures var (m1, ia) := Accessor(m, a);
            var (m2, ib) := Accessor(m1, b);
            && Accounts.IsA(ia, Accounts.Base) && Accounts.IsA(ib, Accounts.Base)
            && !Accounts.IsA(ia, ib) && !Accounts.IsA(ib, ia)
            && m2 == m[a := ia][b := ib]
  {
    Accounts.SiblingsUnrelated(a, b, Accounts.Base);
  }

  /** The application: its own account type map (`_accountTypeMap`). */
  class TransactionMachine {
    var accountTypeMap: Accounts.Registry

    ghost predicate Valid()
      reads this
    {
      Accounts.RegistryOk(accountTypeMap)
    }

    constructor ()
      ensures Valid() && accountTypeMap == map[]
    {
      accountTypeMap := map[];
    }

    /** TransactionMachine.init(options) */
    static method Init() returns (app: TransactionMachine)
      ensures fresh(app) && app.Valid() && app.accountTypeMap == map[]
    {
      app := new TransactionMachine();
    }

    /** this.Account.discriminator(type, impl): registers a sub-type in this application's
        map, once; a second registration under the same name is refused. */
    method Discriminator(name: string, parent: Option<Accounts.Impl>) returns (r: Result<Accounts.Impl, Error>)
      requires Valid()
      modifies this
      ensures Valid()
      ensures name in old(accountTypeMap) ==>
                r == Failure(DiscriminatorDefined(name)) && accountTypeMap == old(accountTypeMap)
      ensures name !in old(accountTypeMap) ==>
                && r == Success(Accounts.Sub(name, if parent.Some? then parent.value else Accounts.Base))
                && accountTypeMap == old(accountTypeMap)[name := r.value]
    {
      var d := Accounts.Discriminate(accountTypeMap, name, parent);
      if d.Failure? {
        return Failure(d.error);
      }
      accountTypeMap := d.value.0;
      r := Success(d.value.1);
    }

    /** account(type): the registered constructor, or a newly registered one. */
    method Account(name: string) returns (impl: Accounts.Impl)
      requires Valid()
      modifies this
      ensures Valid()
      ensures (accountTypeMap, impl) == Accessor(old(accountTypeMap), name)
      ensures name in old(accountTypeMap) ==> impl == old(accountTypeMap)[name] && accountTypeMap == old(accountTypeMap)
      ensures name !in old(accountTypeMap) ==>
                impl == Accounts.Sub(name, Accounts.Base) && accountTypeMap == old(accountTypeMap)[name := impl]
    {
      if name in accountTypeMap {
        return accountTypeMap[name];
      }
      var r := Discriminator(name, None);
      impl := r.value;
    }
  }
}
