/** The repository's Actions variables, the only persistent state the scripts
    share: each variable maps a name to a JSON sandbox record and carries the
    instant the store created it. Listing returns the variables in the store's
    own order; writes update an existing variable (an HTTP PATCH) and deletes
    remove one. */
module Store {
  import opened Js

  /** The `status` field of a sandbox record. */
  datatype Status = InProgress | Available | InUse | Assigned | Expired
                  | Unrecognised(text: string)  // any other text, or the field missing

  /** The parsed value of a sandbox variable. Fields the model does not read
      travel with the record unchanged. */
  datatype Record = Record(
    name: string,             // the sandbox (org) name
    status: Status,
    isActive: JsValue,        // stored as `true`/`false` or as `"true"`/`"false"`
    issue: Option<string>,    // the issue the sandbox is bound to
    assignedAt: Option<int>,  // milliseconds since the epoch
    createdAt: Option<int>,   // milliseconds since the epoch
    isExtended: bool,
    isImmortal: bool,
    expiry: Option<int>       // days, developer sandboxes only
  )

  /** A record with only the given name and status: the fields a fresh JSON
      object `{name, status}` has. */
  function Bare(name: string, status: Status): Record
  {
    Record(name, status, Undefined, None, None, None, false, false, None)
  }

  /** One entry of the pool configuration file: the pool (domain) and branch a
      group of CI sandboxes serves, the desired number of them, and the users to
      activate in each new one (a comma-separated list). */
  datatype PoolConfig = PoolConfig(pool: string, branch: string, count: int,
                                   usersToBeActivated: Option<string>)

  /** What the store holds under one name. */
  datatype Stored = Stored(value: Record, createdAt: int)

  /** One entry of a listing: `{name, value, created_at}`. */
  datatype Variable = Variable(name: string, value: Record, createdAt: int)

  /** The listing of `vars` in the order `order`. */
  function Snapshot(order: seq<string>, vars: map<string, Stored>): (vs: seq<Variable>)
    requires forall n :: n in order ==> n in vars
    ensures |vs| == |order|
    ensures forall i :: 0 <= i < |order| ==>
              vs[i] == Variable(order[i], vars[order[i]].value, vars[order[i]].createdAt)
  {
    seq(|order|, i requires 0 <= i < |order| =>
      Variable(order[i], vars[order[i]].value, vars[order[i]].createdAt))
  }

  /** The names of the listed variables. */
  function Names(vs: seq<Variable>): set<string>
  {
    set v | v in vs :: v.name
  }

  lemma NamesOneMore(vs: seq<Variable>, i: nat)
    requires i < |vs|
    ensures Names(vs[..i + 1]) == Names(vs[..i]) + {vs[i].name}
  {
    assert vs[..i + 1] == vs[..i] + [vs[i]];
  }

  /** A listing names every variable of the store. */
  lemma SnapshotNames(order: seq<string>, vars: map<string, Stored>)
    requires forall n :: n in vars <==> n in order
    ensures Names(Snapshot(order, vars)) == vars.Keys
  {
    var vs := Snapshot(order, vars);
    forall n | n in vars ensures n in Names(vs) {
      var i :| 0 <= i < |order| && order[i] == n;
      assert vs[i].name == n;
    }
  }

  /** No name is listed twice. */
  predicate Distinct(order: seq<string>)
  {
    forall i, j :: 0 <= i < j < |order| ==> order[i] != order[j]
  }

  /** `order` without the names in `gone`, the rest kept in order. */
  function Without(order: seq<string>, gone: set<string>): (r: seq<string>)
    ensures forall n :: n in r <==> n in order && n !in gone
    ensures Distinct(order) ==> Distinct(r)
  {
    if order == [] then []
    else if order[0] in gone then Without(order[1..], gone)
    else
      var rest := Without(order[1..], gone);
      assert Distinct(order) ==> order[0] !in order[1..];
      [order[0]] + rest
  }

  lemma {:induction false} WithoutNothing(order: seq<string>)
    ensures Without(order, {}) == order
  {
    if order != [] {
      WithoutNothing(order[1..]);
    }
  }

  /** Removing names one batch after another is removing them all at once. */
  lemma {:induction false} WithoutWithout(order: seq<string>, a: set<string>, b: set<string>)
    ensures Without(Without(order, a), b) == Without(order, a + b)
  {
    if order != [] {
      WithoutWithout(order[1..], a, b);
    }
  }

  /** The store as the scripts reach it. `rejects` holds the names whose writes
      and deletes the remote refuses (a permission or rate-limit failure). */
  class VariableStore {
    var vars: map<string, Stored>
    var order: seq<string>
    const rejects: set<string>

    ghost predicate Valid()
      reads this
    {
      Distinct(order) && (forall n :: n in vars <==> n in order)
    }

    constructor (vars: map<string, Stored>, order: seq<string>, rejects: set<string>)
      requires Distinct(order) && (forall n :: n in vars <==> n in order)
      ensures Valid()
      ensures this.vars == vars && this.order == order && this.rejects == rejects
    {
      this.vars := vars;
      this.order := order;
      this.rejects := rejects;
    }

    /** `gh api /repos/…/actions/variables --paginate`. */
    function Listing(): seq<Variable>
      reads this
      requires Valid()
    {
      Snapshot(order, vars)
    }

    /** `gh api --method PATCH …/variables/<name>`: replaces the value of an
        existing variable; fails on a missing or refused name. */
    method Patch(name: string, value: Record) returns (ok: bool)
      requires Valid()
      modifies this
      ensures Valid() && order == old(order)
      ensures ok == (name in old(vars) && name !in rejects)
      ensures vars == if ok then old(vars)[name := Stored(value, old(vars)[name].createdAt)]
                      else old(vars)
    {
      ok := name in vars && name !in rejects;
      if ok {
        vars := vars[name := Stored(value, vars[name].createdAt)];
      }
    }

    /** `gh variable delete <name>`. */
    method Delete(name: string) returns (ok: bool)
      requires Valid()
      modifies this
      ensures Valid()
      ensures ok == (name in old(vars) && name !in rejects)
      ensures vars == if ok then old(vars) - {name} else old(vars)
      ensures order == if ok then Without(old(order), {name}) else old(order)
    {
      ok := name in vars && name !in rejects;
      if ok {
        vars := vars - {name};
        order := Without(order, {name});
      }
    }
  }
}
