/** The reclaimer: every `Expired` sandbox variable is deprovisioned, and its
    variable is deleted only once the deprovisioner has confirmed that the
    sandbox is gone. */
module Reclaimer {
  import opened Js
  import opened Store

  const ALREADY_DELETED := "SandboxProcessResultLengthError"

  /** The `error` object of the deprovisioner's JSON output. */
  datatype ErrorInfo = ErrorInfo(name: Option<string>)

  /** What `sfp sandbox delete … --json` produced: output that could not be
      run or parsed, or a parsed object with an optional (truthy) `error`
      and a `deleted` field. */
  datatype DeprovisionOutput =
    | Unparseable
    | Parsed(error: Option<ErrorInfo>, deleted: JsValue)

  /** `deleteSandbox`: whether the sandbox is known to be gone. An `error`
      decides first, and only the "already deleted" error counts as success;
      without one, a truthy `deleted` is success; anything else is failure. */
  predicate DeprovisionSucceeded(out: DeprovisionOutput): (ok: bool)
    ensures ok <==> out.Parsed? &&
                    ((out.error.Some? && out.error.value.name == Some(ALREADY_DELETED))
                     || (out.error.None? && Truthy(out.deleted)))
  {
    match out
    case Unparseable => false
    case Parsed(error, deleted) =>
      if error.Some? then
        if error.value.name == Some(ALREADY_DELETED) then true else false
      else if Truthy(deleted) then true
      else false
  }

  /** The variables the script considers, from `test("_SBX")`: names that
      contain `_SBX` anywhere. */
  predicate Listed(name: string)
  {
    Contains(name, "_SBX")
  }

  /** A listed variable whose sandbox is deprovisioned and whose variable
      is then deleted. */
  predicate Reclaimed(v: Variable, deprovision: string -> DeprovisionOutput)
  {
    Listed(v.name) && v.value.status == Expired && DeprovisionSucceeded(deprovision(v.value.name))
  }

  /** The names whose variables the pass deletes among the first `k`
      listed variables. */
  function ToDelete(vs: seq<Variable>, k: nat, deprovision: string -> DeprovisionOutput,
                    rejects: set<string>): set<string>
    requires k <= |vs|
  {
    if k == 0 then {}
    else
      ToDelete(vs, k - 1, deprovision, rejects)
        + if Reclaimed(vs[k - 1], deprovision) && vs[k - 1].name !in rejects then {vs[k - 1].name} else {}
  }

  /** A name is deleted exactly when one of the first `k` listed variables
      carries it, is reclaimed, and is not refused. */
  lemma {:induction false} ToDeleteExactly(vs: seq<Variable>, k: nat, deprovision: string -> DeprovisionOutput,
                                           rejects: set<string>, n: string)
    requires k <= |vs|
    ensures n in ToDelete(vs, k, deprovision, rejects) <==>
              exists j :: 0 <= j < k && Reclaimed(vs[j], deprovision) && vs[j].name !in rejects
                          && vs[j].name == n
  {
    if k > 0 {
      ToDeleteExactly(vs, k - 1, deprovision, rejects, n);
    }
  }

  /** No two listed variables share a name. */
  predicate DistinctNames(vs: seq<Variable>)
  {
    forall a, b :: 0 <= a < b < |vs| ==> vs[a].name != vs[b].name
  }

  /** One variable of the `forEach`: deprovision an `Expired` listed
      sandbox and delete its variable once the deprovisioner confirms. */
  method ReclaimOne(store: VariableStore, v: Variable,
                    deprovision: string -> DeprovisionOutput) returns (deleted: bool)
    requires store.Valid() && v.name in store.vars
    modifies store
    ensures store.Valid()
    ensures deleted == (Reclaimed(v, deprovision) && v.name !in store.rejects)
    ensures store.vars == if deleted then old(store.vars) - {v.name} else old(store.vars)
    ensures store.order == if deleted then Without(old(store.order), {v.name}) else old(store.order)
  {
    deleted := false;
    if Listed(v.name) && v.value.status == Expired {
      if DeprovisionSucceeded(deprovision(v.value.name)) {
        deleted := store.Delete(v.name);
      }
    }
  }

  /** The `forEach` of the script over the variables it listed. */
  method DeleteReclaimed(store: VariableStore, vs: seq<Variable>,
                         deprovision: string -> DeprovisionOutput)
    requires store.Valid()
    requires DistinctNames(vs) && forall j :: 0 <= j < |vs| ==> vs[j].name in store.vars
    modifies store
    ensures store.Valid()
    ensures var gone := ToDelete(vs, |vs|, deprovision, store.rejects);
            store.vars == old(store.vars) - gone && store.order == Without(old(store.order), gone)
  {
    ghost var vars0 := store.vars;
    ghost var order0 := store.order;
    AccountedAtStart(vs, deprovision, store.rejects, vars0, order0);
    var i := 0;
    while i < |vs|
      invariant 0 <= i <= |vs|
      invariant store.Valid()
      invariant Accounted(store.vars, store.order, vs, i, deprovision, store.rejects, vars0, order0)
    {
      ReclaimAt(store, vs, i, deprovision, vars0, order0);
      i := i + 1;
    }
    AccountedAtEnd(store.vars, store.order, vs, deprovision, store.rejects, vars0, order0);
  }

  /** Before the `forEach`, nothing has been deleted and every listed
      variable is still stored. */
  lemma AccountedAtStart(vs: seq<Variable>, deprovision: string -> DeprovisionOutput, rejects: set<string>,
                         vars0: map<string, Stored>, order0: seq<string>)
    requires forall j :: 0 <= j < |vs| ==> vs[j].name in vars0
    ensures Accounted(vars0, order0, vs, 0, deprovision, rejects, vars0, order0)
  {
    WithoutNothing(order0);
    assert vars0 - {} == vars0;
  }

  /** After the `forEach`, the store has lost exactly what the pass deletes. */
  lemma AccountedAtEnd(vars: map<string, Stored>, order: seq<string>, vs: seq<Variable>,
                       deprovision: string -> DeprovisionOutput, rejects: set<string>,
                       vars0: map<string, Stored>, order0: seq<string>)
    requires Accounted(vars, order, vs, |vs|, deprovision, rejects, vars0, order0)
    ensures var gone := ToDelete(vs, |vs|, deprovision, rejects);
            vars == vars0 - gone && order == Without(order0, gone)
  {
  }

  /** After the first `i` variables of the `forEach`, the store has lost
      exactly the variables the pass deletes among them, and still holds
      every variable the pass has yet to visit. */
  ghost predicate Accounted(vars: map<string, Stored>, order: seq<string>, vs: seq<Variable>, i: nat,
                            deprovision: string -> DeprovisionOutput, rejects: set<string>,
                            vars0: map<string, Stored>, order0: seq<string>)
    requires i <= |vs|
  {
    var gone := ToDelete(vs, i, deprovision, rejects);
    vars == vars0 - gone && order == Without(order0, gone)
    && forall j :: i <= j < |vs| ==> vs[j].name in vars
  }

  /** One step of the `forEach`, with the loop's account of the store. */
  method ReclaimAt(store: VariableStore, vs: seq<Variable>, i: nat,
                   deprovision: string -> DeprovisionOutput,
                   ghost vars0: map<string, Stored>, ghost order0: seq<string>)
    requires i < |vs| && DistinctNames(vs) && store.Valid()
    requires Accounted(store.vars, store.order, vs, i, deprovision, store.rejects, vars0, order0)
    modifies store
    ensures store.Valid()
    ensures Accounted(store.vars, store.order, vs, i + 1, deprovision, store.rejects, vars0, order0)
  {
    var deleted := ReclaimOne(store, vs[i], deprovision);
    StepKeeps(vs, i, deprovision, store.rejects, vars0, order0, deleted);
  }

  /** One more variable of the `forEach` keeps the loop's account of what
      has been deleted. */
  lemma StepKeeps(vs: seq<Variable>, i: nat, deprovision: string -> DeprovisionOutput,
                  rejects: set<string>, vars0: map<string, Stored>, order0: seq<string>,
                  deleted: bool)
    requires i < |vs| && DistinctNames(vs)
    requires deleted == (Reclaimed(vs[i], deprovision) && vs[i].name !in rejects)
    ensures var gone := ToDelete(vs, i, deprovision, rejects);
            var after := ToDelete(vs, i + 1, deprovision, rejects);
            after == (if deleted then gone + {vs[i].name} else gone)
            && (forall j :: i + 1 <= j < |vs| ==> vs[j].name !in after - gone)
            && (deleted ==> (vars0 - gone) - {vs[i].name} == vars0 - after
                            && Without(Without(order0, gone), {vs[i].name}) == Without(order0, after))
  {
    var gone := ToDelete(vs, i, deprovision, rejects);
    if deleted {
      WithoutWithout(order0, gone, {vs[i].name});
      assert (vars0 - gone) - {vs[i].name} == vars0 - (gone + {vs[i].name});
    }
  }

  /** `deleteExpiredSandboxes.js`. `listingFailed` stands for a failed
      listing, which the script treats as an empty one; `deprovision` gives
      the deprovisioner's output for each sandbox name. A refused delete is
      skipped and the loop goes on. */
  method Reclaim(store: VariableStore, listingFailed: bool,
                 deprovision: string -> DeprovisionOutput)
    requires store.Valid()
    modifies store
    ensures store.Valid()
    ensures var gone := if listingFailed then {}
                        else ToDelete(old(store.Listing()), |old(store.Listing())|, deprovision, store.rejects);
            store.vars == old(store.vars) - gone && store.order == Without(old(store.order), gone)
  {
    var vs := if listingFailed then [] else store.Listing();
    DeleteReclaimed(store, vs, deprovision);
  }

  /** The pass deletes a variable only when it was listed as `Expired`, its
      name holds `_SBX`, and the deprovisioner confirmed that the sandbox is
      gone; every such variable is deleted unless the remote refuses. */
  lemma ReclaimOnlyConfirmed(order: seq<string>, vars: map<string, Stored>,
                             deprovision: string -> DeprovisionOutput, rejects: set<string>, n: string)
    requires forall m :: m in order ==> m in vars
    ensures var vs := Snapshot(order, vars);
            n in ToDelete(vs, |vs|, deprovision, rejects) <==>
              n in order && n !in rejects && Listed(n) && vars[n].value.status == Expired
              && DeprovisionSucceeded(deprovision(vars[n].value.name))
  {
    var vs := Snapshot(order, vars);
    ToDeleteExactly(vs, |vs|, deprovision, rejects, n);
    if n in order {
      var j :| 0 <= j < |order| && order[j] == n;
      assert vs[j].name == n;
    }
  }
}
