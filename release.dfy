/** The release handler: when an issue lets go of its sandboxes, every CI
    sandbox bound to the issue is either returned to the pool (free and
    active again) or expired, depending on `returnBackToPool`. Finding no
    bound sandbox is an error. */
module Release {
  import opened Js
  import opened Store

  /** `updatedSandboxData`: returned to the pool (`returnBackToPool ==
      "true"`) the record becomes free, active and freshly stamped;
      otherwise it is expired and keeps its issue and stamp. Every other
      field is kept. */
  function Released(r: Record, returnBackToPool: string, now: int): (out: Record)
    ensures out.name == r.name && out.createdAt == r.createdAt && out.isExtended == r.isExtended
            && out.isImmortal == r.isImmortal && out.expiry == r.expiry
    ensures returnBackToPool == "true" ==>
              out.status == Available && out.isActive == Bool(true) && out.issue.None?
              && out.assignedAt == Some(now)
    ensures returnBackToPool != "true" ==>
              out.status == Expired && out.isActive == Bool(false) && out.issue == r.issue
              && out.assignedAt == r.assignedAt
  {
    var back := returnBackToPool == "true";
    r.(isActive := Bool(back),
       assignedAt := if back then Some(now) else r.assignedAt,
       status := if back then Available else Expired,
       issue := if back then None else r.issue)
  }

  /** Expiring a record twice is expiring it once. */
  lemma ExpireTwice(r: Record, returnBackToPool: string, now: int, later: int)
    requires returnBackToPool != "true"
    ensures Released(Released(r, returnBackToPool, now), returnBackToPool, later)
            == Released(r, returnBackToPool, now)
  {
  }

  /** A listed variable the handler rewrites: its name ends in `_SBX` and
      its record is bound to the issue, whatever its status. */
  predicate BoundTo(name: string, r: Record, issue: string)
  {
    EndsWith(name, "_SBX") && r.issue == Some(issue)
  }

  /** A bound variable whose write the remote refuses. */
  predicate Refused(v: Variable, issue: string, rejects: set<string>)
  {
    BoundTo(v.name, v.value, issue) && v.name in rejects
  }

  /** The position of the first bound variable whose write the remote
      refuses: the write throws there and ends the process. */
  function RefusedIndex(vs: seq<Variable>, issue: string, rejects: set<string>): (r: Option<nat>)
    ensures r.Some? ==> r.value < |vs| && Refused(vs[r.value], issue, rejects)
                        && forall j :: 0 <= j < r.value ==> !Refused(vs[j], issue, rejects)
    ensures r.None? ==> forall j :: 0 <= j < |vs| ==> !Refused(vs[j], issue, rejects)
  {
    if vs == [] then None
    else if Refused(vs[0], issue, rejects) then Some(0)
    else
      match RefusedIndex(vs[1..], issue, rejects)
      case None => None
      case Some(k) => Some(k + 1)
  }

  /** The sandbox names the handler prints, one per rewritten variable, in
      listing order. */
  function Printed(vs: seq<Variable>, issue: string): seq<string>
  {
    if vs == [] then []
    else
      var v := vs[|vs| - 1];
      Printed(vs[..|vs| - 1], issue) + if BoundTo(v.name, v.value, issue) then [v.value.name] else []
  }

  lemma PrintedOneMore(vs: seq<Variable>, i: nat, issue: string)
    requires i < |vs|
    ensures Printed(vs[..i + 1], issue)
            == Printed(vs[..i], issue) + if BoundTo(vs[i].name, vs[i].value, issue) then [vs[i].value.name] else []
  {
    assert vs[..i + 1][..i] == vs[..i];
  }

  /** Nothing is printed exactly when no listed variable is bound. */
  lemma {:induction false} PrintedEmpty(vs: seq<Variable>, issue: string)
    ensures Printed(vs, issue) == [] <==> forall j :: 0 <= j < |vs| ==> !BoundTo(vs[j].name, vs[j].value, issue)
  {
    if vs != [] {
      var init := vs[..|vs| - 1];
      PrintedEmpty(init, issue);
      assert forall j :: 0 <= j < |init| ==> init[j] == vs[j];
    }
  }

  /** The store once the handler has rewritten the bound variables among
      the names in `done`. */
  function ReleaseApplied(vars: map<string, Stored>, done: set<string>, issue: string,
                          returnBackToPool: string, now: int): map<string, Stored>
  {
    map n | n in vars :: if n in done && BoundTo(n, vars[n].value, issue)
                         then vars[n].(value := Released(vars[n].value, returnBackToPool, now))
                         else vars[n]
  }

  lemma ReleaseOneMore(vars0: map<string, Stored>, done: set<string>, issue: string,
                       returnBackToPool: string, now: int, order: seq<string>, v: Variable)
    requires forall n :: n in order ==> n in vars0
    requires v in Snapshot(order, vars0)
    ensures var cur := ReleaseApplied(vars0, done, issue, returnBackToPool, now);
            v.name in cur && v.value == vars0[v.name].value
            && (if BoundTo(v.name, v.value, issue)
                then cur[v.name := cur[v.name].(value := Released(v.value, returnBackToPool, now))]
                else cur) == ReleaseApplied(vars0, done + {v.name}, issue, returnBackToPool, now)
  {
    var i :| 0 <= i < |order| && Snapshot(order, vars0)[i] == v;
  }

  /** How the script ends. */
  datatype Outcome =
    | Done(printed: seq<string>)  // at least one sandbox rewritten; exit 0
    | NoSandboxFound              // nothing bound to the issue, or the listing failed: throws
    | WriteThrew(name: string)    // a write was refused and threw: the process ends there

  /** One listed variable of the loop: rewritten when bound to the issue.
      `ok` is false when that write was refused. */
  method RewriteIfBound(store: VariableStore, v: Variable, issue: string,
                        returnBackToPool: string, now: int) returns (ok: bool)
    requires store.Valid() && v.name in store.vars
    modifies store
    ensures store.Valid() && store.order == old(store.order)
    ensures ok == !Refused(v, issue, store.rejects)
    ensures store.vars == if BoundTo(v.name, v.value, issue) && ok
                          then old(store.vars)[v.name := old(store.vars)[v.name].(value := Released(v.value, returnBackToPool, now))]
                          else old(store.vars)
  {
    ok := true;
    if EndsWith(v.name, "_SBX") {
      // the script has one branch for a record that is not yet `Expired`
      // and one for a record that is; both rewrite it the same way
      if v.value.issue == Some(issue) {
        ok := store.Patch(v.name, Released(v.value, returnBackToPool, now));
      }
    }
  }

  /** One variable of the loop, with the loop's account of the store: the
      store moves one variable on, unless the write is refused. */
  method ReleaseAt(store: VariableStore, vs: seq<Variable>, i: nat, ghost vars0: map<string, Stored>,
                   issue: string, returnBackToPool: string, now: int) returns (ok: bool)
    requires forall n :: n in store.order ==> n in vars0
    requires i < |vs| && store.Valid() && vs == Snapshot(store.order, vars0)
    requires store.vars == ReleaseApplied(vars0, Names(vs[..i]), issue, returnBackToPool, now)
    modifies store
    ensures store.Valid() && store.order == old(store.order)
    ensures ok == !Refused(vs[i], issue, store.rejects)
    ensures store.vars == if ok then ReleaseApplied(vars0, Names(vs[..i + 1]), issue, returnBackToPool, now)
                          else old(store.vars)
  {
    ReleaseOneMore(vars0, Names(vs[..i]), issue, returnBackToPool, now, store.order, vs[i]);
    NamesOneMore(vs, i);
    ok := RewriteIfBound(store, vs[i], issue, returnBackToPool, now);
  }

  /** The loop of `markSandboxAsExpiredOrAvailable` over the listing `vs`.
      It stops at `stop`: the end of the listing, or the refused write. */
  method RewriteListed(store: VariableStore, vs: seq<Variable>, ghost vars0: map<string, Stored>,
                       issue: string, returnBackToPool: string, now: int)
    returns (stop: nat, refused: bool, printed: seq<string>)
    requires store.Valid() && store.vars == vars0 && vs == Snapshot(store.order, vars0)
    modifies store
    ensures store.Valid() && store.order == old(store.order)
    ensures stop <= |vs| && (refused <==> stop < |vs|)
    ensures refused ==> Refused(vs[stop], issue, store.rejects)
    ensures forall j :: 0 <= j < stop ==> !Refused(vs[j], issue, store.rejects)
    ensures store.vars == ReleaseApplied(vars0, Names(vs[..stop]), issue, returnBackToPool, now)
    ensures printed == Printed(vs[..stop], issue)
  {
    refused := false;
    printed := [];
    var i := 0;
    while i < |vs|
      invariant 0 <= i <= |vs|
      invariant store.Valid() && store.order == old(store.order)
      invariant forall n :: n in store.order ==> n in vars0
      invariant forall j :: 0 <= j < i ==> !Refused(vs[j], issue, store.rejects)
      invariant store.vars == ReleaseApplied(vars0, Names(vs[..i]), issue, returnBackToPool, now)
      invariant printed == Printed(vs[..i], issue)
      invariant !refused
    {
      var v := vs[i];
      var ok := ReleaseAt(store, vs, i, vars0, issue, returnBackToPool, now);
      if !ok {
        refused := true;
        break;
      }
      PrintedOneMore(vs, i, issue);
      if BoundTo(v.name, v.value, issue) {
        printed := printed + [v.value.name];
      }
      i := i + 1;
    }
    stop := i;
  }

  /** `markSandboxAsExpiredOrAvailable` followed by the not-found check.
      `listingFailed` stands for a listing that threw, after which the
      function returns at once. */
  method RemoveAssignment(store: VariableStore, listingFailed: bool, issue: string,
                          returnBackToPool: string, now: int)
    returns (outcome: Outcome)
    requires store.Valid()
    modifies store
    ensures store.Valid() && store.order == old(store.order)
    ensures var vs := old(store.Listing());
            if listingFailed then outcome == NoSandboxFound && store.vars == old(store.vars)
            else match RefusedIndex(vs, issue, store.rejects)
              case Some(k) =>
                outcome == WriteThrew(vs[k].name)
                && store.vars == ReleaseApplied(old(store.vars), Names(vs[..k]), issue, returnBackToPool, now)
              case None =>
                store.vars == ReleaseApplied(old(store.vars), old(store.vars).Keys, issue, returnBackToPool, now)
                && outcome == if Printed(vs, issue) == [] then NoSandboxFound else Done(Printed(vs, issue))
  {
    if listingFailed {
      return NoSandboxFound;
    }
    ghost var vars0 := store.vars;
    var vs := store.Listing();
    SnapshotNames(store.order, vars0);
    var stop, refused, printed := RewriteListed(store, vs, vars0, issue, returnBackToPool, now);
    if refused {
      assert RefusedIndex(vs, issue, store.rejects) == Some(stop);
      return WriteThrew(vs[stop].name);
    }
    assert vs[..stop] == vs;
    if printed == [] {
      return NoSandboxFound;
    }
    return Done(printed);
  }

  /** Only the variables bound to the issue change, each into its released
      form; all of them change, whatever their status (no early stop). */
  lemma ReleaseTouchesOnlyBound(vars: map<string, Stored>, issue: string, returnBackToPool: string,
                                now: int, n: string)
    requires n in vars
    ensures var after := ReleaseApplied(vars, vars.Keys, issue, returnBackToPool, now);
            n in after && after[n].createdAt == vars[n].createdAt
            && after[n].value == if BoundTo(n, vars[n].value, issue)
                                 then Released(vars[n].value, returnBackToPool, now)
                                 else vars[n].value
  {
  }

  /** Returned to the pool, a sandbox bound to the issue no longer is: a
      second release for the same issue finds nothing. */
  lemma ReturnThenNothingFound(vars: map<string, Stored>, order: seq<string>, issue: string,
                               now: int, later: int)
    requires Distinct(order) && forall n :: n in vars <==> n in order
    ensures var after := ReleaseApplied(vars, vars.Keys, issue, "true", now);
            Printed(Snapshot(order, after), issue) == []
  {
    var after := ReleaseApplied(vars, vars.Keys, issue, "true", now);
    var vs := Snapshot(order, after);
    forall j | 0 <= j < |vs| ensures !BoundTo(vs[j].name, vs[j].value, issue) {
      assert vs[j].value == after[order[j]].value;
    }
    PrintedEmpty(vs, issue);
  }
}
