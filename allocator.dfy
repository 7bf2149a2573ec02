/** The allocator: a CI job asks for a sandbox of a pool for an issue. A
    sandbox already bound to the issue is reused (or waited for while it is
    in use); otherwise the first free sandbox of the pool is claimed. While
    the bound sandbox stays in use the allocator polls once a minute until a
    deadline, after which it may hand out a sandbox the issue held before
    that has since expired. */
module Allocator {
  import opened Js
  import opened Store

  const MINUTE_MS := 60000
  const POLL_MS := 60000
  const EXIT_ON_TIMEOUT := "--exit-on-timeout"

  /** `DOMAIN_BRANCH_`: the fixed front of a pool variable's name. */
  function KeyPrefix(domain: string, branch: string): string
  {
    domain + "_" + branch + "_"
  }

  /** The name of the variable that holds sandbox `name` of the pool. */
  function WriteKey(domain: string, branch: string, name: string): string
  {
    KeyPrefix(domain, branch) + name + "_SBX"
  }

  /** The listing filter `^DOMAIN_BRANCH_[^_]*_SBX$`, with the domain and
      branch taken literally. */
  predicate PoolVariable(key: string, domain: string, branch: string)
  {
    var p := KeyPrefix(domain, branch);
    |p| + 4 <= |key| && StartsWith(key, p) && EndsWith(key, "_SBX")
    && '_' !in key[|p|..|key| - 4]
  }

  /** The key a claim writes is one the listing finds again exactly when the
      sandbox name holds no underscore. */
  lemma WriteKeyListed(domain: string, branch: string, name: string)
    ensures PoolVariable(WriteKey(domain, branch, name), domain, branch) <==> '_' !in name
  {
    var p := KeyPrefix(domain, branch);
    var key := WriteKey(domain, branch, name);
    assert |key| == |p| + |name| + 4;
    assert key[..|p|] == p;
    assert key[|key| - 4..] == "_SBX";
    assert key[|p|..|key| - 4] == name;
  }

  /** The pool's variables, in listing order. */
  function PoolListing(vs: seq<Variable>, domain: string, branch: string): (r: seq<Variable>)
    ensures forall v :: v in r <==> v in vs && PoolVariable(v.name, domain, branch)
    ensures |r| <= |vs|
  {
    if vs == [] then []
    else
      var rest := PoolListing(vs[1..], domain, branch);
      assert forall v :: v in vs <==> v == vs[0] || v in vs[1..];
      if PoolVariable(vs[0].name, domain, branch) then [vs[0]] + rest else rest
  }

  /** What each scan looks for. */
  datatype Criterion =
    | BoundActive(issue: string)    // bound to the issue, `InUse` or `Available`, and active
    | BoundExpired(issue: string)   // bound to the issue, `Expired`, with a (truthy) name
    | Claimable                     // bound to no issue, `Available` and active

  predicate Meets(c: Criterion, r: Record)
  {
    match c
    case BoundActive(issue) =>
      r.issue == Some(issue) && (r.status == InUse || r.status == Available) && Truthy(r.isActive)
    case BoundExpired(issue) =>
      r.issue == Some(issue) && r.status == Expired && r.name != ""
    case Claimable =>
      !TruthyString(r.issue) && r.status == Available && Truthy(r.isActive)
  }

  /** The position of the first listed record that meets `c`. */
  function FirstIndex(vs: seq<Variable>, c: Criterion): (r: Option<nat>)
    ensures r.Some? ==> r.value < |vs| && Meets(c, vs[r.value].value)
                        && forall j :: 0 <= j < r.value ==> !Meets(c, vs[j].value)
    ensures r.None? ==> forall j :: 0 <= j < |vs| ==> !Meets(c, vs[j].value)
  {
    if vs == [] then None
    else if Meets(c, vs[0].value) then Some(0)
    else
      match FirstIndex(vs[1..], c)
      case None => None
      case Some(k) => Some(k + 1)
  }

  /** Looking one record further changes the first match only when there
      was none before. */
  lemma FirstIndexSnoc(vs: seq<Variable>, i: nat, c: Criterion)
    requires i < |vs|
    ensures FirstIndex(vs[..i + 1], c)
            == if FirstIndex(vs[..i], c).Some? then FirstIndex(vs[..i], c)
               else if Meets(c, vs[i].value) then Some(i) else None
  {
    var a := FirstIndex(vs[..i], c);
    var w := vs[..i + 1];
    assert forall j :: 0 <= j < i ==> w[j] == vs[..i][j];
    if a.Some? {
      FirstIndexAt(w, a.value, c);
    } else if Meets(c, vs[i].value) {
      FirstIndexAt(w, i, c);
    } else {
      FirstIndexAt(w, i + 1, c);
    }
  }

  /** A scan that has passed `i` records without a match and meets one at
      `i` (or reaches the end) has found the first match (or none). */
  lemma FirstIndexAt(vs: seq<Variable>, i: nat, c: Criterion)
    requires i <= |vs| && forall j :: 0 <= j < i ==> !Meets(c, vs[j].value)
    requires i < |vs| ==> Meets(c, vs[i].value)
    ensures FirstIndex(vs, c) == if i < |vs| then Some(i) else None
  {
  }

  /** The `firstExpiredSandbox` of the binding pass after it has looked at
      the records in `vs`: the first bound `Expired` name, or none (`""`). */
  function FallbackName(vs: seq<Variable>, issue: string): (name: string)
    ensures name != "" <==> exists j :: 0 <= j < |vs| && Meets(BoundExpired(issue), vs[j].value)
  {
    match FirstIndex(vs, BoundExpired(issue))
    case None => ""
    case Some(j) => vs[j].value.name
  }

  /** Looking one record further: a fallback already found stays; otherwise
      a bound `Expired` record supplies its name (an empty one leaving none). */
  lemma FallbackSnoc(vs: seq<Variable>, i: nat, issue: string)
    requires i < |vs|
    ensures FallbackName(vs[..i + 1], issue)
            == if FallbackName(vs[..i], issue) != "" then FallbackName(vs[..i], issue)
               else if vs[i].value.issue == Some(issue) && vs[i].value.status == Expired then vs[i].value.name
               else ""
  {
    FirstIndexSnoc(vs, i, BoundExpired(issue));
  }

  /** The record a claim writes: the listed one, bound to the issue and
      marked `InUse`. */
  function Bound(r: Record, issue: string): Record
  {
    r.(issue := Some(issue), status := InUse)
  }

  /** What one round of the polling loop decides. */
  datatype Round =
    | Claim(key: string, record: Record)  // write `record` under `key`, output its name, exit 0
    | Wait(fallback: string)              // the issue's sandbox is held: wait, or at the deadline fall back
    | Nothing                             // nothing to give: exit 1 at once

  /** One round over the pool's listing `vs`, for `issue`, at time `now`. */
  function RoundOf(vs: seq<Variable>, domain: string, branch: string, issue: string, now: int): Round
  {
    match FirstIndex(vs, BoundActive(issue))
    case Some(b) =>
      var r := vs[b].value;
      if r.status == Available && r.name != "" then Claim(WriteKey(domain, branch, r.name), Bound(r, issue))
      else Wait(FallbackName(vs[..b], issue))
    case None =>
      match FirstIndex(vs, Claimable)
      case Some(u) =>
        var r := vs[u].value.(assignedAt := Some(now));
        if r.name != "" then Claim(WriteKey(domain, branch, r.name), Bound(r, issue)) else Nothing
      case None => Nothing
  }

  /** A claim takes the first match of the first pass that finds one. A
      record already bound to the issue is taken as it is; a free record is
      taken only when none is bound, and only then is `assignedAt` stamped.
      The record is written unchanged otherwise, bound to the issue and
      `InUse`, under the key of its own name. */
  lemma ClaimShape(vs: seq<Variable>, domain: string, branch: string, issue: string, now: int)
    requires RoundOf(vs, domain, branch, issue, now).Claim?
    ensures var c := RoundOf(vs, domain, branch, issue, now);
            exists i :: 0 <= i < |vs| && vs[i].value.status == Available && Truthy(vs[i].value.isActive)
              && vs[i].value.name != "" && c.key == WriteKey(domain, branch, vs[i].value.name)
              && c.record.issue == Some(issue) && c.record.status == InUse
              && if exists j :: 0 <= j < |vs| && Meets(BoundActive(issue), vs[j].value)
                 then vs[i].value.issue == Some(issue)
                      && (forall j :: 0 <= j < i ==> !Meets(BoundActive(issue), vs[j].value))
                      && c.record == Bound(vs[i].value, issue)
                 else !TruthyString(vs[i].value.issue)
                      && (forall j :: 0 <= j < i ==> !Meets(Claimable, vs[j].value))
                      && c.record == Bound(vs[i].value.(assignedAt := Some(now)), issue)
  {
    match FirstIndex(vs, BoundActive(issue))
    case Some(b) =>
    case None =>
      var u := FirstIndex(vs, Claimable).value;
      assert vs[u].value.name != "";
  }

  /** The fallback of a wait is a bound `Expired` record listed before the
      record that holds the issue: the pass stops at that record. */
  lemma WaitFallback(vs: seq<Variable>, domain: string, branch: string, issue: string, now: int)
    requires RoundOf(vs, domain, branch, issue, now).Wait?
    ensures exists b :: 0 <= b < |vs| && Meets(BoundActive(issue), vs[b].value)
              && (vs[b].value.status == InUse || vs[b].value.name == "")
              && (RoundOf(vs, domain, branch, issue, now).fallback != "" ==>
                    exists j :: 0 <= j < b && Meets(BoundExpired(issue), vs[j].value)
                                && vs[j].value.name == RoundOf(vs, domain, branch, issue, now).fallback)
  {
    var b := FirstIndex(vs, BoundActive(issue)).value;
    var f := FirstIndex(vs[..b], BoundExpired(issue));
    if f.Some? {
      assert vs[..b][f.value] == vs[f.value];
    }
  }

  /** Nothing to give: no record is bound to the issue and active, and the
      first free record (if any) has no name. */
  lemma NothingMeansUnbound(vs: seq<Variable>, domain: string, branch: string, issue: string, now: int)
    requires RoundOf(vs, domain, branch, issue, now).Nothing?
    ensures forall j :: 0 <= j < |vs| ==> !Meets(BoundActive(issue), vs[j].value)
    ensures forall j :: 0 <= j < |vs| && Meets(Claimable, vs[j].value) ==>
              exists u :: 0 <= u <= j && Meets(Claimable, vs[u].value) && vs[u].value.name == ""
  {
    match FirstIndex(vs, BoundActive(issue))
    case Some(b) =>
    case None =>
      match FirstIndex(vs, Claimable)
      case None =>
      case Some(u) =>
        forall j | 0 <= j < |vs| && Meets(Claimable, vs[j].value)
          ensures exists u :: 0 <= u <= j && Meets(Claimable, vs[u].value) && vs[u].value.name == ""
        {
          assert u <= j && vs[u].value.name == "";
        }
  }

  /** Only a claim depends on the clock, and only through `assignedAt`. */
  lemma RoundClockFree(vs: seq<Variable>, domain: string, branch: string, issue: string, t1: int, t2: int)
    ensures RoundOf(vs, domain, branch, issue, t1).Claim? == RoundOf(vs, domain, branch, issue, t2).Claim?
    ensures !RoundOf(vs, domain, branch, issue, t1).Claim? ==>
              RoundOf(vs, domain, branch, issue, t1) == RoundOf(vs, domain, branch, issue, t2)
  {
  }

  /** A listing whose variables are all named after their sandboxes, as the
      provisioning scripts name them. */
  predicate WellNamed(vs: seq<Variable>, domain: string, branch: string)
  {
    (forall i :: 0 <= i < |vs| ==> vs[i].name == WriteKey(domain, branch, vs[i].value.name))
    && (forall i, j :: 0 <= i < j < |vs| ==> vs[i].name != vs[j].name)
  }

  /** After a claim has been written, running the allocator again for the
      same issue meets the claimed record as an `InUse` binding and waits:
      it never claims a second record. */
  lemma RerunWaits(vs: seq<Variable>, domain: string, branch: string, issue: string,
                   now: int, later: int, i: nat)
    requires WellNamed(vs, domain, branch) && i < |vs|
    requires var c := RoundOf(vs, domain, branch, issue, now);
             c.Claim? && c.key == vs[i].name
    ensures var c := RoundOf(vs, domain, branch, issue, now);
            var after := vs[i := vs[i].(value := c.record)];
            RoundOf(after, domain, branch, issue, later).Wait?
  {
    var c := RoundOf(vs, domain, branch, issue, now);
    var after := vs[i := vs[i].(value := c.record)];
    var k: nat;
    match FirstIndex(vs, BoundActive(issue)) {
      case Some(b) =>
        k := b;
      case None =>
        k := FirstIndex(vs, Claimable).value;
    }
    assert c.key == vs[k].name;
    assert k == i;
    assert Meets(BoundActive(issue), after[i].value);
    forall j | 0 <= j < i
      ensures !Meets(BoundActive(issue), after[j].value)
    {
      assert after[j] == vs[j];
    }
    assert FirstIndex(after, BoundActive(issue)) == Some(i);
  }

  /** The allocator's clock: `Date.now()`, advanced by the one-minute sleeps. */
  class Clock {
    var now: int

    constructor (start: int)
      ensures now == start
    {
      now := start;
    }

    method Sleep(ms: nat)
      modifies this
      ensures now == old(now) + ms
    {
      now := now + ms;
    }
  }

  /** One record of the first `for`: whether it is the issue's active
      binding, and the expired name remembered after it. */
  method InspectBinding(r: Record, issue: string, firstExpired: string)
    returns (found: bool, firstExpired': string)
    ensures found <==> Meets(BoundActive(issue), r)
    ensures firstExpired' == if found || firstExpired != "" then firstExpired
                             else if r.issue == Some(issue) && r.status == Expired then r.name
                             else ""
  {
    found, firstExpired' := false, firstExpired;
    if r.issue == Some(issue) {
      if r.status == InUse && Truthy(r.isActive) {
        found := true;
      } else if r.status == Available && Truthy(r.isActive) {
        found := true;
      } else if r.status == Expired {
        if firstExpired == "" {
          firstExpired' := r.name;
        }
      }
    }
  }

  /** The first `for` of the script: look for the issue's own sandbox,
      remembering the first bound `Expired` name on the way. */
  method BindingPass(vs: seq<Variable>, issue: string)
    returns (isIssueAssigned: bool, info: Option<Record>, available: string, firstExpired: string)
    ensures var b := FirstIndex(vs, BoundActive(issue));
            isIssueAssigned == b.Some?
            && (if b.Some? && vs[b.value].value.status == Available
                then info == Some(vs[b.value].value) && available == vs[b.value].value.name
                else info.None? && available == "")
            && firstExpired == FallbackName(vs[..if b.Some? then b.value else |vs|], issue)
  {
    isIssueAssigned := false;
    info := None;
    available := "";
    firstExpired := "";
    var i := 0;
    while i < |vs|
      invariant 0 <= i <= |vs|
      invariant forall j :: 0 <= j < i ==> !Meets(BoundActive(issue), vs[j].value)
      invariant firstExpired == FallbackName(vs[..i], issue)
    {
      var r := vs[i].value;
      var found, expired' := InspectBinding(r, issue, firstExpired);
      if found {
        FirstIndexAt(vs, i, BoundActive(issue));
        isIssueAssigned := true;
        if r.status == Available {
          info := Some(r);
          available := r.name;
        }
        return;
      }
      FallbackSnoc(vs, i, issue);
      firstExpired := expired';
      i := i + 1;
    }
    FirstIndexAt(vs, |vs|, BoundActive(issue));
    assert vs[..|vs|] == vs;
  }

  /** The second `for`: the first free sandbox, stamped with the time it is
      taken. */
  method UnboundPass(vs: seq<Variable>, now: int) returns (info: Option<Record>, available: string)
    ensures var u := FirstIndex(vs, Claimable);
            if u.Some? then info == Some(vs[u.value].value.(assignedAt := Some(now)))
                            && available == vs[u.value].value.name
            else info.None? && available == ""
  {
    info := None;
    available := "";
    var i := 0;
    while i < |vs|
      invariant 0 <= i <= |vs|
      invariant forall j :: 0 <= j < i ==> !Meets(Claimable, vs[j].value)
      invariant info.None? && available == ""
    {
      var r := vs[i].value;
      if !TruthyString(r.issue) && r.status == Available && Truthy(r.isActive) {
        info := Some(r.(assignedAt := Some(now)));
        available := r.name;
        break;
      }
      i := i + 1;
    }
  }

  /** How `findAvailableSandbox` ends, with its exit code. */
  datatype Outcome =
    | NoPool                 // the pool has no variables
    | Claimed(name: string)  // a sandbox was claimed and printed
    | Fallback(name: string) // the deadline passed; a formerly bound expired sandbox was printed
    | NothingClaimable       // no binding and nothing free
    | TimedOut               // the deadline passed with nothing to hand out
    | WriteFailed            // the claim's write threw, ending the process

  function ExitCode(o: Outcome): (code: int)
    ensures code == 0 <==> o.Claimed? || o.Fallback?
  {
    match o
    case Claimed(_) => 0
    case Fallback(_) => 0
    case _ => 1
  }

  /** `findAvailableSandbox`, with no other process touching the store while
      it runs. Every round re-lists the pool; a claim is written and ends the
      run whatever the clock says; a wait sleeps a minute until the deadline
      `start + timeoutMinutes * 60000`, which is checked before each sleep. */
  method FindAvailableSandbox(store: VariableStore, clock: Clock, domain: string, branch: string,
                              issue: string, timeoutMinutes: int, exitOnTimeout: string)
    returns (outcome: Outcome)
    requires store.Valid()
    modifies store, clock
    ensures store.Valid() && store.order == old(store.order)
    ensures var d := Upper(domain);
            var b := Upper(branch);
            var vs := PoolListing(old(store.Listing()), d, b);
            var end := old(clock.now) + timeoutMinutes * MINUTE_MS;
            if vs == [] then outcome == NoPool && store.vars == old(store.vars) && clock.now == old(clock.now)
            else match RoundOf(vs, d, b, issue, old(clock.now))
              case Claim(key, record) =>
                var ok := key in old(store.vars) && key !in store.rejects;
                clock.now == old(clock.now)
                && outcome == (if ok then Claimed(record.name) else WriteFailed)
                && store.vars == (if ok then old(store.vars)[key := Stored(record, old(store.vars)[key].createdAt)]
                                  else old(store.vars))
              case Wait(fallback) =>
                store.vars == old(store.vars) && clock.now >= end
                && outcome == (if exitOnTimeout == EXIT_ON_TIMEOUT then TimedOut
                               else if fallback != "" then Fallback(fallback) else TimedOut)
              case Nothing =>
                outcome == NothingClaimable && store.vars == old(store.vars) && clock.now == old(clock.now)
  {
    var d := Upper(domain);
    var b := Upper(branch);
    var end := clock.now + timeoutMinutes * MINUTE_MS;
    ghost var vs0 := PoolListing(store.Listing(), d, b);
    while true
      invariant store.Valid() && store.vars == old(store.vars) && store.order == old(store.order)
      invariant clock.now == old(clock.now) || (vs0 != [] && RoundOf(vs0, d, b, issue, old(clock.now)).Wait?)
      decreases if clock.now < end then end - clock.now else 0
    {
      var vs := PoolListing(store.Listing(), d, b);
      if |vs| == 0 {
        return NoPool;
      }
      RoundClockFree(vs, d, b, issue, clock.now, old(clock.now));
      var isIssueAssigned, info, available, firstExpired := BindingPass(vs, issue);
      if !isIssueAssigned {
        info, available := UnboundPass(vs, clock.now);
      }
      if available != "" {
        var key := WriteKey(d, b, available);
        var ok := store.Patch(key, Bound(info.value, issue));
        if !ok {
          return WriteFailed;
        }
        return Claimed(available);
      } else if isIssueAssigned {
        if clock.now >= end {
          if exitOnTimeout == EXIT_ON_TIMEOUT {
            return TimedOut;
          } else if firstExpired != "" {
            return Fallback(firstExpired);
          } else {
            return TimedOut;
          }
        }
        clock.Sleep(POLL_MS);
      } else {
        return NothingClaimable;
      }
    }
  }
}
