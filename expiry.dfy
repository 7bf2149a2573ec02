/** The expiry sweep: for each configured pool, every sandbox variable of that
    pool that is old enough under the expiry policy is demoted to `Expired`.
    The sweep reads one listing at the start and writes each demotion from the
    value in that listing. */
module Expiry {
  import opened Js
  import opened Store

  const HOUR_MS := 60 * 60 * 1000
  const DEFAULT_EXPIRATION_HOURS := 24
  const EXTENDED_EXPIRATION_HOURS := 48
  const DEFAULT_EXPIRATION_MS := DEFAULT_EXPIRATION_HOURS * HOUR_MS
  const EXTENDED_EXPIRATION_MS := EXTENDED_EXPIRATION_HOURS * HOUR_MS

  /** `POOL_BRANCH_`, upper-cased: the fixed part of the pool's name pattern. */
  function PoolPrefix(c: PoolConfig): string
  {
    Upper(c.pool) + "_" + Upper(c.branch) + "_"
  }

  predicate AllDigits(s: string, from: nat, to: nat)
    requires from <= to <= |s|
  {
    forall m :: from <= m < to ==> IsDigit(s[m])
  }

  /** At position `k` of `s` begin one or more digits followed by `_SBX`. */
  predicate DigitsThenSbx(s: string, k: nat)
  {
    exists j :: k < j <= |s| && AllDigits(s, k, j) && OccursAt(s, "_SBX", j)
  }

  /** `new RegExp("POOL_BRANCH_[0-9]+_SBX").test(name)`: the pattern is not
      anchored, so it may match anywhere in the name. */
  predicate MatchesPool(name: string, c: PoolConfig)
  {
    var prefix := PoolPrefix(c);
    exists k :: 0 <= k <= |name| && OccursAt(name, prefix, k) && DigitsThenSbx(name, k + |prefix|)
  }

  /** The instant the age is measured from: `assignedAt`, else `createdAt`,
      else the instant the store created the variable. */
  function ReferenceTime(v: Variable): (t: int)
    ensures TruthyNumber(v.value.assignedAt) ==> t == v.value.assignedAt.value
    ensures !TruthyNumber(v.value.assignedAt) && TruthyNumber(v.value.createdAt) ==> t == v.value.createdAt.value
    ensures !TruthyNumber(v.value.assignedAt) && !TruthyNumber(v.value.createdAt) ==> t == v.createdAt
  {
    if TruthyNumber(v.value.assignedAt) then v.value.assignedAt.value
    else if TruthyNumber(v.value.createdAt) then v.value.createdAt.value
    else v.createdAt
  }

  /** The filter predicate of the sweep, in the order the script evaluates it.
      Its contract is the policy in closed form: never an `InProgress` or
      `Expired` record, never an immortal one, an extended one from 48 hours
      of age and any other from 24 hours. Hours are compared as exact
      milliseconds. */
  predicate Selected(v: Variable, now: int): (b: bool)
    ensures b <==> v.value.status != InProgress && v.value.status != Expired
                   && !v.value.isImmortal
                   && now - ReferenceTime(v) >= (if v.value.isExtended then EXTENDED_EXPIRATION_MS
                                                 else DEFAULT_EXPIRATION_MS)
  {
    var r := v.value;
    if r.status == InProgress || r.status == Expired then false
    else
      var age := now - ReferenceTime(v);
      var eligible := if r.isImmortal then false
                      else if r.isExtended then !(age < EXTENDED_EXPIRATION_MS)
                      else true;
      r.status != Expired && r.status != InProgress && age >= DEFAULT_EXPIRATION_MS && eligible
  }

  /** The variables the sweep expires for one pool, in listing order. */
  function Matching(vs: seq<Variable>, c: PoolConfig, now: int): (r: seq<Variable>)
    ensures forall v :: v in r <==> v in vs && MatchesPool(v.name, c) && Selected(v, now)
  {
    if vs == [] then []
    else
      var rest := Matching(vs[1..], c, now);
      assert forall v :: v in vs <==> v == vs[0] || v in vs[1..];
      if MatchesPool(vs[0].name, c) && Selected(vs[0], now) then [vs[0]] + rest else rest
  }

  /** The demotion write: every field kept, `status` and `isActive` replaced. */
  function Demote(r: Record): Record
  {
    r.(status := Expired, isActive := Str("false"))
  }

  /** A listed variable that some configured pool selects. */
  predicate Chosen(v: Variable, pools: seq<PoolConfig>, now: int)
  {
    exists c :: c in pools && MatchesPool(v.name, c) && Selected(v, now)
  }

  /** The names the sweep demotes. `count` plays no part: every selected
      variable is expired. */
  function Targets(vs: seq<Variable>, pools: seq<PoolConfig>, now: int): set<string>
  {
    set v | v in vs && Chosen(v, pools, now) :: v.name
  }

  /** The store after demoting `targets`, except those the remote refuses. */
  function DemoteAll(vars: map<string, Stored>, targets: set<string>, rejects: set<string>): map<string, Stored>
  {
    map n | n in vars :: if n in targets && n !in rejects then vars[n].(value := Demote(vars[n].value))
                         else vars[n]
  }

  /** The whole sweep as a function of the store it starts from. */
  function SweepResult(order: seq<string>, vars: map<string, Stored>, rejects: set<string>,
                       pools: seq<PoolConfig>, now: int): map<string, Stored>
    requires forall n :: n in order ==> n in vars
  {
    DemoteAll(vars, Targets(Snapshot(order, vars), pools, now), rejects)
  }

  /** One more demotion written from the listing keeps the store equal to
      `DemoteAll` of the grown set. */
  lemma DemoteOneMore(vars0: map<string, Stored>, done: set<string>, rejects: set<string>,
                      order: seq<string>, v: Variable)
    requires forall n :: n in order ==> n in vars0
    requires v in Snapshot(order, vars0)
    ensures var cur := DemoteAll(vars0, done, rejects);
            v.name in cur && cur[v.name].createdAt == vars0[v.name].createdAt &&
            (if v.name !in rejects
             then cur[v.name := Stored(Demote(v.value), cur[v.name].createdAt)]
             else cur) == DemoteAll(vars0, done + {v.name}, rejects)
  {
    var i :| 0 <= i < |order| && Snapshot(order, vars0)[i] == v;
    assert v.value == vars0[v.name].value;
  }

  /** Adding one pool to the pools already swept adds that pool's matches. */
  lemma TargetsOneMore(vs: seq<Variable>, pools: seq<PoolConfig>, p: nat, now: int)
    requires p < |pools|
    ensures Targets(vs, pools[..p + 1], now)
            == Targets(vs, pools[..p], now) + Names(Matching(vs, pools[p], now))
  {
    assert pools[..p + 1] == pools[..p] + [pools[p]];
    forall v | v in vs
      ensures Chosen(v, pools[..p + 1], now)
              <==> (Chosen(v, pools[..p], now) || (MatchesPool(v.name, pools[p]) && Selected(v, now)))
    {
      if MatchesPool(v.name, pools[p]) && Selected(v, now) {
        assert pools[p] in pools[..p + 1];
      }
    }
  }

  /** The inner `for` of the script: one demotion write per selected
      variable, each from its listed value. A refused write is skipped. */
  method ExpireEach(store: VariableStore, matching: seq<Variable>,
                    ghost vars0: map<string, Stored>, ghost done: set<string>)
    requires store.Valid()
    requires forall n :: n in store.order ==> n in vars0
    requires forall v :: v in matching ==> v in Snapshot(store.order, vars0)
    requires store.vars == DemoteAll(vars0, done, store.rejects)
    modifies store
    ensures store.Valid() && store.order == old(store.order)
    ensures store.vars == DemoteAll(vars0, done + Names(matching), store.rejects)
  {
    ghost var sofar := done;
    var i := 0;
    while i < |matching|
      invariant 0 <= i <= |matching|
      invariant store.Valid() && store.order == old(store.order)
      invariant sofar == done + Names(matching[..i])
      invariant store.vars == DemoteAll(vars0, sofar, store.rejects)
    {
      var v := matching[i];
      DemoteOneMore(vars0, sofar, store.rejects, store.order, v);
      var _ := store.Patch(v.name, Demote(v.value));
      sofar := sofar + {v.name};
      NamesOneMore(matching, i);
      i := i + 1;
    }
    assert matching[..i] == matching;
  }

  /** `expireOldSandboxes.js`: one pass over the configured pools, all
      selected from the listing read at the start. */
  method Sweep(store: VariableStore, pools: seq<PoolConfig>, now: int)
    requires store.Valid()
    modifies store
    ensures store.Valid() && store.order == old(store.order)
    ensures store.vars == SweepResult(old(store.order), old(store.vars), store.rejects, pools, now)
  {
    ghost var vars0 := store.vars;
    var vs := store.Listing();
    ghost var done: set<string> := {};
    var p := 0;
    while p < |pools|
      invariant 0 <= p <= |pools|
      invariant store.Valid() && store.order == old(store.order)
      invariant done == Targets(vs, pools[..p], now)
      invariant store.vars == DemoteAll(vars0, done, store.rejects)
    {
      var matching := Matching(vs, pools[p], now);
      ExpireEach(store, matching, vars0, done);
      TargetsOneMore(vs, pools, p, now);
      done := done + Names(matching);
      p := p + 1;
    }
    assert pools[..p] == pools;
  }

  /** Every record the sweep changes becomes exactly its demotion; an
      `InProgress`, `Expired` or immortal record is never changed. */
  lemma SweepOnlyDemotes(order: seq<string>, vars: map<string, Stored>, rejects: set<string>,
                         pools: seq<PoolConfig>, now: int, n: string)
    requires forall m :: m in order ==> m in vars
    requires n in vars
    ensures var after := SweepResult(order, vars, rejects, pools, now);
            n in after && after[n].createdAt == vars[n].createdAt &&
            (after[n].value == vars[n].value || after[n].value == Demote(vars[n].value))
    ensures var r := vars[n].value;
            r.status == InProgress || r.status == Expired || r.isImmortal ==>
              SweepResult(order, vars, rejects, pools, now)[n] == vars[n]
  {
  }

  /** The desired count is no cap: every listed variable that some pool
      selects is expired, unless the remote refuses the write. */
  lemma SweepExpiresAllSelected(order: seq<string>, vars: map<string, Stored>, rejects: set<string>,
                                pools: seq<PoolConfig>, now: int, v: Variable)
    requires forall m :: m in order ==> m in vars
    requires v in Snapshot(order, vars) && Chosen(v, pools, now) && v.name !in rejects
    ensures SweepResult(order, vars, rejects, pools, now)[v.name].value.status == Expired
    ensures SweepResult(order, vars, rejects, pools, now)[v.name].value.isActive == Str("false")
  {
    var i :| 0 <= i < |order| && Snapshot(order, vars)[i] == v;
  }

  /** A second sweep at the same instant changes nothing: what the first one
      demoted is now `Expired`, and what it left was not selected (or was
      refused, and still is). */
  lemma {:induction false} SweepIdempotent(order: seq<string>, vars: map<string, Stored>, rejects: set<string>,
                                           pools: seq<PoolConfig>, now: int)
    requires forall m :: m in order ==> m in vars
    ensures var once := SweepResult(order, vars, rejects, pools, now);
            (forall m :: m in order ==> m in once) &&
            SweepResult(order, once, rejects, pools, now) == once
  {
    var vs := Snapshot(order, vars);
    var t1 := Targets(vs, pools, now);
    var once := DemoteAll(vars, t1, rejects);
    var vs2 := Snapshot(order, once);
    var t2 := Targets(vs2, pools, now);
    forall n | n in once && n in t2 && n !in rejects
      ensures false
    {
    }
  }
}
