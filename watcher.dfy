/** The provision watcher: every `InProgress` sandbox variable whose sandbox
    the provisioner reports as `Completed` is promoted. A developer sandbox
    (`_DEVSBX`) gets a user and a notice on its issue and becomes `Assigned`;
    a CI sandbox (`_SBX`) of a configured pool has its users activated and is
    replaced by a fresh `Available` record. Developer variables are handled
    first; the CI pass then lists the store again. */
module Watcher {
  import opened Js
  import opened Store

  const COMPLETED := "Completed"
  const DEFAULT_EXPIRY_DAYS := 15

  /** One entry of the provisioner's status report. */
  datatype StatusEntry = StatusEntry(sandboxName: string, status: string)

  /** What `sfp dev create` reports about the user it made. */
  datatype UserDetails = UserDetails(username: string, isTargetUserPasswordReset: JsValue)

  /** What the outside world answers during one run: the status report, the
      sandboxes whose login or user activation fails, the users created per
      sandbox (a missing entry is a failed creation), and the sandboxes whose
      issue comment cannot be posted. */
  datatype Provisioner = Provisioner(
    statuses: seq<StatusEntry>,
    loginFails: set<string>,
    activationFails: set<string>,
    createdUsers: map<string, UserDetails>,
    commentFails: set<string>
  )

  /** The position of the first status entry for `name`. */
  function FirstEntry(details: seq<StatusEntry>, name: string): (r: Option<nat>)
    ensures r.Some? ==> r.value < |details| && details[r.value].sandboxName == name
                        && forall j :: 0 <= j < r.value ==> details[j].sandboxName != name
    ensures r.None? ==> forall j :: 0 <= j < |details| ==> details[j].sandboxName != name
  {
    if details == [] then None
    else if details[0].sandboxName == name then Some(0)
    else
      match FirstEntry(details[1..], name)
      case None => None
      case Some(k) => Some(k + 1)
  }

  /** The status reported for `name`, or `default` when none is. */
  function StatusOf(details: seq<StatusEntry>, name: string, default: Option<string>): Option<string>
  {
    match FirstEntry(details, name)
    case Some(i) => Some(details[i].status)
    case None => default
  }

  /** The status-lookup `for` of both processors: the first matching entry
      decides, later ones are not looked at. */
  method LookupStatus(details: seq<StatusEntry>, name: string, default: Option<string>)
    returns (status: Option<string>)
    ensures status == StatusOf(details, name, default)
  {
    status := default;
    var i := 0;
    while i < |details|
      invariant 0 <= i <= |details|
      invariant forall j :: 0 <= j < i ==> details[j].sandboxName != name
      invariant status == default
    {
      if name == details[i].sandboxName {
        status := Some(details[i].status);
        break;
      }
      i := i + 1;
    }
  }

  /** `POOL_BRANCH`, upper-cased. */
  function PoolPattern(c: PoolConfig): string
  {
    Upper(c.pool) + "_" + Upper(c.branch)
  }

  /** The position of the first configuration whose pattern occurs in the
      variable's name. */
  function PoolConfigIndex(name: string, configs: seq<PoolConfig>): (r: Option<nat>)
    ensures r.Some? ==> r.value < |configs|
  {
    if configs == [] then None
    else if Contains(name, PoolPattern(configs[0])) then Some(0)
    else
      match PoolConfigIndex(name, configs[1..])
      case None => None
      case Some(k) => Some(k + 1)
  }

  /** The index found is that of a matching configuration with no matching
      one before it; none is found only when no configuration matches. */
  lemma {:induction false} PoolConfigIndexFirst(name: string, configs: seq<PoolConfig>)
    ensures var r := PoolConfigIndex(name, configs);
            (r.Some? ==> Contains(name, PoolPattern(configs[r.value]))
                         && forall j :: 0 <= j < r.value ==> !Contains(name, PoolPattern(configs[j])))
            && (r.None? ==> forall j :: 0 <= j < |configs| ==> !Contains(name, PoolPattern(configs[j])))
  {
    if configs != [] && !Contains(name, PoolPattern(configs[0])) {
      PoolConfigIndexFirst(name, configs[1..]);
      var r := PoolConfigIndex(name, configs);
      if r.Some? {
        forall j | 0 <= j < r.value ensures !Contains(name, PoolPattern(configs[j])) {
          if j > 0 {
            assert configs[j] == configs[1..][j - 1];
          }
        }
      } else {
        forall j | 0 <= j < |configs| ensures !Contains(name, PoolPattern(configs[j])) {
          if j > 0 {
            assert configs[j] == configs[1..][j - 1];
          }
        }
      }
    }
  }

  /** `findPoolConfig`: the first configuration whose pattern occurs in the
      variable's name, if any. */
  function FindPoolConfig(name: string, configs: seq<PoolConfig>): Option<PoolConfig>
  {
    match PoolConfigIndex(name, configs)
    case None => None
    case Some(i) => Some(configs[i])
  }

  /** `findPoolConfig` returns a matching configuration with no matching one
      before it, and nothing only when no configuration matches. */
  lemma FindPoolConfigFirst(name: string, configs: seq<PoolConfig>)
    ensures var r := FindPoolConfig(name, configs);
            (r.Some? ==> exists i :: 0 <= i < |configs| && configs[i] == r.value
                          && Contains(name, PoolPattern(configs[i]))
                          && forall j :: 0 <= j < i ==> !Contains(name, PoolPattern(configs[j])))
            && (r.None? ==> forall j :: 0 <= j < |configs| ==> !Contains(name, PoolPattern(configs[j])))
  {
    PoolConfigIndexFirst(name, configs);
  }

  /** `u1,u2,…` becomes `u1@sandbox,u2@sandbox,…`. */
  function ActivationList(users: string, sandbox: string): string
  {
    var parts := Split(users, ',');
    Join(seq(|parts|, i requires 0 <= i < |parts| => parts[i] + "@" + sandbox), ',')
  }

  /** The activation list holds one entry per configured user, in order,
      each qualified with the sandbox name (which holds no comma). */
  lemma ActivationListParts(users: string, sandbox: string)
    requires ',' !in sandbox
    ensures var parts := Split(users, ',');
            var r := Split(ActivationList(users, sandbox), ',');
            |r| == |parts| && forall i :: 0 <= i < |parts| ==> r[i] == parts[i] + "@" + sandbox
  {
    var parts := Split(users, ',');
    var qualified := seq(|parts|, i requires 0 <= i < |parts| => parts[i] + "@" + sandbox);
    forall i | 0 <= i < |qualified| ensures ',' !in qualified[i] {
      assert qualified[i] == parts[i] + "@" + sandbox;
    }
    SplitJoin(qualified, ',');
  }

  /** How processing a completed CI sandbox ends. */
  datatype CiOutcome =
    | CiNotCompleted                      // status missing or not `Completed`: nothing happens
    | CiLoginFailed                       // the login threw: caught, no write
    | ActivationFailed                    // the activation script threw: caught, no write
    | CiPromoted(activated: Option<string>)  // the record is rewritten; the users list activated, if any

  /** `processReviewSandbox` up to its write. The status defaults to
      `InProgress` when the report has no entry for the sandbox. */
  function CiOutcomeOf(sandboxName: string, config: PoolConfig, env: Provisioner): CiOutcome
  {
    if StatusOf(env.statuses, sandboxName, Some("InProgress")) != Some(COMPLETED) then CiNotCompleted
    else if sandboxName in env.loginFails then CiLoginFailed
    else if TruthyString(config.usersToBeActivated) then
      if sandboxName in env.activationFails then ActivationFailed
      else CiPromoted(Some(ActivationList(config.usersToBeActivated.value, sandboxName)))
    else CiPromoted(None)
  }

  /** The record a completed CI sandbox gets: only its name, `Available`,
      `isActive: "true"` and `createdAt`. */
  function PromoteCi(sandboxName: string, now: int): Record
  {
    Record(sandboxName, Available, Str("true"), None, None, Some(now), false, false, None)
  }

  /** The two wordings of the developer notice. */
  datatype NoticeKind =
    | CheckEmail   // the password-reset flag is falsy: reset the password from the e-mail
    | AskAdmin     // the flag is truthy: no user could be set up, ask an administrator

  /** The comment posted on a developer sandbox's issue. */
  datatype Notice = Notice(sandboxName: string, username: string, expiryDays: int, kind: NoticeKind)

  /** How processing a completed developer sandbox ends. */
  datatype DevOutcome =
    | DevNotCompleted
    | DevLoginFailed        // returns before anything else
    | UserCreationFailed    // thrown and caught: no notice, no write
    | NotifyFailed          // the comment threw: caught, no write
    | DevPromoted(notice: Notice)

  /** `processDevSandbox` up to its write. The status has no default. */
  function DevOutcomeOf(r: Record, env: Provisioner): DevOutcome
  {
    if StatusOf(env.statuses, r.name, None) != Some(COMPLETED) then DevNotCompleted
    else if r.name in env.loginFails then DevLoginFailed
    else if r.name !in env.createdUsers then UserCreationFailed
    else if r.name in env.commentFails then NotifyFailed
    else
      var user := env.createdUsers[r.name];
      var expiry := if TruthyNumber(r.expiry) then r.expiry.value else DEFAULT_EXPIRY_DAYS;
      var kind := if !Truthy(user.isTargetUserPasswordReset) then CheckEmail else AskAdmin;
      DevPromoted(Notice(r.name, user.username, expiry, kind))
  }

  /** The notice names the sandbox and its user, shows the record's expiry or
      15 days, and asks the user to check their e-mail exactly when the
      password-reset flag is falsy. It is posted only for a completed
      sandbox whose login and user creation succeeded. */
  lemma DevNoticeContents(r: Record, env: Provisioner)
    requires DevOutcomeOf(r, env).DevPromoted?
    ensures var n := DevOutcomeOf(r, env).notice;
            StatusOf(env.statuses, r.name, None) == Some(COMPLETED)
            && r.name !in env.loginFails && r.name in env.createdUsers && r.name !in env.commentFails
            && n.sandboxName == r.name && n.username == env.createdUsers[r.name].username
            && (n.expiryDays == if TruthyNumber(r.expiry) then r.expiry.value else 15)
            && (n.kind == CheckEmail <==> !Truthy(env.createdUsers[r.name].isTargetUserPasswordReset))
  {
  }

  /** A completed developer record keeps every field but `createdAt` and
      `status`. */
  function PromoteDev(r: Record, now: int): Record
  {
    r.(createdAt := Some(now), status := Assigned)
  }

  /** A developer variable the first pass rewrites. */
  predicate DevChosen(name: string, r: Record, env: Provisioner)
  {
    Contains(name, "_DEVSBX") && r.status == InProgress && DevOutcomeOf(r, env).DevPromoted?
  }

  /** A CI variable the second pass rewrites. */
  predicate CiChosen(name: string, r: Record, configs: seq<PoolConfig>, env: Provisioner)
  {
    Contains(name, "_SBX") && FindPoolConfig(name, configs).Some? && r.status == InProgress
    && CiOutcomeOf(r.name, FindPoolConfig(name, configs).value, env).CiPromoted?
  }

  /** The store once the developer pass has handled the names in `done`. */
  function DevApplied(vars: map<string, Stored>, done: set<string>, env: Provisioner,
                      rejects: set<string>, now: int): map<string, Stored>
  {
    map n | n in vars :: if n in done && DevChosen(n, vars[n].value, env) && n !in rejects
                         then vars[n].(value := PromoteDev(vars[n].value, now)) else vars[n]
  }

  /** The store once the CI pass has handled the names in `done`. */
  function CiApplied(vars: map<string, Stored>, done: set<string>, configs: seq<PoolConfig>,
                     env: Provisioner, rejects: set<string>, now: int): map<string, Stored>
  {
    map n | n in vars :: if n in done && CiChosen(n, vars[n].value, configs, env) && n !in rejects
                         then vars[n].(value := PromoteCi(vars[n].value.name, now)) else vars[n]
  }

  /** The whole run as a function of the store it starts from. */
  function WatchResult(vars: map<string, Stored>, configs: seq<PoolConfig>, env: Provisioner,
                       rejects: set<string>, now: int): map<string, Stored>
  {
    var afterDev := DevApplied(vars, vars.Keys, env, rejects, now);
    CiApplied(afterDev, afterDev.Keys, configs, env, rejects, now)
  }

  /** The notices the developer pass posts, in listing order. A notice is
      posted before the write, so a refused write still leaves it posted. */
  function DevNotices(vs: seq<Variable>, env: Provisioner): seq<Notice>
  {
    if vs == [] then []
    else
      var v := vs[|vs| - 1];
      DevNotices(vs[..|vs| - 1], env)
        + if DevChosen(v.name, v.value, env) then [DevOutcomeOf(v.value, env).notice] else []
  }

  lemma DevNoticesOneMore(vs: seq<Variable>, i: nat, env: Provisioner)
    requires i < |vs|
    ensures DevNotices(vs[..i + 1], env)
            == DevNotices(vs[..i], env)
               + if DevChosen(vs[i].name, vs[i].value, env) then [DevOutcomeOf(vs[i].value, env).notice] else []
  {
    assert vs[..i + 1][..i] == vs[..i];
  }

  /** `processDevSandbox` for the variable `variableName` holding `r`. */
  method ProcessDevSandbox(store: VariableStore, variableName: string, r: Record,
                           env: Provisioner, now: int)
    returns (notice: Option<Notice>)
    requires store.Valid()
    modifies store
    ensures store.Valid() && store.order == old(store.order)
    ensures var o := DevOutcomeOf(r, env);
            notice == (if o.DevPromoted? then Some(o.notice) else None)
    ensures var ok := DevOutcomeOf(r, env).DevPromoted? && variableName in old(store.vars)
                      && variableName !in store.rejects;
            store.vars == if ok then old(store.vars)[variableName := old(store.vars)[variableName].(value := PromoteDev(r, now))]
                          else old(store.vars)
  {
    notice := None;
    var status := LookupStatus(env.statuses, r.name, None);
    if status == Some(COMPLETED) {
      if r.name in env.loginFails {
        return;
      }
      if r.name !in env.createdUsers {
        return;
      }
      var user := env.createdUsers[r.name];
      var expiry := if TruthyNumber(r.expiry) then r.expiry.value else DEFAULT_EXPIRY_DAYS;
      var kind := if !Truthy(user.isTargetUserPasswordReset) then CheckEmail else AskAdmin;
      if r.name in env.commentFails {
        return;
      }
      notice := Some(Notice(r.name, user.username, expiry, kind));
      var _ := store.Patch(variableName, PromoteDev(r, now));
    }
  }

  /** `processReviewSandbox` for the variable `variableName`, whose record
      names sandbox `sandboxName`. Returns the users list it activated. */
  method ProcessReviewSandbox(store: VariableStore, variableName: string, sandboxName: string,
                              config: PoolConfig, env: Provisioner, now: int)
    returns (activated: Option<string>)
    requires store.Valid()
    modifies store
    ensures store.Valid() && store.order == old(store.order)
    ensures var o := CiOutcomeOf(sandboxName, config, env);
            activated == (if o.CiPromoted? then o.activated else None)
    ensures var ok := CiOutcomeOf(sandboxName, config, env).CiPromoted? && variableName in old(store.vars)
                      && variableName !in store.rejects;
            store.vars == if ok then old(store.vars)[variableName := old(store.vars)[variableName].(value := PromoteCi(sandboxName, now))]
                          else old(store.vars)
  {
    activated := None;
    var status := LookupStatus(env.statuses, sandboxName, Some("InProgress"));
    if status == Some(COMPLETED) {
      if sandboxName in env.loginFails {
        return;
      }
      var users := config.usersToBeActivated;
      if TruthyString(users) {
        if sandboxName in env.activationFails {
          return;
        }
        activated := Some(ActivationList(users.value, sandboxName));
      }
      var _ := store.Patch(variableName, PromoteCi(sandboxName, now));
    }
  }

  lemma DevOneMore(vars0: map<string, Stored>, done: set<string>, env: Provisioner,
                   rejects: set<string>, now: int, order: seq<string>, v: Variable)
    requires forall n :: n in order ==> n in vars0
    requires v in Snapshot(order, vars0)
    ensures var cur := DevApplied(vars0, done, env, rejects, now);
            v.name in cur && v.value == vars0[v.name].value
            && (if DevChosen(v.name, v.value, env) && v.name !in rejects
                then cur[v.name := cur[v.name].(value := PromoteDev(v.value, now))]
                else cur) == DevApplied(vars0, done + {v.name}, env, rejects, now)
  {
    var i :| 0 <= i < |order| && Snapshot(order, vars0)[i] == v;
  }

  lemma CiOneMore(vars0: map<string, Stored>, done: set<string>, configs: seq<PoolConfig>,
                  env: Provisioner, rejects: set<string>, now: int, order: seq<string>, v: Variable)
    requires forall n :: n in order ==> n in vars0
    requires v in Snapshot(order, vars0)
    ensures var cur := CiApplied(vars0, done, configs, env, rejects, now);
            v.name in cur && v.value == vars0[v.name].value
            && (if CiChosen(v.name, v.value, configs, env) && v.name !in rejects
                then cur[v.name := cur[v.name].(value := PromoteCi(v.value.name, now))]
                else cur) == CiApplied(vars0, done + {v.name}, configs, env, rejects, now)
  {
    var i :| 0 <= i < |order| && Snapshot(order, vars0)[i] == v;
    var cur := CiApplied(vars0, done, configs, env, rejects, now);
    var next := CiApplied(vars0, done + {v.name}, configs, env, rejects, now);
    var chosen := CiChosen(v.name, v.value, configs, env) && v.name !in rejects;
    assert v.name in vars0 && v.value == vars0[v.name].value;
    var stepped := if chosen then cur[v.name := cur[v.name].(value := PromoteCi(v.value.name, now))] else cur;
    forall n | n in vars0 ensures n in stepped && stepped[n] == next[n] {
      if n != v.name {
        assert stepped[n] == cur[n];
      }
    }
    assert stepped.Keys == next.Keys;
  }

  /** The developer loop of the main script. */
  method DevPass(store: VariableStore, env: Provisioner, now: int) returns (notices: seq<Notice>)
    requires store.Valid()
    modifies store
    ensures store.Valid() && store.order == old(store.order)
    ensures store.vars == DevApplied(old(store.vars), old(store.vars).Keys, env, store.rejects, now)
    ensures notices == DevNotices(old(store.Listing()), env)
  {
    ghost var vars0 := store.vars;
    var vs := store.Listing();
    notices := [];
    var i := 0;
    while i < |vs|
      invariant 0 <= i <= |vs|
      invariant store.Valid() && store.order == old(store.order)
      invariant store.vars == DevApplied(vars0, Names(vs[..i]), env, store.rejects, now)
      invariant notices == DevNotices(vs[..i], env)
    {
      var v := vs[i];
      DevOneMore(vars0, Names(vs[..i]), env, store.rejects, now, store.order, v);
      DevNoticesOneMore(vs, i, env);
      NamesOneMore(vs, i);
      if Contains(v.name, "_DEVSBX") && v.value.status == InProgress {
        var notice := ProcessDevSandbox(store, v.name, v.value, env, now);
        if notice.Some? {
          notices := notices + [notice.value];
        }
      }
      i := i + 1;
    }
    assert vs[..i] == vs;
    SnapshotNames(store.order, vars0);
  }

  /** One variable of the CI loop: a `_SBX` variable with a matching pool
      configuration and an `InProgress` record is processed. */
  method InspectCi(store: VariableStore, v: Variable, configs: seq<PoolConfig>, env: Provisioner, now: int)
    requires store.Valid()
    modifies store
    ensures store.Valid() && store.order == old(store.order)
    ensures var ok := CiChosen(v.name, v.value, configs, env) && v.name in old(store.vars)
                      && v.name !in store.rejects;
            store.vars == if ok then old(store.vars)[v.name := old(store.vars)[v.name].(value := PromoteCi(v.value.name, now))]
                          else old(store.vars)
  {
    if Contains(v.name, "_SBX") {
      var config := FindPoolConfig(v.name, configs);
      if config.Some? && v.value.status == InProgress {
        var _ := ProcessReviewSandbox(store, v.name, v.value.name, config.value, env, now);
      }
    }
  }

  /** The CI loop of the main script, over a fresh listing. */
  method CiPass(store: VariableStore, configs: seq<PoolConfig>, env: Provisioner, now: int)
    requires store.Valid()
    modifies store
    ensures store.Valid() && store.order == old(store.order)
    ensures store.vars == CiApplied(old(store.vars), old(store.vars).Keys, configs, env, store.rejects, now)
  {
    ghost var vars0 := store.vars;
    var vs := store.Listing();
    var i := 0;
    while i < |vs|
      invariant 0 <= i <= |vs|
      invariant store.Valid() && store.order == old(store.order)
      invariant store.vars == CiApplied(vars0, Names(vs[..i]), configs, env, store.rejects, now)
    {
      var v := vs[i];
      CiOneMore(vars0, Names(vs[..i]), configs, env, store.rejects, now, store.order, v);
      NamesOneMore(vs, i);
      InspectCi(store, v, configs, env, now);
      i := i + 1;
    }
    assert vs[..i] == vs;
    SnapshotNames(store.order, vars0);
  }

  /** `checkSandboxStatus.js`: the developer pass, then the CI pass. */
  method CheckSandboxStatus(store: VariableStore, configs: seq<PoolConfig>, env: Provisioner, now: int)
    returns (notices: seq<Notice>)
    requires store.Valid()
    modifies store
    ensures store.Valid() && store.order == old(store.order)
    ensures store.vars == WatchResult(old(store.vars), configs, env, store.rejects, now)
    ensures notices == DevNotices(old(store.Listing()), env)
  {
    notices := DevPass(store, env, now);
    CiPass(store, configs, env, now);
  }

  /** The watcher only ever changes an `InProgress` record, and only into a
      promoted developer record or a fresh CI record; each variable keeps
      the instant the store created it. */
  lemma WatchOnlyPromotes(vars: map<string, Stored>, configs: seq<PoolConfig>, env: Provisioner,
                          rejects: set<string>, now: int, n: string)
    requires n in vars
    ensures var after := WatchResult(vars, configs, env, rejects, now);
            n in after && after[n].createdAt == vars[n].createdAt
            && (after[n] == vars[n]
                || (vars[n].value.status == InProgress && n !in rejects
                    && (after[n].value == PromoteDev(vars[n].value, now)
                        || after[n].value == PromoteCi(vars[n].value.name, now))))
  {
  }

  /** On the store a run leaves, the developer pass changes nothing. */
  lemma DevPassIdle(vars: map<string, Stored>, configs: seq<PoolConfig>, env: Provisioner,
                    rejects: set<string>, now: int)
    ensures var once := WatchResult(vars, configs, env, rejects, now);
            DevApplied(once, once.Keys, env, rejects, now) == once
  {
    var once := WatchResult(vars, configs, env, rejects, now);
    var dev1 := DevApplied(once, once.Keys, env, rejects, now);
    forall n | n in once ensures dev1[n] == once[n] {
      WatchOnlyPromotes(vars, configs, env, rejects, now, n);
    }
  }

  /** On the store a run leaves, the CI pass changes nothing. */
  lemma CiPassIdle(vars: map<string, Stored>, configs: seq<PoolConfig>, env: Provisioner,
                   rejects: set<string>, now: int)
    ensures var once := WatchResult(vars, configs, env, rejects, now);
            CiApplied(once, once.Keys, configs, env, rejects, now) == once
  {
    var once := WatchResult(vars, configs, env, rejects, now);
    var ci1 := CiApplied(once, once.Keys, configs, env, rejects, now);
    forall n | n in once ensures ci1[n] == once[n] {
      WatchOnlyPromotes(vars, configs, env, rejects, now, n);
    }
  }

  /** A second run with the same answers changes nothing: promoted records
      are no longer `InProgress`, and the others meet the same answers. */
  lemma WatchIdempotent(vars: map<string, Stored>, configs: seq<PoolConfig>, env: Provisioner,
                        rejects: set<string>, now: int)
    ensures var once := WatchResult(vars, configs, env, rejects, now);
            WatchResult(once, configs, env, rejects, now) == once
  {
    DevPassIdle(vars, configs, env, rejects, now);
    CiPassIdle(vars, configs, env, rejects, now);
  }
}
