/** The status reporter: every sandbox variable is typed by its name's
    suffix (`_DEVSBX` developer, `_SBX` CI), given the pool domain its name
    starts with and its timestamps in a readable form, and placed in one of
    two lists, in listing order. */
module Reporter {
  import opened Js
  import opened Store

  /** `toISOString` throws a `RangeError` for an instant further than this
      many milliseconds from the epoch. */
  const MAX_TIME_MS := 8_640_000_000_000_000

  datatype Kind = Developer | CI

  /** A timestamp as the report shows it. */
  datatype Stamp =
    | IsoOf(ms: int)      // `new Date(ms).toISOString()`
    | AsListed(ms: int)   // the variable's own `created_at`, as the store lists it
    | Millis(ms: int)     // a plain number of milliseconds

  /** An entry of the report: the record and the fields the reporter adds. */
  datatype Entry = Entry(
    variable: string,
    record: Record,
    requestedAt: Stamp,
    assignedAt: Option<Stamp>,
    createdAt: Option<Stamp>,
    domain: string,
    kind: Kind
  )

  predicate ValidTime(ms: int)
  {
    -MAX_TIME_MS <= ms <= MAX_TIME_MS
  }

  /** The type a name's suffix gives it, if any. */
  function KindOf(name: string): (k: Option<Kind>)
    ensures k == Some(Developer) <==> EndsWith(name, "_DEVSBX")
    ensures k == Some(CI) <==> EndsWith(name, "_SBX") && !EndsWith(name, "_DEVSBX")
  {
    if EndsWith(name, "_DEVSBX") then Some(Developer)
    else if EndsWith(name, "_SBX") then Some(CI)
    else None
  }

  /** The name split at `_`, without its last three parts, joined again. */
  function Domain(name: string): string
  {
    var parts := Split(name, '_');
    Join(parts[..if |parts| >= 3 then |parts| - 3 else 0], '_')
  }

  /** The domain is where the name starts. */
  lemma DomainIsPrefix(name: string)
    ensures StartsWith(name, Domain(name))
  {
    var parts := Split(name, '_');
    JoinSplit(name, '_');
    JoinPrefix(parts, if |parts| >= 3 then |parts| - 3 else 0, '_');
  }

  /** For a CI variable named `DOMAIN_BRANCH_NAME_SBX` whose branch and
      sandbox name hold no underscore, the domain is `DOMAIN`, underscores
      and all. */
  lemma DomainOfPoolKey(domain: string, branch: string, name: string)
    requires '_' !in branch && '_' !in name
    ensures Domain(domain + "_" + branch + "_" + name + "_SBX") == domain
  {
    var key := domain + "_" + branch + "_" + name + "_SBX";
    var rest := branch + "_" + name + "_SBX";
    PoolKeyTail(branch, name);
    assert key == domain + ['_'] + rest;
    SplitConcat(domain, rest, '_');
    var parts := Split(key, '_');
    assert parts == Split(domain, '_') + [branch, name, "SBX"];
    assert parts[..|parts| - 3] == Split(domain, '_');
    JoinSplit(domain, '_');
  }

  /** The part of a pool key after the domain splits into the branch, the
      sandbox name and `SBX`. */
  lemma PoolKeyTail(branch: string, name: string)
    requires '_' !in branch && '_' !in name
    ensures Split(branch + "_" + name + "_SBX", '_') == [branch, name, "SBX"]
  {
    SplitConcat(branch + "_" + name, "SBX", '_');
    SplitConcat(branch, name, '_');
    SplitWhole(branch, '_');
    SplitWhole(name, '_');
    SplitWhole("SBX", '_');
    assert branch + "_" + name + "_SBX" == (branch + ['_'] + name) + ['_'] + "SBX";
    assert branch + "_" + name == branch + ['_'] + name;
  }

  /** A variable the loop keeps: a non-blank name with a known suffix. */
  predicate Kept(v: Variable)
  {
    !Blank(v.name) && KindOf(v.name).Some?
  }

  /** A kept CI variable whose `assignedAt` cannot be shown: the reporter
      throws on it and writes nothing. */
  predicate Breaks(v: Variable)
  {
    Kept(v) && KindOf(v.name) == Some(CI) && TruthyNumber(v.value.assignedAt)
    && !ValidTime(v.value.assignedAt.value)
  }

  /** The report entry of a kept variable that does not break the report. */
  function EntryOf(v: Variable, kind: Kind): (e: Entry)
    ensures e.requestedAt == AsListed(v.createdAt) && e.domain == Domain(v.name) && e.kind == kind
    ensures e.assignedAt.Some? <==> kind == CI && TruthyNumber(v.value.assignedAt)
    ensures e.createdAt.None? <==> kind == CI && !TruthyNumber(v.value.createdAt)
    ensures TruthyNumber(v.value.createdAt) ==>
              e.createdAt == Some(if ValidTime(v.value.createdAt.value) then IsoOf(v.value.createdAt.value)
                                  else Millis(v.createdAt))
    ensures kind == Developer && !TruthyNumber(v.value.createdAt) ==> e.createdAt == Some(AsListed(v.createdAt))
    ensures e.assignedAt.Some? ==> e.assignedAt == Some(IsoOf(v.value.assignedAt.value))
    ensures e.record == v.value && e.variable == v.name
  {
    var r := v.value;
    var shownAssigned: Option<Stamp> := (if kind == CI && TruthyNumber(r.assignedAt) then Some(IsoOf(r.assignedAt.value)) else None);
    var shownCreated: Option<Stamp> :=
      (if TruthyNumber(r.createdAt) then
         Some(if ValidTime(r.createdAt.value) then IsoOf(r.createdAt.value) else Millis(v.createdAt))
       else if kind == Developer then Some(AsListed(v.createdAt))
       else None);
    assert kind == Developer ==> shownCreated.Some?;
    Entry(v.name, r, AsListed(v.createdAt), shownAssigned, shownCreated, Domain(v.name), kind)
  }

  /** The entries of one kind, in listing order. */
  function Entries(vs: seq<Variable>, kind: Kind): seq<Entry>
  {
    if vs == [] then []
    else
      var v := vs[|vs| - 1];
      var init := Entries(vs[..|vs| - 1], kind);
      if Kept(v) && KindOf(v.name) == Some(kind) then init + [EntryOf(v, kind)] else init
  }

  lemma EntriesOneMore(vs: seq<Variable>, i: nat, kind: Kind)
    requires i < |vs|
    ensures Entries(vs[..i + 1], kind)
            == if Kept(vs[i]) && KindOf(vs[i].name) == Some(kind) then Entries(vs[..i], kind) + [EntryOf(vs[i], kind)]
               else Entries(vs[..i], kind)
  {
    assert vs[..i + 1][..i] == vs[..i];
  }

  /** How many variables the loop keeps. */
  function KeptCount(vs: seq<Variable>): nat
  {
    if vs == [] then 0 else KeptCount(vs[..|vs| - 1]) + if Kept(vs[|vs| - 1]) then 1 else 0
  }

  /** Every kept variable lands in exactly one of the two lists, and every
      entry carries the type of its list. */
  lemma {:induction false} Partition(vs: seq<Variable>)
    ensures |Entries(vs, Developer)| + |Entries(vs, CI)| == KeptCount(vs)
    ensures forall e :: e in Entries(vs, Developer) ==> e.kind == Developer
    ensures forall e :: e in Entries(vs, CI) ==> e.kind == CI
  {
    if vs != [] {
      Partition(vs[..|vs| - 1]);
    }
  }

  /** How the script ends. */
  datatype Outcome =
    | NoVariables                             // the listing is empty: exit 1
    | Failed                                  // an `assignedAt` could not be shown: nothing written
    | Report(dev: seq<Entry>, ci: seq<Entry>)  // the two files

  /** The body of the loop for one kept variable of the given type: the
      `assignedAt` of a CI record is shown first and may throw; otherwise
      the entry is built. */
  method Describe(v: Variable, kind: Kind) returns (thrown: bool, entry: Entry)
    ensures thrown <==> kind == CI && TruthyNumber(v.value.assignedAt) && !ValidTime(v.value.assignedAt.value)
    ensures !thrown ==> entry == EntryOf(v, kind)
  {
    var r := v.value;
    var shownAssigned: Option<Stamp> := None;
    if kind != Developer {
      if TruthyNumber(r.assignedAt) {
        if !ValidTime(r.assignedAt.value) {
          return true, Entry(v.name, r, AsListed(v.createdAt), None, None, "", kind);
        }
        shownAssigned := Some(IsoOf(r.assignedAt.value));
      }
    }
    var shownCreated: Option<Stamp> := None;
    if TruthyNumber(r.createdAt) {
      if ValidTime(r.createdAt.value) {
        shownCreated := Some(IsoOf(r.createdAt.value));
      } else {
        shownCreated := Some(Millis(v.createdAt));
      }
    } else if kind == Developer {
      shownCreated := Some(AsListed(v.createdAt));
    }
    return false, Entry(v.name, r, AsListed(v.createdAt), shownAssigned, shownCreated, Domain(v.name), kind);
  }

  /** One variable of the loop: blank and untyped names are skipped, a
      kept one is described and appended to the list of its type. */
  method Visit(v: Variable, dev: seq<Entry>, ci: seq<Entry>)
    returns (thrown: bool, dev': seq<Entry>, ci': seq<Entry>)
    ensures thrown <==> Breaks(v)
    ensures !thrown ==>
              dev' == (if Kept(v) && KindOf(v.name) == Some(Developer) then dev + [EntryOf(v, Developer)] else dev)
              && ci' == (if Kept(v) && KindOf(v.name) == Some(CI) then ci + [EntryOf(v, CI)] else ci)
  {
    thrown, dev', ci' := false, dev, ci;
    TrimBlank(v.name);
    if Trim(v.name) != "" {
      var kind := KindOf(v.name);
      if kind.Some? {
        assert Kept(v) && KindOf(v.name) == Some(kind.value);
        var entry;
        thrown, entry := Describe(v, kind.value);
        if !thrown {
          if kind.value == Developer {
            dev' := dev + [entry];
          } else {
            ci' := ci + [entry];
          }
        }
      } else {
        assert !Kept(v);
      }
    } else {
      assert !Kept(v);
    }
  }

  /** `Visit` on the `i`-th variable, with the loop's account of the two
      lists. */
  method VisitAt(vs: seq<Variable>, i: nat, dev: seq<Entry>, ci: seq<Entry>)
    returns (thrown: bool, dev': seq<Entry>, ci': seq<Entry>)
    requires i < |vs| && dev == Entries(vs[..i], Developer) && ci == Entries(vs[..i], CI)
    ensures thrown <==> Breaks(vs[i])
    ensures !thrown ==> dev' == Entries(vs[..i + 1], Developer) && ci' == Entries(vs[..i + 1], CI)
  {
    EntriesOneMore(vs, i, Developer);
    EntriesOneMore(vs, i, CI);
    thrown, dev', ci' := Visit(vs[i], dev, ci);
  }

  /** The loop of `getSandboxStatus` over a listing. It stops at `stop`:
      the end of the listing, or the variable that threw. */
  method Collect(vs: seq<Variable>) returns (stop: nat, thrown: bool, dev: seq<Entry>, ci: seq<Entry>)
    ensures stop <= |vs| && (thrown <==> stop < |vs|)
    ensures thrown ==> Breaks(vs[stop])
    ensures forall j :: 0 <= j < stop ==> !Breaks(vs[j])
    ensures dev == Entries(vs[..stop], Developer) && ci == Entries(vs[..stop], CI)
  {
    thrown := false;
    dev, ci := [], [];
    var i := 0;
    while i < |vs|
      invariant 0 <= i <= |vs|
      invariant forall j :: 0 <= j < i ==> !Breaks(vs[j])
      invariant dev == Entries(vs[..i], Developer) && ci == Entries(vs[..i], CI)
      invariant !thrown
    {
      var failed, dev', ci' := VisitAt(vs, i, dev, ci);
      if failed {
        return i, true, dev, ci;
      }
      dev, ci := dev', ci';
      i := i + 1;
    }
    stop := i;
  }

  /** `getSandboxStatus` and the writing of its two lists, over the store's
      listing. */
  method GetSandboxStatus(store: VariableStore) returns (outcome: Outcome)
    requires store.Valid()
    ensures var vs := store.Listing();
            outcome == if vs == [] then NoVariables
                       else if exists j :: 0 <= j < |vs| && Breaks(vs[j]) then Failed
                       else Report(Entries(vs, Developer), Entries(vs, CI))
  {
    var vs := store.Listing();
    if |vs| == 0 {
      return NoVariables;
    }
    var stop, thrown, dev, ci := Collect(vs);
    if thrown {
      return Failed;
    }
    assert vs[..stop] == vs;
    return Report(dev, ci);
  }
}
