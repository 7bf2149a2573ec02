/** The pool provisioner: `count` CI sandboxes are requested at once, each
    under a random nine-digit name, each request settled once by the first
    decisive output of its command, and the names of the requests that
    succeeded are written to `<domain>.json`. */
module Provisioning {
  import opened Js

  newtype byte = x: int | 0 <= x < 256

  const LOCK_HELD := "Lock file is already being held"
  const LIMIT_REACHED := "Attempt to add sandbox of type Developer failed because but you have reached your provisioned limit of 1"

  /** `readUInt32BE(0)` over four bytes. */
  function ReadUInt32BE(b: seq<byte>): (n: nat)
    requires |b| == 4
    ensures n < 0x1_0000_0000
  {
    (b[0] as int) * 0x100_0000 + (b[1] as int) * 0x1_0000 + (b[2] as int) * 0x100 + b[3] as int
  }

  /** `generateName`: four random bytes folded into `[100000000, 999999999]`. */
  function GenerateName(random: seq<byte>): (name: nat)
    requires |random| == 4
  {
    ReadUInt32BE(random) % 900000000 + 100000000
  }

  function Pow10(k: nat): (p: nat)
    ensures p >= 1
  {
    if k == 0 then 1 else 10 * Pow10(k - 1)
  }

  /** A number with `k + 1` digits is written with `k + 1` characters. */
  lemma {:induction false} DecimalLength(n: nat, k: nat)
    requires Pow10(k) <= n < Pow10(k + 1)
    ensures |DecimalString(n)| == k + 1
  {
    if k > 0 {
      var q, r := n / 10, n % 10;
      assert n == 10 * q + r && r < 10;
      assert Pow10(k) == 10 * Pow10(k - 1) && Pow10(k + 1) == 10 * Pow10(k);
      assert Pow10(k - 1) <= q < Pow10(k);
      DecimalLength(q, k - 1);
    }
  }

  /** Every generated name is nine digits long, whatever the bytes. */
  lemma NameHasNineDigits(random: seq<byte>)
    requires |random| == 4
    ensures 100000000 <= GenerateName(random) <= 999999999
    ensures |DecimalString(GenerateName(random))| == 9
  {
    assert Pow10(8) == 100000000 && Pow10(9) == 1000000000;
    DecimalLength(GenerateName(random), 8);
  }

  /** The sandbox definition file the script writes for one request. */
  datatype Definition = Definition(
    sandboxName: nat,
    autoActivate: bool,
    description: string,
    licenseType: Option<string>,
    sourceSandboxName: Option<string>,
    apexClassId: Option<string>
  )

  /** The definition: cloned from `source` unless that is `production`, in
      which case a developer licence is asked for; the Apex class only when
      given and not the string `null`. */
  function DefinitionOf(name: nat, domain: string, source: string, apexClassId: Option<string>): (d: Definition)
    ensures d.sandboxName == name && d.autoActivate
    ensures d.description == "CI Sandboxes Auto Provisioned for " + domain
    ensures source == "production" <==> d.licenseType == Some("DEVELOPER")
    ensures source == "production" <==> d.sourceSandboxName.None?
    ensures d.sourceSandboxName.Some? ==> d.sourceSandboxName.value == source
    ensures d.apexClassId.Some? <==> TruthyString(apexClassId) && apexClassId.value != "null"
    ensures d.apexClassId.Some? ==> d.apexClassId == apexClassId
  {
    Definition(name, true, "CI Sandboxes Auto Provisioned for " + domain,
               if source == "production" then Some("DEVELOPER") else None,
               if source == "production" then None else Some(source),
               if TruthyString(apexClassId) && apexClassId.value != "null" then apexClassId else None)
  }

  /** The arguments of `sf`; `-c <source>` is added only when the definition
      names a (non-empty) source sandbox. */
  function CommandArgs(name: nat, devhub: string, source: string, d: Definition): (args: seq<string>)
    ensures |args| == (if TruthyString(d.sourceSandboxName) then 14 else 12)
    ensures args[..10] == ["org", "create", "sandbox", "--async", "-f", DecimalString(name) + ".json",
                           "-a", DecimalString(name), "-o", devhub]
    ensures TruthyString(d.sourceSandboxName) ==> args[10] == "-c" && args[11] == source
    ensures args[|args| - 2..] == ["--no-prompt", "--json"]
  {
    var id := DecimalString(name);
    ["org", "create", "sandbox", "--async", "-f", id + ".json", "-a", id, "-o", devhub]
    + (if TruthyString(d.sourceSandboxName) then ["-c", source] else [])
    + ["--no-prompt", "--json"]
  }

  /** A source other than `production` is cloned from; `production` never is. */
  lemma CloneExactlyFromSource(name: nat, domain: string, devhub: string, source: string, apexClassId: Option<string>)
    requires source != ""
    ensures var args := CommandArgs(name, devhub, source, DefinitionOf(name, domain, source, apexClassId));
            (|args| == 14 <==> source != "production")
            && (source != "production" ==> args[10..12] == ["-c", source])
  {
  }

  /** A chunk of output from the command. The script looks for the lock
      message under a misspelt property, `messsage`, which a stream chunk
      never has; `messsage` stands for that property. */
  datatype Chunk = Chunk(text: string, messsage: Option<string>)

  /** What the command emits. A `close` code is absent when the process was
      ended by a signal. */
  datatype Event =
    | Stdout(chunk: Chunk)
    | Stderr(chunk: Chunk)
    | Close(code: Option<int>)

  datatype Settlement = Resolved(name: nat) | Rejected(reason: string)

  function Failure(name: nat): string
  {
    "Failed to create sandbox: " + DecimalString(name)
  }

  predicate LockHeld(c: Chunk)
  {
    c.messsage.Some? && Contains(c.messsage.value, LOCK_HELD)
  }

  /** How one event would settle the request, if it is decisive. */
  function Decision(e: Event, name: nat): (s: Option<Settlement>)
    ensures e.Stderr? ==> s.Some?
    ensures e.Close? ==> s == Some(if e.code == Some(0) || e.code == Some(68) then Resolved(name) else Rejected(Failure(name)))
    ensures s.Some? && s.value.Resolved? ==> s.value.name == name
  {
    match e
    case Stdout(c) =>
      if LockHeld(c) then Some(Resolved(name))
      else if Contains(c.text, LIMIT_REACHED) then Some(Rejected(Failure(name)))
      else None
    case Stderr(c) =>
      if LockHeld(c) then Some(Resolved(name)) else Some(Rejected(Failure(name)))
    case Close(code) =>
      if code == Some(0) || code == Some(68) then Some(Resolved(name)) else Some(Rejected(Failure(name)))
  }

  /** Real output chunks lack `messsage`: then anything on the error stream
      rejects, and only a clean exit (0 or 68) resolves. */
  lemma LockMessageIgnored(e: Event, name: nat)
    requires !e.Close? ==> e.chunk.messsage.None?
    ensures Decision(e, name) == Some(Resolved(name)) <==> e == Close(Some(0)) || e == Close(Some(68))
  {
  }

  /** The settlement of a request after the events `es`: the decision of
      the first decisive event. */
  function Settle(es: seq<Event>, name: nat): (s: Option<Settlement>)
    ensures s.Some? ==> exists k :: 0 <= k < |es| && Decision(es[k], name) == s
                                    && forall j :: 0 <= j < k ==> Decision(es[j], name).None?
    ensures s.None? ==> forall j :: 0 <= j < |es| ==> Decision(es[j], name).None?
  {
    if es == [] then None
    else
      var before := Settle(es[..|es| - 1], name);
      if before.Some? then
        assert forall j :: 0 <= j < |es| - 1 ==> es[..|es| - 1][j] == es[j];
        before
      else
        assert forall j :: 0 <= j < |es| - 1 ==> es[..|es| - 1][j] == es[j];
        Decision(es[|es| - 1], name)
  }

  /** The first decisive event wins: later events change nothing. */
  lemma {:induction false} FirstWins(es: seq<Event>, more: seq<Event>, name: nat)
    requires Settle(es, name).Some?
    ensures Settle(es + more, name) == Settle(es, name)
    decreases |more|
  {
    if more == [] {
      assert es + more == es;
    } else {
      var init := more[..|more| - 1];
      FirstWins(es, init, name);
      assert (es + more)[..|es + more| - 1] == es + init;
    }
  }

  /** A command that closes has settled its request. */
  lemma ClosedIsSettled(es: seq<Event>, name: nat)
    requires exists k :: 0 <= k < |es| && es[k].Close?
    ensures Settle(es, name).Some?
  {
  }

  /** `createPromiseHandler`: a promise that takes the first of its
      resolutions and rejections and ignores the rest. */
  class OnceHandler {
    var called: bool
    var outcome: Option<Settlement>

    ghost predicate Valid()
      reads this
    {
      called <==> outcome.Some?
    }

    constructor()
      ensures Valid() && outcome.None?
    {
      called := false;
      outcome := None;
    }

    method ResolveOnce(name: nat)
      requires Valid()
      modifies this
      ensures Valid()
      ensures outcome == if old(called) then old(outcome) else Some(Resolved(name))
    {
      if !called {
        called := true;
        outcome := Some(Resolved(name));
      }
    }

    method RejectOnce(reason: string)
      requires Valid()
      modifies this
      ensures Valid()
      ensures outcome == if old(called) then old(outcome) else Some(Rejected(reason))
    {
      if !called {
        called := true;
        outcome := Some(Rejected(reason));
      }
    }
  }

  /** The three listeners of one request: one event handed to the handler. */
  method Dispatch(h: OnceHandler, e: Event, name: nat)
    requires h.Valid()
    modifies h
    ensures h.Valid()
    ensures h.outcome == if old(h.outcome).Some? then old(h.outcome) else Decision(e, name)
  {
    match e {
      case Stdout(c) =>
        if LockHeld(c) {
          h.ResolveOnce(name);
        } else if Contains(c.text, LIMIT_REACHED) {
          h.RejectOnce(Failure(name));
        }
      case Stderr(c) =>
        if LockHeld(c) {
          h.ResolveOnce(name);
        } else {
          h.RejectOnce(Failure(name));
        }
      case Close(code) =>
        if code == Some(0) || code == Some(68) {
          h.ResolveOnce(name);
        } else {
          h.RejectOnce(Failure(name));
        }
    }
  }

  /** `createSandbox`: the definition and the command for one request, and
      how the events its command emits settle it (`None`: still pending). */
  method CreateSandbox(name: nat, domain: string, source: string, devhub: string,
                       apexClassId: Option<string>, events: seq<Event>)
    returns (d: Definition, args: seq<string>, settled: Option<Settlement>)
    ensures d == DefinitionOf(name, domain, source, apexClassId)
    ensures args == CommandArgs(name, devhub, source, d)
    ensures settled == Settle(events, name)
  {
    var h := new OnceHandler();
    d := DefinitionOf(name, domain, source, apexClassId);
    args := CommandArgs(name, devhub, source, d);
    var i := 0;
    while i < |events|
      invariant 0 <= i <= |events|
      invariant h.Valid() && h.outcome == Settle(events[..i], name)
    {
      assert events[..i + 1][..i] == events[..i];
      Dispatch(h, events[i], name);
      i := i + 1;
    }
    assert events[..i] == events;
    settled := h.outcome;
  }

  /** The names of the fulfilled requests, in request order. */
  function Fulfilled(ss: seq<Option<Settlement>>): seq<nat>
  {
    if ss == [] then []
    else
      var s := ss[|ss| - 1];
      Fulfilled(ss[..|ss| - 1]) + if s.Some? && s.value.Resolved? then [s.value.name] else []
  }

  /** A name is written exactly when its request was fulfilled. */
  lemma {:induction false} FulfilledExactly(ss: seq<Option<Settlement>>, n: nat)
    ensures n in Fulfilled(ss) <==> exists i :: 0 <= i < |ss| && ss[i] == Some(Resolved(n))
  {
    if ss != [] {
      var init := ss[..|ss| - 1];
      FulfilledExactly(init, n);
      assert forall i :: 0 <= i < |init| ==> init[i] == ss[i];
    }
  }

  /** How `main` ends. */
  datatype MainOutcome =
    | NoSource                                 // `argv[4]` missing or empty: throws
    | Pending                                  // a request never settled: nothing written
    | Written(file: string, names: seq<nat>)   // the fulfilled names, as JSON

  /** The settlements of the `count` requests. */
  function Settlements(count: nat, random: seq<seq<byte>>, events: seq<seq<Event>>): (ss: seq<Option<Settlement>>)
    requires count <= |random| && count <= |events|
    requires forall i :: 0 <= i < count ==> |random[i]| == 4
    ensures |ss| == count
    ensures forall i :: 0 <= i < count ==> ss[i] == Settle(events[i], GenerateName(random[i]))
  {
    seq(count, i requires 0 <= i < count => Settle(events[i], GenerateName(random[i])))
  }

  /** The loop of `main`: one request per name, in order. */
  method RequestAll(n: nat, domain: string, source: string, devhub: string,
                    apexClassId: Option<string>, random: seq<seq<byte>>, events: seq<seq<Event>>)
    returns (settlements: seq<Option<Settlement>>)
    requires n <= |random| && n <= |events|
    requires forall i :: 0 <= i < n ==> |random[i]| == 4
    ensures settlements == Settlements(n, random, events)
  {
    settlements := [];
    var i := 0;
    while i < n
      invariant 0 <= i <= n
      invariant settlements == Settlements(n, random, events)[..i]
    {
      var name := GenerateName(random[i]);
      var _, _, settled := CreateSandbox(name, domain, source, devhub, apexClassId, events[i]);
      settlements := settlements + [settled];
      i := i + 1;
    }
  }

  /** `Promise.allSettled` and the filter on fulfilled results. */
  method AllSettled(settlements: seq<Option<Settlement>>) returns (pending: bool, names: seq<nat>)
    ensures pending <==> exists k :: 0 <= k < |settlements| && settlements[k].None?
    ensures names == Fulfilled(settlements)
  {
    pending := false;
    names := [];
    var j := 0;
    while j < |settlements|
      invariant 0 <= j <= |settlements|
      invariant pending <==> exists k :: 0 <= k < j && settlements[k].None?
      invariant names == Fulfilled(settlements[..j])
    {
      assert settlements[..j + 1][..j] == settlements[..j];
      var s := settlements[j];
      if s.None? {
        pending := true;
      } else if s.value.Resolved? {
        names := names + [s.value.name];
      }
      j := j + 1;
    }
    assert settlements[..j] == settlements;
  }

  /** `main`. The `count` argument is given as the number it compares as;
      `random[i]` are the bytes of the `i`th name and `events[i]` what the
      `i`th command emits. */
  method CreateSandboxes(domain: string, count: int, source: Option<string>, devhub: string,
                         apexClassId: Option<string>, random: seq<seq<byte>>, events: seq<seq<Event>>)
    returns (outcome: MainOutcome)
    requires count <= |random| && count <= |events|
    requires forall i :: 0 <= i < count ==> |random[i]| == 4
    ensures var n := if count < 0 then 0 else count;
            var ss := Settlements(n, random, events);
            outcome == if !TruthyString(source) then NoSource
                       else if exists i :: 0 <= i < n && ss[i].None? then Pending
                       else Written(domain + ".json", Fulfilled(ss))
  {
    if !TruthyString(source) {
      return NoSource;
    }
    var n := if count < 0 then 0 else count;
    var settlements := RequestAll(n, domain, source.value, devhub, apexClassId, random, events);
    var pending, names := AllSettled(settlements);
    if pending {
      return Pending;
    }
    return Written(domain + ".json", names);
  }

  /** Every name in the file is a nine-digit name of a request that
      succeeded. */
  lemma WrittenNames(count: nat, random: seq<seq<byte>>, events: seq<seq<Event>>, n: nat)
    requires count <= |random| && count <= |events|
    requires forall i :: 0 <= i < count ==> |random[i]| == 4
    requires n in Fulfilled(Settlements(count, random, events))
    ensures exists i :: 0 <= i < count && n == GenerateName(random[i])
                        && Settle(events[i], n) == Some(Resolved(n))
    ensures |DecimalString(n)| == 9
  {
    var ss := Settlements(count, random, events);
    FulfilledExactly(ss, n);
    var i :| 0 <= i < |ss| && ss[i] == Some(Resolved(n));
    NameHasNineDigits(random[i]);
  }
}
