/** How the scripts hand a CI sandbox record to one another: the watcher
    and the release handler put records where the allocator finds them, the
    allocator binds them to an issue, and the sweep and the release handler
    leave them where the reclaimer finds them. */
module Lifecycle {
  import opened Js
  import opened Store
  import Allocator
  import Watcher
  import Expiry
  import Release
  import Reclaimer

  /** A CI sandbox the watcher promotes is free for the allocator to claim,
      provided it has a name. */
  lemma PromotedIsClaimable(sandboxName: string, now: int)
    ensures Allocator.Meets(Allocator.Claimable, Watcher.PromoteCi(sandboxName, now))
  {
  }

  /** A claimed record is bound to its issue and active, so the allocator
      meets it again as the issue's own sandbox and does not claim it for
      anyone else. */
  lemma ClaimedIsBound(r: Record, issue: string, now: int, other: string)
    requires Allocator.Meets(Allocator.Claimable, r)
    ensures var claimed := Allocator.Bound(r.(assignedAt := Some(now)), issue);
            Allocator.Meets(Allocator.BoundActive(issue), claimed)
            && !Allocator.Meets(Allocator.Claimable, claimed)
            && (other != issue ==> !Allocator.Meets(Allocator.BoundActive(other), claimed))
  {
  }

  /** Returned to the pool, a claimed sandbox is free again and bound to no
      issue. */
  lemma ReturnedIsClaimable(r: Record, issue: string, now: int, later: int)
    requires Allocator.Meets(Allocator.Claimable, r)
    ensures var claimed := Allocator.Bound(r.(assignedAt := Some(now)), issue);
            var back := Release.Released(claimed, "true", later);
            Allocator.Meets(Allocator.Claimable, back)
            && forall i :: !Allocator.Meets(Allocator.BoundActive(i), back)
  {
  }

  /** Expired on release, a claimed sandbox stays bound to its issue: the
      issue's next allocation may fall back to it, the sweep leaves it
      alone, and the reclaimer takes it once the deprovisioner confirms. */
  lemma ExpiredOnRelease(v: Variable, r: Record, issue: string, now: int, later: int,
                         deprovision: string -> Reclaimer.DeprovisionOutput)
    requires Allocator.Meets(Allocator.Claimable, r) && r.name != ""
    requires v.value == Release.Released(Allocator.Bound(r.(assignedAt := Some(now)), issue), "false", later)
    ensures Allocator.Meets(Allocator.BoundExpired(issue), v.value)
    ensures !Allocator.Meets(Allocator.Claimable, v.value)
    ensures !Expiry.Selected(v, later)
    ensures Reclaimer.Reclaimed(v, deprovision)
            <==> Reclaimer.Listed(v.name) && Reclaimer.DeprovisionSucceeded(deprovision(r.name))
  {
  }

  /** A record the sweep demotes is one the reclaimer takes once the
      deprovisioner confirms, and one the allocator no longer hands out as
      free or as bound and active. */
  lemma DemotedIsReclaimable(v: Variable, d: Variable, issue: string,
                             deprovision: string -> Reclaimer.DeprovisionOutput)
    requires d.name == v.name && d.value == Expiry.Demote(v.value)
    ensures Reclaimer.Reclaimed(d, deprovision)
            <==> Reclaimer.Listed(v.name) && Reclaimer.DeprovisionSucceeded(deprovision(v.value.name))
    ensures !Allocator.Meets(Allocator.Claimable, d.value)
    ensures !Allocator.Meets(Allocator.BoundActive(issue), d.value)
  {
  }
}
