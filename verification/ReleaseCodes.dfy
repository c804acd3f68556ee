/** Claiming a release code and publishing with it: the claim of the admin store
    against the gate of the publish run (cmd/relkit-agent/releasecode.go). */
module ReleaseCodes {
  import opened Wrappers
  import opened Documents
  import opened Retention
  import opened Backends
  import opened Publishing
  import PublishRun
  import AdminState

  /** The agent's claim handler: the floor is what the backends publish now. */
  ghost predicate ClaimedAbove(
    s: AdminState.State, op: AdminState.Op, id: string, floor: int,
    stores: seq<Store>, channels: seq<string>, trusts: string -> bool, claimed: int)
  {
    && AdminState.Valid(s) && op == AdminState.Commit(AdminState.AllocateReleaseCode(id, floor), true)
    && AdminState.Claimed(s, op, id) == Some(claimed)
    && forall c, code | 0 <= c < |channels| && CodeOn(stores, channels[c], trusts, code) :: code <= floor
  }

  /** A claimed code passes the gate later on exactly when the channel has gained
      no release of that code or a higher one since the claim. */
  lemma ClaimedCodePassesUnlessOvertaken(
    s: AdminState.State, op: AdminState.Op, id: string, floor: int, stores: seq<Store>, channels: seq<string>,
    trusts: string -> bool, claimed: int, c: nat, atClaim: Index, later: Index)
    requires ClaimedAbove(s, op, id, floor, stores, channels, trusts, claimed)
    requires c < |channels| && IsCurrent(stores, channels[c], trusts, atClaim)
    ensures PublishRun.GateOpen(later, claimed, false) <==>
      !exists n :: n in later.versions && n !in atClaim.versions && claimed <= n.code
  {
    AdminState.ClaimsExceedTheirFloor(s, op, id);
    forall n | n in atClaim.versions
      ensures n.code < claimed
    {
      var i :| 0 <= i < |atClaim.versions| && atClaim.versions[i] == n;
      assert CodeOn(stores, channels[c], trusts, n.code);
    }
  }

  /** Releases that each use their own claim of one registration never share a
      code, on one channel or across channels. */
  lemma ClaimedReleasesAreDistinct(
    s: AdminState.State, ops: seq<AdminState.Op>, id: string, releases: seq<VersionNode>, claim: nat -> nat)
    requires AdminState.Valid(s) && AdminState.PreparedRun(s, ops)
    requires AdminState.ProductAt(s.doc.products, id) >= 0
    requires forall k | 0 <= k < |ops| :: AdminState.KeepsProduct(ops[k], id)
    requires forall r: nat | r < |releases| ::
      claim(r) < |AdminState.Claims(s, ops, id)| && releases[r].code == AdminState.Claims(s, ops, id)[claim(r)]
    requires forall q: nat, r: nat | q < r < |releases| :: claim(q) != claim(r)
    ensures DistinctCodes(releases)
  {
    AdminState.CodesAreNeverReissued(s, ops, id);
    forall q: nat, r: nat | q < r < |releases|
      ensures releases[q].code != releases[r].code
    {
      assert claim(q) < claim(r) || claim(r) < claim(q);
    }
  }
}
