/** One sweep of pairwise syncs over the online peers of a cluster. */
module Sweeps {
  import opened Ops
  import opened Rebuild
  import opened Peers
  import opened AntiEntropy
  import opened Clusters
  import opened ClusterLaws

  ghost predicate Pair(c: Cluster, online: seq<bool>, i: nat, j: nat) {
    i < j < |c.peers| == |online| && online[i] && online[j]
  }

  type Meeting = (Cluster, nat, nat) -> Cluster

  /** The loop body: two online peers sync. */
  ghost function Meet(cfg: Config, online: seq<bool>): Meeting {
    (c: Cluster, i: nat, j: nat) => if Pair(c, online, i, j) then StepOf(cfg, c, SyncWith(i, j)) else c
  }

  /** The inner loop: peer `i` meets the peers after it and before `j`. */
  ghost function RowOf(meet: Meeting, c: Cluster, i: nat, j: nat): Cluster {
    if j <= i + 1 then c else meet(RowOf(meet, c, i, j - 1), i, j - 1)
  }

  /** The outer loop up to `i`, over `n` peers. */
  ghost function SweepOf(meet: Meeting, c: Cluster, n: nat, i: nat): Cluster {
    if i == 0 then c else RowOf(meet, SweepOf(meet, c, n, i - 1), i - 1, n)
  }

  ghost function Sweep(cfg: Config, c: Cluster, online: seq<bool>): Cluster {
    SweepOf(Meet(cfg, online), c, |c.peers|, |c.peers|)
  }

  // ----- The rule for the loop nest -----

  lemma {:induction false} RowRule(meet: Meeting, P: (Cluster, nat, nat) -> bool, c: Cluster, i: nat, j: nat)
    requires i < j && P(c, i, i + 1)
    requires forall x, b: nat :: i < b < j && P(x, i, b) ==> P(meet(x, i, b), i, b + 1)
    ensures P(RowOf(meet, c, i, j), i, j)
  {
    if j > i + 1 { RowRule(meet, P, c, i, j - 1); }
  }

  lemma {:induction false} SweepRule(meet: Meeting, P: (Cluster, nat, nat) -> bool, c: Cluster, n: nat, i: nat)
    requires i <= n && P(c, 0, 1)
    requires forall x, a: nat, b: nat :: a < b < n && P(x, a, b) ==> P(meet(x, a, b), a, b + 1)
    requires forall x, a: nat :: a < n && P(x, a, n) ==> P(x, a + 1, a + 2)
    ensures P(SweepOf(meet, c, n, i), i, i + 1)
  {
    if i > 0 {
      SweepRule(meet, P, c, n, i - 1);
      RowRule(meet, P, SweepOf(meet, c, n, i - 1), i - 1, n);
    }
  }

  // ----- What has happened by the time the loops stand at (i, j) -----

  ghost function Union(c: Cluster, online: seq<bool>): set<Op> {
    set k, o | 0 <= k < |c.peers| && k < |online| && online[k] && o in c.peers[k].log :: o
  }

  /** The pair (a, b) comes before (i, j) in the loop order. */
  ghost predicate Met(i: nat, j: nat, a: nat, b: nat) {
    a < i || (a == i && b < j)
  }

  ghost predicate Rebuilt(cfg: Config, p: Peer) {
    p.state == RebuildOf(cfg, p.log)
  }

  /** Online logs lie between what they were and the union; offline peers are untouched. */
  ghost predicate Bounded(c0: Cluster, c: Cluster, online: seq<bool>) {
    && |c.peers| == |c0.peers| == |online|
    && (forall k :: 0 <= k < |online| && !online[k] ==> c.peers[k] == c0.peers[k])
    && (forall k :: 0 <= k < |online| && online[k] ==> OpsAt(c0, k) <= OpsAt(c, k) <= Union(c0, online))
  }

  /** Peers that have met hold each other's ops and rebuilt states. */
  ghost predicate HaveMet(cfg: Config, c0: Cluster, c: Cluster, a: nat, b: nat) {
    && a < |c.peers| == |c0.peers| && b < |c.peers|
    && OpsAt(c0, a) <= OpsAt(c, b) && OpsAt(c0, b) <= OpsAt(c, a)
    && Rebuilt(cfg, c.peers[a]) && Rebuilt(cfg, c.peers[b])
  }

  ghost predicate Progress(cfg: Config, c0: Cluster, c: Cluster, online: seq<bool>, i: nat, j: nat) {
    && Inv(cfg, c) && Bounded(c0, c, online)
    && (forall a: nat, b: nat :: Pair(c, online, a, b) && Met(i, j, a, b) ==> HaveMet(cfg, c0, c, a, b))
  }

  /** What one sync of `i` and `j` does, as far as a sweep is concerned. */
  ghost predicate Synced(cfg: Config, c: Cluster, c': Cluster, i: nat, j: nat) {
    && i < |c.peers| == |c'.peers| && j < |c.peers|
    && OpsAt(c', i) == OpsAt(c, i) + OpsAt(c, j) == OpsAt(c', j)
    && Rebuilt(cfg, c'.peers[i]) && Rebuilt(cfg, c'.peers[j])
    && (forall k :: 0 <= k < |c.peers| && k != i && k != j ==> c'.peers[k] == c.peers[k])
  }

  lemma SyncIsSynced(cfg: Config, c: Cluster, i: nat, j: nat)
    requires Inv(cfg, c) && i < |c.peers| && j < |c.peers| && i != j
    ensures Synced(cfg, c, StepOf(cfg, c, SyncWith(i, j)), i, j) && Inv(cfg, StepOf(cfg, c, SyncWith(i, j)))
  {
    SyncUnites(cfg, c, i, j);
    SyncKeeps(cfg, c, i, j);
  }

  lemma SyncedBounds(cfg: Config, c0: Cluster, c: Cluster, c': Cluster, online: seq<bool>, i: nat, j: nat)
    requires Bounded(c0, c, online) && Pair(c, online, i, j) && Synced(cfg, c, c', i, j)
    ensures Bounded(c0, c', online)
  {
    forall k | 0 <= k < |online| && online[k] ensures OpsAt(c0, k) <= OpsAt(c', k) <= Union(c0, online) {
      assert OpsAt(c, k) <= Union(c0, online);
    }
  }

  lemma SyncedMeet(cfg: Config, c0: Cluster, c: Cluster, c': Cluster, i: nat, j: nat, a: nat, b: nat)
    requires Synced(cfg, c, c', i, j) && i != j && |c0.peers| == |c.peers|
    requires OpsAt(c0, i) <= OpsAt(c, i) && OpsAt(c0, j) <= OpsAt(c, j)
    requires (a == i && b == j) || HaveMet(cfg, c0, c, a, b)
    ensures HaveMet(cfg, c0, c', a, b)
  {
  }

  /** A sync of two online peers advances the sweep by one pair. */
  lemma PairAdvances(cfg: Config, c0: Cluster, c: Cluster, c': Cluster, online: seq<bool>, i: nat, j: nat)
    requires Progress(cfg, c0, c, online, i, j) && Pair(c, online, i, j)
    requires Synced(cfg, c, c', i, j) && Inv(cfg, c')
    ensures Progress(cfg, c0, c', online, i, j + 1)
  {
    SyncedBounds(cfg, c0, c, c', online, i, j);
    forall a: nat, b: nat | Pair(c', online, a, b) && Met(i, j + 1, a, b) ensures HaveMet(cfg, c0, c', a, b) {
      assert Pair(c, online, a, b) && (Met(i, j, a, b) || (a == i && b == j));
      SyncedMeet(cfg, c0, c, c', i, j, a, b);
    }
  }

  lemma MeetAdvances(cfg: Config, c0: Cluster, c: Cluster, online: seq<bool>, i: nat, j: nat)
    requires Progress(cfg, c0, c, online, i, j) && i < j < |online|
    ensures Progress(cfg, c0, Meet(cfg, online)(c, i, j), online, i, j + 1)
  {
    if Pair(c, online, i, j) {
      SyncIsSynced(cfg, c, i, j);
      PairAdvances(cfg, c0, c, StepOf(cfg, c, SyncWith(i, j)), online, i, j);
    }
  }

  lemma RowDone(cfg: Config, c0: Cluster, c: Cluster, online: seq<bool>, i: nat)
    requires Progress(cfg, c0, c, online, i, |online|)
    ensures Progress(cfg, c0, c, online, i + 1, i + 2)
  {
    forall a: nat, b: nat | Pair(c, online, a, b) && Met(i + 1, i + 2, a, b) ensures HaveMet(cfg, c0, c, a, b) {
      assert Met(i, |online|, a, b);
    }
  }

  lemma Starts(cfg: Config, c: Cluster, online: seq<bool>)
    requires Inv(cfg, c) && |online| == |c.peers|
    ensures Progress(cfg, c, c, online, 0, 1)
  {
    assert forall k :: 0 <= k < |online| && online[k] ==> OpsAt(c, k) <= Union(c, online);
    assert forall a: nat, b: nat :: Pair(c, online, a, b) ==> !Met(0, 1, a, b);
  }

  /** `Progress` as an assertion about a loop position. */
  ghost function Standing(cfg: Config, c0: Cluster, online: seq<bool>): (Cluster, nat, nat) -> bool {
    (c: Cluster, i: nat, j: nat) => Progress(cfg, c0, c, online, i, j)
  }

  lemma MeetsAdvance(cfg: Config, c: Cluster, online: seq<bool>)
    ensures forall x, a: nat, b: nat :: a < b < |online| && Standing(cfg, c, online)(x, a, b)
              ==> Standing(cfg, c, online)(Meet(cfg, online)(x, a, b), a, b + 1)
  {
    forall x, a: nat, b: nat | a < b < |online| && Standing(cfg, c, online)(x, a, b)
      ensures Standing(cfg, c, online)(Meet(cfg, online)(x, a, b), a, b + 1)
    {
      MeetAdvances(cfg, c, x, online, a, b);
    }
  }

  lemma RowsDone(cfg: Config, c: Cluster, online: seq<bool>)
    ensures forall x, a: nat :: a < |online| && Standing(cfg, c, online)(x, a, |online|)
              ==> Standing(cfg, c, online)(x, a + 1, a + 2)
  {
    forall x, a: nat | a < |online| && Standing(cfg, c, online)(x, a, |online|) ensures Standing(cfg, c, online)(x, a + 1, a + 2) {
      RowDone(cfg, c, x, online, a);
    }
  }

  lemma SweepStands(cfg: Config, c: Cluster, online: seq<bool>)
    requires |online| == |c.peers| && Standing(cfg, c, online)(c, 0, 1)
    ensures Standing(cfg, c, online)(Sweep(cfg, c, online), |online|, |online| + 1)
  {
    MeetsAdvance(cfg, c, online);
    RowsDone(cfg, c, online);
    SweepRule(Meet(cfg, online), Standing(cfg, c, online), c, |online|, |online|);
  }

  lemma SweepAdvances(cfg: Config, c: Cluster, online: seq<bool>)
    requires Inv(cfg, c) && |online| == |c.peers|
    ensures Progress(cfg, c, Sweep(cfg, c, online), online, |online|, |online| + 1)
  {
    Starts(cfg, c, online);
    SweepStands(cfg, c, online);
  }

  // ----- The whole sweep -----

  /** After one sweep every online peer's log is the union of the online logs. */
  lemma SweepUnites(cfg: Config, c: Cluster, online: seq<bool>, k: nat)
    requires Inv(cfg, c) && |online| == |c.peers| && k < |c.peers|
    ensures var c' := Sweep(cfg, c, online);
      && Inv(cfg, c') && |c'.peers| == |c.peers|
      && (online[k] ==> OpsAt(c', k) == Union(c, online))
      && (!online[k] ==> c'.peers[k] == c.peers[k])
  {
    var c' := Sweep(cfg, c, online);
    SweepAdvances(cfg, c, online);
    if online[k] {
      forall o | o in Union(c, online) ensures o in OpsAt(c', k) {
        var l :| 0 <= l < |c.peers| && online[l] && o in c.peers[l].log;
        assert o in OpsAt(c, l);
        assert k < l ==> Pair(c', online, k, l);
        assert l < k ==> Pair(c', online, l, k);
      }
    }
  }

  /** All online peers, two or more, end in one and the same rebuilt state. */
  lemma SweepConverges(cfg: Config, c: Cluster, online: seq<bool>, k: nat, l: nat)
    requires Inv(cfg, c) && |online| == |c.peers| && k < |c.peers| && l < |c.peers| && k != l && online[k] && online[l]
    ensures var c' := Sweep(cfg, c, online);
      |c'.peers| == |c.peers| && c'.peers[k].state == c'.peers[l].state && Rebuilt(cfg, c'.peers[k]) && Rebuilt(cfg, c'.peers[l])
  {
    var c' := Sweep(cfg, c, online);
    SweepAdvances(cfg, c, online);
    SweepUnites(cfg, c, online, k);
    SweepUnites(cfg, c, online, l);
    assert k < l ==> Pair(c', online, k, l);
    assert l < k ==> Pair(c', online, l, k);
    assert PeerOk(cfg, c', k) && PeerOk(cfg, c', l);
    assert WellFormed(OpsAt(c', k)) by { assert OpsAt(c', k) <= AllOps(c'); }
    Convergence(cfg, c'.peers[k].log, c'.peers[l].log);
  }

  // ----- A second sweep -----

  /** Online peers hold the same ops and have rebuilt. */
  ghost predicate Settled(cfg: Config, c: Cluster, online: seq<bool>) {
    forall a: nat, b: nat :: Pair(c, online, a, b) ==>
      OpsAt(c, a) == OpsAt(c, b) && Rebuilt(cfg, c.peers[a]) && Rebuilt(cfg, c.peers[b])
  }

  lemma SettledPair(cfg: Config, c: Cluster, online: seq<bool>, i: nat, j: nat)
    requires Settled(cfg, c, online) && Pair(c, online, i, j)
    ensures StepOf(cfg, c, SyncWith(i, j)) == c
  {
    ReceiveNothing(c.peers[i].log, c.peers[j].log);
    ReceiveNothing(c.peers[j].log, c.peers[i].log);
    assert ReceiveFrom(cfg, c.peers[i], c.peers[j].log) == c.peers[i];
    assert c.peers[i := c.peers[i]] == c.peers && c.peers[j := c.peers[j]] == c.peers;
  }

  lemma SettledSweep(cfg: Config, c: Cluster, online: seq<bool>)
    requires Settled(cfg, c, online)
    ensures Sweep(cfg, c, online) == c
  {
    forall a: nat, b: nat ensures Meet(cfg, online)(c, a, b) == c {
      if Pair(c, online, a, b) { SettledPair(cfg, c, online, a, b); }
    }
    SweepRule(Meet(cfg, online), (x, a, b) => x == c, c, |c.peers|, |c.peers|);
  }

  /** The second and third rounds change nothing. */
  lemma SecondSweepIsIdle(cfg: Config, c: Cluster, online: seq<bool>)
    requires Inv(cfg, c) && |online| == |c.peers|
    ensures var c' := Sweep(cfg, c, online); Sweep(cfg, c', online) == c'
  {
    var c' := Sweep(cfg, c, online);
    forall a: nat, b: nat | Pair(c', online, a, b)
      ensures OpsAt(c', a) == OpsAt(c', b) && Rebuilt(cfg, c'.peers[a]) && Rebuilt(cfg, c'.peers[b])
    {
      SweepUnites(cfg, c, online, a);
      SweepUnites(cfg, c, online, b);
      SweepConverges(cfg, c, online, a, b);
    }
    SettledSweep(cfg, c', online);
  }
}
