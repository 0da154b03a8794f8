/** The dashboard's sync of all peers: three rounds of pairwise syncs over engine objects. */
module SyncAll {
  import opened ByteStrings
  import opened Sorting
  import opened Rebuild
  import opened Peers
  import opened Clusters
  import opened Sweeps
  import opened Engines

  ghost function Footprints(es: seq<Engine>): set<object> {
    set i, o | 0 <= i < |es| && o in es[i].Footprint() :: o
  }

  lemma Within(es: seq<Engine>, i: nat)
    requires i < |es|
    ensures es[i].Footprint() <= Footprints(es)
  {
  }

  /** Every engine runs with `cfg` and shares no object with another. */
  ghost predicate Apart(cfg: Config, es: seq<Engine>) {
    && (forall i :: 0 <= i < |es| ==> es[i].cfg == cfg)
    && (forall i, j :: 0 <= i < j < |es| ==> es[i].Footprint() !! es[j].Footprint())
  }

  ghost predicate AllValid(es: seq<Engine>) reads Footprints(es) {
    forall i :: 0 <= i < |es| ==> (Within(es, i); es[i].Valid())
  }

  ghost function PeersOf(es: seq<Engine>): seq<Peer> reads Footprints(es) {
    seq(|es|, i requires 0 <= i < |es| reads Footprints(es) => (Within(es, i); es[i].State()))
  }

  ghost function ClusterOf(es: seq<Engine>, accepted: set<Ref>): Cluster reads Footprints(es) {
    Cluster(PeersOf(es), accepted)
  }

  /** Which indexes there are, on which columns. */
  type Shape = map<Text, map<Text, seq<Text>>>

  ghost function ShapeOf(indexes: map<Text, Manager>): Shape {
    map t | t in indexes :: map n | n in indexes[t] :: indexes[t][n].columns
  }

  ghost function IndexesOf(es: seq<Engine>): seq<map<Text, Manager>> reads Footprints(es) {
    seq(|es|, i requires 0 <= i < |es| reads Footprints(es) => (Within(es, i); es[i].indexes))
  }

  ghost function Shapes(all: seq<map<Text, Manager>>): seq<Shape> {
    seq(|all|, i requires 0 <= i < |all| => ShapeOf(all[i]))
  }

  ghost function ShapesOf(es: seq<Engine>): seq<Shape> reads Footprints(es) {
    Shapes(IndexesOf(es))
  }

  lemma SameShape(a: map<Text, Manager>, b: map<Text, Manager>)
    ensures SameIndexes(a, b) <==> ShapeOf(a) == ShapeOf(b)
  {
    if SameIndexes(a, b) {
      forall t | t in a ensures ShapeOf(a)[t] == ShapeOf(b)[t] { assert SameColumns(a[t], b[t]); }
    }
    if ShapeOf(a) == ShapeOf(b) {
      assert ShapeOf(a).Keys == a.Keys && ShapeOf(b).Keys == b.Keys;
      forall t | t in a ensures SameColumns(a[t], b[t]) {
        assert ShapeOf(a)[t] == ShapeOf(b)[t] && ShapeOf(a)[t].Keys == a[t].Keys && ShapeOf(b)[t].Keys == b[t].Keys;
        forall n | n in a[t] ensures b[t][n].columns == a[t][n].columns { assert ShapeOf(a)[t][n] == ShapeOf(b)[t][n]; }
      }
    }
  }

  lemma ShapesStay(before: seq<map<Text, Manager>>, after: seq<map<Text, Manager>>, i: nat, j: nat)
    requires i < j < |before| == |after| && SameIndexes(before[i], after[i]) && SameIndexes(before[j], after[j])
    requires forall k :: 0 <= k < |before| && k != i && k != j ==> after[k] == before[k]
    ensures Shapes(after) == Shapes(before)
  {
    SameShape(before[i], after[i]);
    SameShape(before[j], after[j]);
  }

  /** A sync step of the cluster, peer by peer. */
  lemma SyncStep(cfg: Config, c: Cluster, c': Cluster, i: nat, j: nat)
    requires i < j < |c.peers| == |c'.peers| && c'.accepted == c.accepted
    requires c'.peers[i] == ReceiveFrom(cfg, c.peers[i], c.peers[j].log)
    requires c'.peers[j] == ReceiveFrom(cfg, c.peers[j], c.peers[i].log)
    requires forall k :: 0 <= k < |c.peers| && k != i && k != j ==> c'.peers[k] == c.peers[k]
    ensures c' == StepOf(cfg, c, SyncWith(i, j))
  {
    assert c'.peers == StepOf(cfg, c, SyncWith(i, j)).peers;
  }

  /** One sync of two engines is one sync step of the cluster. */
  method SyncPair(cfg: Config, es: seq<Engine>, i: nat, j: nat, ghost accepted: set<Ref>)
    requires i < j < |es| && Apart(cfg, es) && AllValid(es)
    modifies Footprints(es)
    ensures AllValid(es) && es[i].IndexesExact() && es[j].IndexesExact() && ShapesOf(es) == old(ShapesOf(es))
    ensures ClusterOf(es, accepted) == StepOf(cfg, old(ClusterOf(es, accepted)), SyncWith(i, j))
  {
    ghost var c, before := ClusterOf(es, accepted), IndexesOf(es);
    es[i].SyncWith(es[j]);
    forall k | 0 <= k < |es| && k != i && k != j
      ensures es[k].Valid() && es[k].State() == c.peers[k] && es[k].indexes == before[k]
    {
      assert es[k].Footprint() !! es[i].Footprint() && es[k].Footprint() !! es[j].Footprint();
      assert es[k] in es[k].Footprint() && es[k].indexes == old(es[k].indexes);
    }
    ShapesStay(before, IndexesOf(es), i, j);
    SyncStep(cfg, c, ClusterOf(es, accepted), i, j);
  }

  /** `meet` is the effect of the loop body on the cluster. */
  ghost predicate IsMeet(cfg: Config, online: seq<bool>, meet: Meeting) {
    forall c, i: nat, j: nat {:trigger Pair(c, online, i, j)} ::
      meet(c, i, j) == if Pair(c, online, i, j) then StepOf(cfg, c, SyncWith(i, j)) else c
  }

  method MeetPair(cfg: Config, es: seq<Engine>, online: seq<bool>, i: nat, j: nat, ghost accepted: set<Ref>, ghost meet: Meeting)
    requires i < j < |es| == |online| && Apart(cfg, es) && AllValid(es) && IsMeet(cfg, online, meet)
    modifies Footprints(es)
    ensures AllValid(es) && ShapesOf(es) == old(ShapesOf(es))
    ensures ClusterOf(es, accepted) == meet(old(ClusterOf(es, accepted)), i, j)
  {
    assert Pair(ClusterOf(es, accepted), online, i, j) <==> online[i] && online[j];
    if online[i] && online[j] { SyncPair(cfg, es, i, j, accepted); }
  }

  /** What the inner loop makes of `c` before `j`: `RowOf`, under a name of its own. */
  ghost function RowSoFar(meet: Meeting, c: Cluster, i: nat, j: nat): Cluster {
    RowOf(meet, c, i, j)
  }

  lemma RowNext(meet: Meeting, c: Cluster, i: nat, j: nat)
    requires i < j
    ensures RowOf(meet, c, i, j + 1) == meet(RowOf(meet, c, i, j), i, j)
  {
  }

  /** One more pair takes what the loop has made of `c` before `j` to what it makes before `j + 1`. */
  method MeetNext(cfg: Config, es: seq<Engine>, online: seq<bool>, i: nat, j: nat, ghost accepted: set<Ref>, ghost meet: Meeting,
                  ghost c: Cluster, ghost d: Cluster) returns (ghost d': Cluster)
    requires i < j < |es| == |online| && Apart(cfg, es) && AllValid(es) && IsMeet(cfg, online, meet)
    requires ClusterOf(es, accepted) == d == RowSoFar(meet, c, i, j)
    modifies Footprints(es)
    ensures AllValid(es) && ShapesOf(es) == old(ShapesOf(es))
    ensures ClusterOf(es, accepted) == d' == RowSoFar(meet, c, i, j + 1)
  {
    RowNext(meet, c, i, j);
    MeetPair(cfg, es, online, i, j, accepted, meet);
    d' := ClusterOf(es, accepted);
  }

  /** The inner loop: engine `i` syncs with the online engines after it. */
  method SyncRow(cfg: Config, es: seq<Engine>, online: seq<bool>, i: nat, ghost accepted: set<Ref>, ghost meet: Meeting)
    requires i < |es| == |online| && Apart(cfg, es) && AllValid(es) && IsMeet(cfg, online, meet)
    modifies Footprints(es)
    ensures AllValid(es) && ShapesOf(es) == old(ShapesOf(es))
    ensures ClusterOf(es, accepted) == RowOf(meet, old(ClusterOf(es, accepted)), i, |es|)
  {
    ghost var c, shapes := ClusterOf(es, accepted), ShapesOf(es);
    ghost var d := c;
    for j := i + 1 to |es|
      invariant AllValid(es) && ShapesOf(es) == shapes && ClusterOf(es, accepted) == d
      invariant d == RowSoFar(meet, c, i, j)
    {
      d := MeetNext(cfg, es, online, i, j, accepted, meet, c, d);
    }
  }

  method SyncRound(cfg: Config, es: seq<Engine>, online: seq<bool>, ghost accepted: set<Ref>, ghost meet: Meeting)
    requires |es| == |online| && Apart(cfg, es) && AllValid(es) && IsMeet(cfg, online, meet)
    modifies Footprints(es)
    ensures AllValid(es) && ShapesOf(es) == old(ShapesOf(es))
    ensures ClusterOf(es, accepted) == SweepOf(meet, old(ClusterOf(es, accepted)), |es|, |es|)
  {
    ghost var c := ClusterOf(es, accepted);
    for i := 0 to |es|
      invariant AllValid(es) && ShapesOf(es) == old(ShapesOf(es)) && ClusterOf(es, accepted) == SweepOf(meet, c, |es|, i)
    {
      SyncRow(cfg, es, online, i, accepted, meet);
    }
  }

  ghost function Rounds(cfg: Config, c: Cluster, online: seq<bool>, n: nat): Cluster {
    if n == 0 then c else Sweep(cfg, Rounds(cfg, c, online, n - 1), online)
  }

  lemma {:induction false} OneRoundIsEnough(cfg: Config, c: Cluster, online: seq<bool>, n: nat)
    requires Inv(cfg, c) && |online| == |c.peers| && n > 0
    ensures Rounds(cfg, c, online, n) == Sweep(cfg, c, online)
  {
    if n > 1 {
      OneRoundIsEnough(cfg, c, online, n - 1);
      SecondSweepIsIdle(cfg, c, online);
    }
  }

  /** Three rounds; in a cluster that any run has produced they amount to one sweep,
      after which all online engines hold the union of their logs. */
  method SyncAllPeers(cfg: Config, es: seq<Engine>, online: seq<bool>, ghost accepted: set<Ref>)
    requires |es| == |online| && Apart(cfg, es) && AllValid(es)
    modifies Footprints(es)
    ensures AllValid(es) && ShapesOf(es) == old(ShapesOf(es))
    ensures ClusterOf(es, accepted) == Rounds(cfg, old(ClusterOf(es, accepted)), online, 3)
    ensures old(Inv(cfg, ClusterOf(es, accepted))) ==>
      && ClusterOf(es, accepted) == Sweep(cfg, old(ClusterOf(es, accepted)), online)
      && forall k :: 0 <= k < |es| && online[k] ==> Elements(PeersOf(es)[k].log) == Union(old(ClusterOf(es, accepted)), online)
  {
    ghost var c := ClusterOf(es, accepted);
    for round := 0 to 3
      invariant AllValid(es) && ShapesOf(es) == old(ShapesOf(es)) && ClusterOf(es, accepted) == Rounds(cfg, c, online, round)
    {
      SyncRound(cfg, es, online, accepted, Meet(cfg, online));
    }
    if Inv(cfg, c) {
      OneRoundIsEnough(cfg, c, online, 3);
      forall k | 0 <= k < |es| && online[k] ensures OpsAt(ClusterOf(es, accepted), k) == Union(c, online) {
        SweepUnites(cfg, c, online, k);
      }
    }
  }
}
