/** The rebuild: what a peer's state is, as a function of its log alone. */
module Rebuild {
  import opened ByteStrings
  import opened Ops
  import opened RowStores
  import opened Replay
  import opened Sorting
  import opened FkResolution
  import Arbitration
  import C = Cascade

  /** Engine settings: the foreign-key policy, and how bytes decode to text. */
  datatype Config = Config(policy: Policy, text: Bytes -> Text)

  datatype Derived = Derived(store: Store, uniqueness: Arbitration.UniqueState)

  function ReplayOrder(log: seq<Op>): seq<Op> {
    StableSort(ReplaysBefore, log)
  }

  /** The store before cascading: replayed rows with the losers' columns nulled. */
  function ArbitratedStore(log: seq<Op>): Store {
    var ops := ReplayOrder(log);
    Arbitration.Arbitrate(ReplayOf(ops), Arbitration.NullWrites(Arbitration.ReplayUnique(ops)))
  }

  ghost function RebuildOf(cfg: Config, log: seq<Op>): Derived {
    var s := ArbitratedStore(log);
    Derived(if cfg.policy.Cascade? then C.CascadeOf(s, cfg.text) else s, Arbitration.ReplayUnique(ReplayOrder(log)))
  }

  lemma ReplayOrderSorts(log: seq<Op>)
    requires NoDup(log)
    ensures Sorted(ReplaysBefore, ReplayOrder(log)) && NoDup(ReplayOrder(log))
    ensures Elements(ReplayOrder(log)) == Elements(log)
  {
    ReplayOrderIsWeak();
    StableSortSorts(ReplaysBefore, log);
    NoDupFromMultiset(log, ReplayOrder(log));
  }

  /** Strong convergence: logs that hold the same ops, in whatever arrival order,
      rebuild to the same store and the same uniqueness state. */
  lemma Convergence(cfg: Config, a: seq<Op>, b: seq<Op>)
    requires NoDup(a) && NoDup(b) && Elements(a) == Elements(b) && WellFormed(Elements(a))
    ensures RebuildOf(cfg, a) == RebuildOf(cfg, b)
  {
    ReplayOrderSorts(a);
    ReplayOrderSorts(b);
    ReplayIsStateOf(ReplayOrder(a));
    ReplayIsStateOf(ReplayOrder(b));
    Arbitration.ReplayUniqueConverges(ReplayOrder(a), ReplayOrder(b));
  }

  /** The base store of a rebuild is the closed form of the set of ops. */
  lemma BaseIsStateOf(log: seq<Op>)
    requires NoDup(log) && WellFormed(Elements(log))
    ensures ReplayOf(ReplayOrder(log)) == StateOf(Elements(log))
  {
    ReplayOrderSorts(log);
    ReplayIsStateOf(ReplayOrder(log));
  }

  lemma ArbitratedMembership(log: seq<Op>)
    requires NoDup(log) && WellFormed(Elements(log))
    ensures var s := ArbitratedStore(log);
      && s.Keys == Created(Elements(log))
      && (forall t :: t in s ==> s[t].schema == SchemaFor(Elements(log), t) && s[t].membership == MembershipFor(Elements(log), t))
  {
    BaseIsStateOf(log);
    var ops := ReplayOrder(log);
    Arbitration.ArbitrationKeepsMembership(ReplayOf(ops), Arbitration.NullWrites(Arbitration.ReplayUnique(ops)));
  }

  /** Arbitration and, outside the cascade policy, the whole rebuild leave
      membership as replay made it. */
  lemma RebuiltMembership(cfg: Config, log: seq<Op>)
    requires NoDup(log) && WellFormed(Elements(log))
    ensures var s := RebuildOf(cfg, log).store;
      && s.Keys == Created(Elements(log))
      && (forall t :: t in s ==> s[t].schema == SchemaFor(Elements(log), t))
      && (!cfg.policy.Cascade? ==> forall t :: t in s ==> s[t].membership == MembershipFor(Elements(log), t))
  {
    ArbitratedMembership(log);
  }
}
