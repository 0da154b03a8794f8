/** Pairwise exchange of ops by timestamp fingerprints. */
module AntiEntropy {
  import opened Clocks
  import opened Ops
  import opened Sorting
  import opened OpLogs

  /** The fingerprints of a log. */
  function Times(log: seq<Op>): set<Hlc> {
    set o | o in log :: o.hlc
  }

  function Unseen(times: set<Hlc>): Op -> bool {
    (o: Op) => o.hlc !in times
  }

  /** The ops of `src` whose timestamp `dst` has not seen. */
  function Missing(src: seq<Op>, dst: seq<Op>): seq<Op> {
    Filter(src, Unseen(Times(dst)))
  }

  function Receive(dst: seq<Op>, src: seq<Op>): seq<Op> {
    AppendAll(dst, Missing(src, dst))
  }

  /** Of each timestamp group of `b`, `a` holds the whole or nothing. */
  ghost predicate HoldsWholeGroups(a: set<Op>, b: set<Op>) {
    forall o, p :: o in b && p in a && p.hlc == o.hlc ==> o in a
  }

  /** Receiving appends: the old log stays a prefix and no duplicate appears; and the
      result is the union of both logs exactly when the receiver holds whole groups. */
  lemma ReceiveIsUnion(dst: seq<Op>, src: seq<Op>)
    requires NoDup(dst)
    ensures NoDup(Receive(dst, src)) && dst <= Receive(dst, src)
    ensures Elements(Receive(dst, src)) <= Elements(dst) + Elements(src)
    ensures Elements(Receive(dst, src)) == Elements(dst) + Elements(src)
      <==> HoldsWholeGroups(Elements(dst), Elements(src))
  {
    AppendAllAdds(dst, Missing(src, dst));
    var got := Elements(Receive(dst, src));
    assert forall o :: o in Elements(Missing(src, dst)) <==> o in src && o.hlc !in Times(dst);
    if HoldsWholeGroups(Elements(dst), Elements(src)) {
      forall o | o in Elements(src) ensures o in got {
        if o.hlc in Times(dst) {
          var p :| p in dst && p.hlc == o.hlc;
          assert p in Elements(dst);
        }
      }
    }
    if got == Elements(dst) + Elements(src) {
      forall o, p | o in Elements(src) && p in Elements(dst) && p.hlc == o.hlc ensures o in Elements(dst) {
        assert o in got && o.hlc in Times(dst);
      }
    }
  }

  /** Nothing is transferred between logs that hold the same ops. */
  lemma ReceiveNothing(dst: seq<Op>, src: seq<Op>)
    requires Elements(src) <= Elements(dst)
    ensures Receive(dst, src) == dst
  {
    forall o | o in src ensures o.hlc in Times(dst) { assert o in Elements(src); }
    FilterNone(src, Unseen(Times(dst)));
  }

  method Fingerprints(log: OpLog) returns (times: set<Hlc>)
    ensures times == Times(log.Ops())
  {
    times := {};
    for i := 0 to |log.entries|
      invariant times == Times(log.Ops()[..i])
    {
      assert log.Ops()[..i + 1] == log.Ops()[..i] + [log.entries[i].op];
      times := times + {log.entries[i].op.hlc};
    }
    assert log.Ops()[..|log.entries|] == log.Ops();
  }

  method Select(log: OpLog, seen: set<Hlc>) returns (ops: seq<Op>)
    ensures ops == Filter(log.Ops(), Unseen(seen))
  {
    ops := [];
    for i := 0 to |log.entries|
      invariant ops == Filter(log.Ops()[..i], Unseen(seen))
    {
      assert log.Ops()[..i + 1][..i] == log.Ops()[..i];
      if log.entries[i].op.hlc !in seen { ops := ops + [log.entries[i].op]; }
    }
    assert log.Ops()[..|log.entries|] == log.Ops();
  }

  method AppendEach(log: OpLog, ops: seq<Op>)
    requires log.Valid()
    modifies log
    ensures log.Valid() && log.Ops() == AppendAll(old(log.Ops()), ops)
  {
    for i := 0 to |ops|
      invariant log.Valid() && log.Ops() == AppendAll(old(log.Ops()), ops[..i])
    {
      assert ops[..i + 1][..i] == ops[..i];
      var _ := log.Append(ops[i]);
    }
    assert ops[..|ops|] == ops;
  }

  method SyncPeers(a: OpLog, b: OpLog) returns (sentByA: nat, sentByB: nat)
    requires a != b && a.Valid() && b.Valid()
    modifies a, b
    ensures a.Valid() && b.Valid()
    ensures a.Ops() == Receive(old(a.Ops()), old(b.Ops()))
    ensures b.Ops() == Receive(old(b.Ops()), old(a.Ops()))
    ensures sentByA == |Missing(old(a.Ops()), old(b.Ops()))| && sentByB == |Missing(old(b.Ops()), old(a.Ops()))|
  {
    var timesA := Fingerprints(a);
    var timesB := Fingerprints(b);
    var opsForB := Select(a, timesB);
    var opsForA := Select(b, timesA);
    AppendEach(b, opsForB);
    AppendEach(a, opsForA);
    return |opsForB|, |opsForA|;
  }
}
