/** The append-only op log and its two derived indexes. */
module OpLogs {
  import opened ByteStrings
  import opened Clocks
  import opened Ops
  import opened Sorting

  datatype LogEntry = LogEntry(seqNo: nat, op: Op)

  function OpsOf(entries: seq<LogEntry>): seq<Op> {
    seq(|entries|, i requires 0 <= i < |entries| => entries[i].op)
  }

  lemma OpsOfAppend(entries: seq<LogEntry>, e: LogEntry)
    ensures OpsOf(entries + [e]) == OpsOf(entries) + [e.op]
    ensures (exists x :: x in entries && x.op == e.op) <==> e.op in OpsOf(entries)
  {
    if e.op in OpsOf(entries) {
      var i :| 0 <= i < |entries| && OpsOf(entries)[i] == e.op;
      assert entries[i] in entries;
    }
    if x :| x in entries && x.op == e.op {
      var i :| 0 <= i < |entries| && entries[i] == x;
      assert OpsOf(entries)[i] == e.op;
    }
  }

  /** Appending skips an op the log already holds. */
  function AppendOf(ops: seq<Op>, op: Op): seq<Op> {
    if op in ops then ops else ops + [op]
  }

  function AppendAll(ops: seq<Op>, more: seq<Op>): seq<Op> {
    if |more| == 0 then ops else AppendOf(AppendAll(ops, more[..|more| - 1]), more[|more| - 1])
  }

  /** Appending any list keeps the old log as a prefix, adds exactly the new ops
      and leaves no duplicate. */
  lemma {:induction false} AppendAllAdds(ops: seq<Op>, more: seq<Op>)
    requires NoDup(ops)
    ensures NoDup(AppendAll(ops, more))
    ensures ops <= AppendAll(ops, more)
    ensures Elements(AppendAll(ops, more)) == Elements(ops) + Elements(more)
  {
    if |more| > 0 {
      var m := |more| - 1;
      AppendAllAdds(ops, more[..m]);
      assert more == more[..m] + [more[m]];
      var xs := AppendAll(ops, more[..m]);
      assert more[m] in xs <==> more[m] in Elements(xs);
      assert Elements(more) == Elements(more[..m]) + {more[m]};
      assert Elements(xs + [more[m]]) == Elements(xs) + {more[m]};
    }
  }

  predicate Touches(op: Op, t: Text, r: Text) {
    !op.CreateTable? && op.table == t && op.row == r
  }

  /** The positions a full scan for a row finds, in order. */
  function ScanRow(ops: seq<Op>, t: Text, r: Text): seq<nat> {
    if |ops| == 0 then []
    else
      var m := |ops| - 1;
      ScanRow(ops[..m], t, r) + if Touches(ops[m], t, r) then [m] else []
  }

  lemma {:induction false} ScanRowInBounds(ops: seq<Op>, t: Text, r: Text)
    ensures forall i :: i in ScanRow(ops, t, r) <==> 0 <= i < |ops| && Touches(ops[i], t, r)
    ensures StrictlySorted((i: nat, j: nat) => i < j, ScanRow(ops, t, r))
  {
    if |ops| > 0 {
      var m := |ops| - 1;
      ScanRowInBounds(ops[..m], t, r);
      var s := ScanRow(ops[..m], t, r);
      forall k | 0 <= k < |s| ensures s[k] < m { assert s[k] in s; }
    }
  }

  /** The largest position of an op by `p`. */
  ghost predicate IsLastBy(ops: seq<Op>, p: Text, i: nat) {
    i < |ops| && ops[i].hlc.peer == p && forall j :: i < j < |ops| ==> ops[j].hlc.peer != p
  }

  ghost predicate IndexExact(ops: seq<Op>, index: map<(Text, Text), seq<nat>>) {
    forall t, r :: (if (t, r) in index then index[(t, r)] else []) == ScanRow(ops, t, r)
  }

  ghost predicate FrontierExact(ops: seq<Op>, frontier: map<Text, nat>) {
    && (forall i :: 0 <= i < |ops| ==> ops[i].hlc.peer in frontier)
    && (forall p :: p in frontier ==> IsLastBy(ops, p, frontier[p]))
  }

  lemma IndexAfterAppend(ops: seq<Op>, index: map<(Text, Text), seq<nat>>, op: Op)
    requires IndexExact(ops, index)
    ensures op.CreateTable? ==> IndexExact(ops + [op], index)
    ensures !op.CreateTable? ==>
      var key := (op.table, op.row);
      IndexExact(ops + [op], index[key := (if key in index then index[key] else []) + [|ops|]])
  {
    assert (ops + [op])[..|ops|] == ops;
  }

  lemma FrontierAfterAppend(ops: seq<Op>, frontier: map<Text, nat>, op: Op)
    requires FrontierExact(ops, frontier)
    ensures FrontierExact(ops + [op], frontier[op.hlc.peer := |ops|])
  {
    forall p | p in frontier && p != op.hlc.peer ensures IsLastBy(ops + [op], p, frontier[p]) {
      assert IsLastBy(ops, p, frontier[p]);
    }
  }

  class OpLog {
    var entries: seq<LogEntry>
    var rowIndex: map<(Text, Text), seq<nat>>
    var peerFrontier: map<Text, nat>

    ghost function Ops(): seq<Op> reads this {
      OpsOf(entries)
    }

    /** Positions are sequence numbers, ops are distinct, the indexes are exact. */
    ghost predicate Valid() reads this {
      && (forall i :: 0 <= i < |entries| ==> entries[i].seqNo == i)
      && NoDup(Ops())
      && IndexExact(Ops(), rowIndex)
      && FrontierExact(Ops(), peerFrontier)
    }

    constructor ()
      ensures Valid() && Ops() == []
    {
      entries, rowIndex, peerFrontier := [], map[], map[];
    }

    method IndexRow(op: Op, ghost ops: seq<Op>)
      requires IndexExact(ops, rowIndex) && |ops| == |entries|
      modifies `rowIndex
      ensures IndexExact(ops + [op], rowIndex)
    {
      IndexAfterAppend(ops, rowIndex, op);
      if !op.CreateTable? {
        var key := (op.table, op.row);
        rowIndex := rowIndex[key := (if key in rowIndex then rowIndex[key] else []) + [|entries|]];
      }
    }

    method AdvanceFrontier(op: Op, ghost ops: seq<Op>)
      requires FrontierExact(ops, peerFrontier) && |ops| == |entries|
      modifies `peerFrontier
      ensures FrontierExact(ops + [op], peerFrontier)
    {
      FrontierAfterAppend(ops, peerFrontier, op);
      var peer, n := op.hlc.peer, |entries|;
      if peer !in peerFrontier { peerFrontier := peerFrontier[peer := 0]; }
      if n > peerFrontier[peer] { peerFrontier := peerFrontier[peer := n]; }
    }

    method Append(op: Op) returns (n: nat)
      requires Valid()
      modifies this
      ensures Valid() && Ops() == AppendOf(old(Ops()), op)
      ensures n + 1 == |entries|
    {
      ghost var before := OpsOf(entries);
      n := |entries|;
      OpsOfAppend(entries, LogEntry(n, op));
      if exists e :: e in entries && e.op == op {
        return n - 1;
      }
      IndexRow(op, before);
      AdvanceFrontier(op, before);
      entries := entries + [LogEntry(n, op)];
      assert Ops() == before + [op];
    }

    method Since(cursor: nat) returns (suffix: seq<LogEntry>)
      requires Valid()
      ensures suffix == if cursor < |entries| then entries[cursor + 1..] else []
    {
      suffix := [];
      for i := 0 to |entries|
        invariant suffix == if cursor < i then entries[cursor + 1..i] else []
      {
        if entries[i].seqNo > cursor { suffix := suffix + [entries[i]]; }
      }
    }

    method OpsForRow(t: Text, r: Text) returns (found: seq<LogEntry>)
      requires Valid()
      ensures |found| == |ScanRow(Ops(), t, r)|
      ensures forall k :: 0 <= k < |found| ==>
        var i := ScanRow(Ops(), t, r)[k]; i < |entries| && found[k] == entries[i]
    {
      found := [];
      var at := if (t, r) in rowIndex then rowIndex[(t, r)] else [];
      ScanRowInBounds(Ops(), t, r);
      for k := 0 to |at|
        invariant |found| == k
        invariant forall j :: 0 <= j < k ==> at[j] < |entries| && found[j] == entries[at[j]]
      {
        assert at[k] in at;
        found := found + [entries[at[k]]];
      }
    }
  }
}
