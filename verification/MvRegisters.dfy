/** Multi-value registers: at most one entry a peer survives a write or a merge. */
module MvRegisters {
  import opened ByteStrings
  import opened Clocks

  /** Entries by timestamp.  The source keys an entry by the three parts of its
      own timestamp, so the key and the entry's `hlc` are one here. */
  type Register = map<Hlc, Option<Bytes>>

  datatype Entry = Entry(hlc: Hlc, value: Option<Bytes>)

  /** An entry is dominated by a different entry of its peer that is not earlier. */
  predicate Dominated(reg: Register, h: Hlc) {
    exists k :: k in reg && k.peer == h.peer && Before(h, k)
  }

  function WriteOf(reg: Register, h: Hlc, v: Option<Bytes>): Register {
    (map k | k in reg && k.peer != h.peer :: reg[k])[h := v]
  }

  function CompactOf(reg: Register): Register {
    map k | k in reg && !Dominated(reg, k) :: reg[k]
  }

  /** Entries of `a` win on equal keys: `or_insert_with`. */
  function MergeOf(a: Register, b: Register): Register {
    CompactOf(b + a)
  }

  function Canonical(reg: Register): Option<Entry> {
    if reg.Keys == {} then None
    else var h := Latest(reg.Keys); Some(Entry(h, reg[h]))
  }

  function Read(reg: Register): Option<Bytes> {
    match Canonical(reg)
    case None => None
    case Some(e) => e.value
  }

  // ----- Laws -----

  predicate OnePerPeer(reg: Register) {
    forall a, b :: a in reg && b in reg && a.peer == b.peer ==> a == b
  }

  /** One timestamp, one value. */
  predicate Agree(a: Register, b: Register) {
    forall h :: h in a && h in b ==> a[h] == b[h]
  }

  lemma CompactIsOnePerPeer(a: Register)
    ensures OnePerPeer(CompactOf(a)) && (OnePerPeer(a) ==> CompactOf(a) == a)
  {
    forall h, k | h in a && k in a ensures h == k || Before(h, k) || Before(k, h) { BeforeIsTotal(h, k); }
    forall h | h in a ensures !Before(h, h) { BeforeIsTotal(h, h); }
  }

  lemma OperationsKeepOnePerPeer(a: Register, b: Register, h: Hlc, v: Option<Bytes>)
    ensures OnePerPeer(CompactOf(a)) && OnePerPeer(MergeOf(a, b))
    ensures OnePerPeer(a) ==> OnePerPeer(WriteOf(a, h, v)) && CompactOf(a) == a
  {
    CompactIsOnePerPeer(a);
    CompactIsOnePerPeer(b + a);
  }

  /** What a merge keeps: the entries of either side that no entry of the other covers. */
  lemma InMerge(a: Register, b: Register, h: Hlc)
    ensures h in MergeOf(a, b)
      <==> h in a.Keys + b.Keys && forall k :: k in a.Keys + b.Keys && k.peer == h.peer ==> !Before(h, k)
    ensures h in MergeOf(a, b) ==> MergeOf(a, b)[h] == if h in a then a[h] else b[h]
  {
    assert (b + a).Keys == a.Keys + b.Keys;
  }

  lemma MergeCommutes(a: Register, b: Register)
    requires Agree(a, b)
    ensures MergeOf(a, b) == MergeOf(b, a)
  {
    assert a + b == b + a;
  }

  lemma MergeIdempotent(a: Register)
    requires OnePerPeer(a)
    ensures MergeOf(a, a) == a
    ensures MergeOf(map[], a) == a && MergeOf(a, map[]) == a
  {
    OperationsKeepOnePerPeer(a, a, Hlc(0, 0, []), None);
    assert a + a == a && a + map[] == a && map[] + a == a;
  }

  lemma DominatedByKept(a: Register, b: Register, h: Hlc)
    ensures Dominated(CompactOf(a) + b, h) <==> Dominated(a + b, h)
  {
    HlcOrder();
    var above := set k | k in a + b && k.peer == h.peer && Before(h, k);
    if above != {} {
      var m := Latest(above);
      forall k | k in a && k.peer == m.peer ensures !Before(m, k) {
        if Before(h, k) { assert k in above; }
      }
      assert m in CompactOf(a) + b;
    } else {
      assert forall k :: k in a + b && k.peer == h.peer && Before(h, k) ==> k in above;
    }
  }

  lemma CompactAbsorbsAt(a: Register, b: Register, h: Hlc)
    ensures h in CompactOf(CompactOf(a) + b) <==> h in CompactOf(a + b)
  {
    DominatedByKept(a, b, h);
    if h in a && Dominated(a, h) {
      var k :| k in a && k.peer == h.peer && Before(h, k);
      assert k in a + b;
    }
  }

  /** Compacting early or late makes no difference. */
  lemma CompactAbsorbs(a: Register, b: Register)
    ensures CompactOf(CompactOf(a) + b) == CompactOf(a + b)
  {
    var l, r := CompactOf(CompactOf(a) + b), CompactOf(a + b);
    forall h ensures h in l <==> h in r { CompactAbsorbsAt(a, b, h); }
    forall h | h in l ensures l[h] == r[h] { assert h in r; }
  }

  lemma SumLaws(a: Register, b: Register, c: Register)
    ensures (a + b) + c == a + (b + c)
    ensures Agree(a, b) ==> a + b == b + a
  {
  }

  lemma MergeAssociates(a: Register, b: Register, c: Register)
    requires Agree(a, b) && Agree(b, c) && Agree(a, c)
    ensures MergeOf(MergeOf(a, b), c) == MergeOf(a, MergeOf(b, c))
  {
    var ab := CompactOf(b + a);
    calc {
      CompactOf(c + ab);
      { SumLaws(c, ab, c); }
      CompactOf(ab + c);
      { CompactAbsorbs(b + a, c); }
      CompactOf((b + a) + c);
      { SumLaws(b + a, c, a); SumLaws(c, b, a); }
      CompactOf((c + b) + a);
      { CompactAbsorbs(c + b, a); }
      CompactOf(CompactOf(c + b) + a);
    }
  }

  /** A write is seen at once unless a later entry of another peer is there. */
  lemma ReadAfterWrite(reg: Register, h: Hlc, v: Option<Bytes>)
    ensures var kept := set k | k in reg && k.peer != h.peer && Before(h, k);
            if kept == {} then Canonical(WriteOf(reg, h, v)) == Some(Entry(h, v))
            else Canonical(WriteOf(reg, h, v)) == Some(Entry(Latest(kept), reg[Latest(kept)]))
  {
    HlcOrder();
    var kept := set k | k in reg && k.peer != h.peer && Before(h, k);
    var w := WriteOf(reg, h, v);
    assert h in w;
    if kept == {} {
      assert forall k :: k in w && k != h ==> k !in kept;
      LatestIsUnique(w.Keys, h, Latest(w.Keys));
    } else {
      var m := Latest(kept);
      assert m in w;
      assert forall k :: k in w && k != h && Before(h, k) ==> k in kept;
      LatestIsUnique(w.Keys, m, Latest(w.Keys));
    }
  }

  // ----- The register object -----

  class MvRegister {
    var entries: Register

    constructor (entries: Register)
      ensures this.entries == entries
    {
      this.entries := entries;
    }

    method Write(h: Hlc, v: Option<Bytes>)
      modifies this
      ensures entries == WriteOf(old(entries), h, v)
      ensures h in entries && entries[h] == v && forall k :: k in entries && k.peer == h.peer ==> k == h
      ensures forall k: Hlc :: k.peer != h.peer ==>
        (k in entries <==> k in old(entries)) && (k in entries ==> entries[k] == old(entries)[k])
    {
      entries := map k | k in entries && k.peer != h.peer :: entries[k];
      entries := entries[h := v];
    }

    method Merge(other: Register)
      modifies this
      ensures entries == MergeOf(old(entries), other)
    {
      var todo := other.Keys;
      while todo != {}
        invariant todo <= other.Keys
        invariant entries == (map k | k in other && k !in todo :: other[k]) + old(entries)
        decreases todo
      {
        var k :| k in todo;
        if k !in entries { entries := entries[k := other[k]]; }
        todo := todo - {k};
      }
      assert (map k | k in other && k !in todo :: other[k]) == other;
      Compact();
    }

    method Compact()
      modifies this
      ensures entries == CompactOf(old(entries))
    {
      var snapshot := entries;
      entries := map k | k in entries && !Dominated(snapshot, k) :: entries[k];
    }
  }
}
