/** What a cascading rebuild leaves and hides, read off schemas and cells. */
module CascadedRows {
  import opened ByteStrings
  import opened Ops
  import opened RowStores
  import opened Rebuild
  import Cascade
  import OrSets

  ghost predicate Seen(s: Store, t: Text, r: Text) {
    t in s && OrSets.Visible(s[t].membership, r)
  }

  /** The row is known, and every token it was ever inserted with is removed. */
  ghost predicate Gone(s: Store, t: Text, r: Text) {
    t in s && r in s[t].membership && s[t].membership[r].live <= s[t].membership[r].removed
  }

  /** The row's cell under a foreign key of its table decodes to the parent's row id. */
  ghost predicate HoldsKey(s: Store, text: Bytes -> Text, t: Text, r: Text, fk: ForeignKey, parent: Text) {
    && t in s && fk in s[t].schema.foreignKeys
    && ReadCell(RowAt(s[t].rows, r), fk.column).Some?
    && text(ReadCell(RowAt(s[t].rows, r), fk.column).value) == parent
  }

  lemma GoneIsDead(s: Store, t: Text, r: Text)
    ensures Gone(s, t, r) <==> Cascade.IsDead(s, (t, r))
  {
    if t in s && r in s[t].membership {
      var e := s[t].membership[r];
      if e.live - e.removed == {} {
        forall h | h in e.live ensures h in e.removed { assert h !in e.live - e.removed; }
      }
    }
  }

  lemma KeyRefers(s: Store, text: Bytes -> Text, t: Text, r: Text, fk: ForeignKey, parent: Text)
    requires HoldsKey(s, text, t, r, fk, parent)
    ensures Cascade.Refers(s, text, (t, r), (fk.refTable, parent))
  {
    var l := Cascade.Link(t, fk.column, fk.refTable);
    assert Cascade.IsLink(s, l) && Cascade.RefersBy(s, text, l, (t, r), (fk.refTable, parent));
  }

  lemma RefersHasKey(s: Store, text: Bytes -> Text, x: Cascade.Node, y: Cascade.Node) returns (fk: ForeignKey)
    requires Cascade.Refers(s, text, x, y)
    ensures HoldsKey(s, text, x.0, x.1, fk, y.1) && fk.refTable == y.0
  {
    var l :| Cascade.IsLink(s, l) && Cascade.RefersBy(s, text, l, x, y);
    fk :| fk in s[l.child].schema.foreignKeys && fk.column == l.column && fk.refTable == l.parent;
  }

  // ----- What is left -----

  /** After a cascading rebuild every key of a visible row names a parent that is unknown or live. */
  lemma RebuiltKeysAreLive(cfg: Config, log: seq<Op>, t: Text, r: Text, fk: ForeignKey, parent: Text)
    requires var s := RebuildOf(cfg, log).store;
      cfg.policy.Cascade? && Seen(s, t, r) && HoldsKey(s, cfg.text, t, r, fk, parent)
    ensures !Gone(RebuildOf(cfg, log).store, fk.refTable, parent)
  {
    var s := RebuildOf(cfg, log).store;
    Cascade.CascadeSettles(ArbitratedStore(log), cfg.text);
    KeyRefers(s, cfg.text, t, r, fk, parent);
    GoneIsDead(s, fk.refTable, parent);
    assert Cascade.IsVisibleNode(s, (t, r));
  }

  // ----- What is hidden -----

  /** The row's key names the parent. */
  ghost predicate Names(s: Store, text: Bytes -> Text, x: Cascade.Node, y: Cascade.Node) {
    exists fk :: HoldsKey(s, text, x.0, x.1, fk, y.1) && fk.refTable == y.0
  }

  /** Visible rows, each of which names the next, up to a row that is gone. */
  ghost predicate LeadsToGone(s: Store, text: Bytes -> Text, p: seq<Cascade.Node>) {
    && |p| > 1
    && (forall i :: 0 <= i < |p| - 1 ==> Seen(s, p[i].0, p[i].1) && Names(s, text, p[i], p[i + 1]))
    && Gone(s, p[|p| - 1].0, p[|p| - 1].1)
  }

  ghost predicate Starts(s: Store, text: Bytes -> Text, x: Cascade.Node, p: seq<Cascade.Node>) {
    LeadsToGone(s, text, p) && p[0] == x
  }

  lemma NamesIsRefers(s: Store, text: Bytes -> Text, x: Cascade.Node, y: Cascade.Node)
    ensures Names(s, text, x, y) <==> Cascade.Refers(s, text, x, y)
  {
    if fk :| HoldsKey(s, text, x.0, x.1, fk, y.1) && fk.refTable == y.0 {
      KeyRefers(s, text, x.0, x.1, fk, y.1);
      assert x == (x.0, x.1) && y == (y.0, y.1);
    }
    if Cascade.Refers(s, text, x, y) { var fk := RefersHasKey(s, text, x, y); }
  }

  lemma DropFirst(s: Store, text: Bytes -> Text, p: seq<Cascade.Node>)
    requires LeadsToGone(s, text, p) && |p| > 2
    ensures LeadsToGone(s, text, p[1..])
  {
    var q := p[1..];
    forall i | 0 <= i < |q| - 1 ensures Seen(s, q[i].0, q[i].1) && Names(s, text, q[i], q[i + 1]) {
      assert q[i] == p[i + 1] && q[i + 1] == p[i + 2];
    }
  }

  lemma {:induction false} PathIsDoomed(s: Store, text: Bytes -> Text, p: seq<Cascade.Node>, d: set<Cascade.Node>)
    requires LeadsToGone(s, text, p) && Cascade.Closed(s, text, d)
    ensures p[0] in d
  {
    var x, y := p[0], p[1];
    NamesIsRefers(s, text, x, y);
    GoneIsDead(s, y.0, y.1);
    assert Cascade.IsVisibleNode(s, x) && y == (y.0, y.1);
    if |p| > 2 {
      DropFirst(s, text, p);
      PathIsDoomed(s, text, p[1..], d);
    }
  }

  ghost function OnPath(s: Store, text: Bytes -> Text): set<Cascade.Node> {
    set x | x in Cascade.VisibleNodes(s) && exists p :: Starts(s, text, x, p)
  }

  lemma Prepend(s: Store, text: Bytes -> Text, x: Cascade.Node, p: seq<Cascade.Node>)
    requires LeadsToGone(s, text, p) && Seen(s, x.0, x.1) && Names(s, text, x, p[0])
    ensures Starts(s, text, x, [x] + p)
  {
    var q := [x] + p;
    forall i | 0 <= i < |q| - 1 ensures Seen(s, q[i].0, q[i].1) && Names(s, text, q[i], q[i + 1]) {
      if i > 0 { assert q[i] == p[i - 1] && q[i + 1] == p[i]; }
    }
  }

  lemma PathsAreClosed(s: Store, text: Bytes -> Text)
    ensures Cascade.Closed(s, text, OnPath(s, text))
  {
    forall x, y | Cascade.IsVisibleNode(s, x) && Cascade.Refers(s, text, x, y) && (Cascade.IsDead(s, y) || y in OnPath(s, text))
      ensures x in OnPath(s, text)
    {
      NamesIsRefers(s, text, x, y);
      GoneIsDead(s, y.0, y.1);
      assert x == (x.0, x.1) && y == (y.0, y.1);
      if Cascade.IsDead(s, y) {
        assert Starts(s, text, x, [x, y]);
      } else {
        var p :| Starts(s, text, y, p);
        Prepend(s, text, x, p);
      }
    }
  }

  /** The cascade dooms exactly the rows from which keys lead, row by visible row, to one
      that is gone; rows that merely name each other in a circle stay. */
  lemma DoomedIffPath(s: Store, text: Bytes -> Text, x: Cascade.Node)
    ensures x in Cascade.Doomed(s, text) <==> exists p :: Starts(s, text, x, p)
  {
    PathsAreClosed(s, text);
    Cascade.DoomedIsLeast(s, text, OnPath(s, text));
    if p :| Starts(s, text, x, p) {
      Cascade.DoomedIsClosed(s, text);
      PathIsDoomed(s, text, p, Cascade.Doomed(s, text));
    }
  }

  /** A cascading rebuild rewrites no cell and hides, of the rows arbitration left visible,
      exactly those from which keys lead to a row that is gone. */
  lemma RebuiltHidesIff(cfg: Config, log: seq<Op>, t: Text, r: Text)
    requires cfg.policy.Cascade? && Seen(ArbitratedStore(log), t, r)
    ensures var a, s := ArbitratedStore(log), RebuildOf(cfg, log).store;
      && s.Keys == a.Keys && (forall u :: u in s ==> s[u].schema == a[u].schema && s[u].rows == a[u].rows)
      && (!Seen(s, t, r) <==> exists p :: Starts(a, cfg.text, (t, r), p))
  {
    var a := ArbitratedStore(log);
    Cascade.KillSeen(a, Cascade.Doomed(a, cfg.text), (t, r));
    DoomedIffPath(a, cfg.text, (t, r));
  }

  /** What it hides has a key whose parent ends up gone. */
  lemma RebuiltHidesOrphans(cfg: Config, log: seq<Op>, t: Text, r: Text) returns (fk: ForeignKey, parent: Text)
    requires cfg.policy.Cascade? && Seen(ArbitratedStore(log), t, r) && !Seen(RebuildOf(cfg, log).store, t, r)
    ensures var s := RebuildOf(cfg, log).store; HoldsKey(s, cfg.text, t, r, fk, parent) && Gone(s, fk.refTable, parent)
  {
    var a, s := ArbitratedStore(log), RebuildOf(cfg, log).store;
    var d := Cascade.Doomed(a, cfg.text);
    RebuiltHidesIff(cfg, log, t, r);
    var p: seq<Cascade.Node> :| Starts(a, cfg.text, (t, r), p);
    var y := p[1];
    fk :| HoldsKey(a, cfg.text, t, r, fk, y.1) && fk.refTable == y.0;
    parent := y.1;
    Cascade.DoomedIsClosed(a, cfg.text);
    Cascade.KillSeen(a, d, y);
    GoneIsDead(a, y.0, y.1);
    GoneIsDead(s, y.0, y.1);
    if |p| > 2 {
      DropFirst(a, cfg.text, p);
      PathIsDoomed(a, cfg.text, p[1..], d);
    }
    assert y == (y.0, y.1);
  }
}
