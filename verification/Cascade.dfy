/** The cascade fixpoint of a rebuild: deletes spread along foreign keys until
    no visible row refers to a row that is not live. */
module Cascade {
  import opened ByteStrings
  import opened Clocks
  import opened Ops
  import opened RowStores
  import OrSets

  /** A row, named by table and row id. */
  type Node = (Text, Text)

  datatype Link = Link(child: Text, column: Text, parent: Text)

  ghost predicate KeyLink(fks: seq<ForeignKey>, l: Link) {
    exists fk :: fk in fks && fk.column == l.column && fk.refTable == l.parent
  }

  /** `l` is a foreign key of the child table's schema. */
  ghost predicate IsLink(s: Store, l: Link) {
    l.child in s && KeyLink(s[l.child].schema.foreignKeys, l)
  }

  method LinksOf(t: Text, fks: seq<ForeignKey>) returns (links: seq<Link>)
    ensures forall l :: l in links <==> l.child == t && KeyLink(fks, l)
  {
    links := [];
    for j := 0 to |fks|
      invariant forall l :: l in links <==> l.child == t && KeyLink(fks[..j], l)
    {
      assert fks[..j + 1] == fks[..j] + [fks[j]];
      links := links + [Link(t, fks[j].column, fks[j].refTable)];
    }
    assert fks[..|fks|] == fks;
  }

  /** All foreign keys of the store; their order does not matter below. */
  method FkMap(s: Store) returns (links: seq<Link>)
    ensures forall l :: l in links <==> IsLink(s, l)
  {
    links := [];
    var todo := s.Keys;
    while todo != {}
      invariant todo <= s.Keys
      invariant forall l :: l in links <==> l.child in s.Keys - todo && IsLink(s, l)
      decreases todo
    {
      var t :| t in todo;
      var more := LinksOf(t, s[t].schema.foreignKeys);
      links := links + more;
      todo := todo - {t};
    }
  }

  ghost predicate IsVisibleNode(s: Store, x: Node) {
    x.0 in s && OrSets.Visible(s[x.0].membership, x.1)
  }

  ghost function VisibleNodes(s: Store): set<Node> {
    set t, r | t in s && r in s[t].membership && IsVisibleNode(s, (t, r)) :: (t, r)
  }

  /** A row that has a membership entry but no live token. */
  ghost predicate IsDead(s: Store, y: Node) {
    y.0 in s && y.1 in s[y.0].membership && !s[y.0].membership[y.1].IsLive()
  }

  /** The text of a cell: `text` decodes bytes as `from_utf8_lossy` does. */
  function CellText(t: Table, r: Text, c: Text, text: Bytes -> Text): Option<Text> {
    if r !in t.rows then None
    else match ReadCell(t.rows[r], c)
         case None => None
         case Some(v) => Some(text(v))
  }

  ghost predicate RefersBy(s: Store, text: Bytes -> Text, l: Link, x: Node, y: Node) {
    x.0 == l.child && y.0 == l.parent && x.0 in s && CellText(s[x.0], x.1, l.column, text) == Some(y.1)
  }

  ghost predicate Refers(s: Store, text: Bytes -> Text, x: Node, y: Node) {
    exists l :: IsLink(s, l) && RefersBy(s, text, l, x, y)
  }

  /** `d` holds every visible row that refers to a dead row or to a member of `d`. */
  ghost predicate Closed(s: Store, text: Bytes -> Text, d: set<Node>) {
    forall x, y :: IsVisibleNode(s, x) && Refers(s, text, x, y) && (IsDead(s, y) || y in d) ==> x in d
  }

  /** The least closed set of visible rows. */
  ghost function Doomed(s: Store, text: Bytes -> Text): set<Node> {
    set x | x in VisibleNodes(s) && InEveryClosed(s, text, x)
  }

  ghost predicate InEveryClosed(s: Store, text: Bytes -> Text, x: Node) {
    forall d :: Closed(s, text, d) ==> x in d
  }

  lemma DoomedIsClosed(s: Store, text: Bytes -> Text)
    ensures Closed(s, text, Doomed(s, text)) && Doomed(s, text) <= VisibleNodes(s)
  {
    var least := Doomed(s, text);
    forall x, y | IsVisibleNode(s, x) && Refers(s, text, x, y) && (IsDead(s, y) || y in least) ensures x in least {
      assert x == (x.0, x.1) && x in VisibleNodes(s);
      forall d | Closed(s, text, d) ensures x in d { }
    }
  }

  /** The doomed rows are in every closed set: they are the least fixpoint. */
  lemma DoomedIsLeast(s: Store, text: Bytes -> Text, d: set<Node>)
    requires Closed(s, text, d)
    ensures Doomed(s, text) <= d
  {
  }

  // ----- Deleting a set of rows -----

  function KillEntry(e: OrSets.OrEntry): OrSets.OrEntry {
    e.(removed := e.removed + e.live)
  }

  ghost function Kill(s: Store, d: set<Node>): Store {
    map t | t in s :: s[t].(membership := KillIn(s[t].membership, t, d))
  }

  function DeleteNode(s: Store, x: Node, h: Hlc): Store {
    if x.0 in s then s[x.0 := DeleteRowOf(s[x.0], x.1, h, false)] else s
  }

  lemma KillNothing(s: Store)
    ensures Kill(s, {}) == s
  {
    forall t | t in s ensures Kill(s, {})[t] == s[t] {
      assert KillIn(s[t].membership, t, {}) == s[t].membership;
    }
  }

  ghost function KillIn(m: OrSets.Membership, t: Text, d: set<Node>): OrSets.Membership {
    map r | r in m :: if (t, r) in d then KillEntry(m[r]) else m[r]
  }

  lemma KillOneIn(m: OrSets.Membership, t: Text, d: set<Node>, x: Node, h: Hlc)
    ensures KillIn(m, t, d + {x}) == if t == x.0 then OrSets.DeleteOf(KillIn(m, t, d), x.1, h, false) else KillIn(m, t, d)
  {
    forall r | r in m ensures KillEntry(KillEntry(m[r])) == KillEntry(m[r]) {
      assert m[r].removed + m[r].live + m[r].live == m[r].removed + m[r].live;
    }
  }

  lemma KillOne(s: Store, d: set<Node>, x: Node, h: Hlc)
    ensures DeleteNode(Kill(s, d), x, h) == Kill(s, d + {x})
  {
    forall t | t in s ensures DeleteNode(Kill(s, d), x, h)[t] == Kill(s, d + {x})[t] {
      KillOneIn(s[t].membership, t, d, x, h);
    }
  }

  /** Deleting rows changes neither foreign keys nor cells. */
  lemma KillLooks(s: Store, d: set<Node>, text: Bytes -> Text)
    ensures forall l :: IsLink(Kill(s, d), l) <==> IsLink(s, l)
    ensures forall l, x, y :: RefersBy(Kill(s, d), text, l, x, y) <==> RefersBy(s, text, l, x, y)
  {
  }

  lemma KillSeen(s: Store, d: set<Node>, x: Node)
    ensures IsVisibleNode(Kill(s, d), x) <==> IsVisibleNode(s, x) && x !in d
    ensures IsDead(Kill(s, d), x) <==> IsDead(s, x) || (x in d && x.0 in s && x.1 in s[x.0].membership)
  {
    if x.0 in s && x.1 in s[x.0].membership {
      var e := s[x.0].membership[x.1];
      assert e.live - (e.removed + e.live) == {};
      assert x == (x.0, x.1);
    }
  }

  /** The store a cascading rebuild ends with. */
  ghost function CascadeOf(s: Store, text: Bytes -> Text): Store {
    Kill(s, Doomed(s, text))
  }

  /** After the cascade no visible row refers to a row that is not live, and what
      was hidden is exactly the least closed set. */
  lemma CascadeSettles(s: Store, text: Bytes -> Text)
    ensures var c := CascadeOf(s, text);
      && (forall x, y :: IsVisibleNode(c, x) && Refers(c, text, x, y) ==> !IsDead(c, y))
      && (forall x :: IsVisibleNode(c, x) <==> IsVisibleNode(s, x) && x !in Doomed(s, text))
  {
    var d, c := Doomed(s, text), CascadeOf(s, text);
    DoomedIsClosed(s, text);
    KillLooks(s, d, text);
    forall x ensures IsVisibleNode(c, x) <==> IsVisibleNode(s, x) && x !in d { KillSeen(s, d, x); }
    forall x, y | IsVisibleNode(c, x) && Refers(c, text, x, y) ensures !IsDead(c, y) {
      KillSeen(s, d, x);
      KillSeen(s, d, y);
      assert Refers(s, text, x, y);
    }
  }

  // ----- The fixpoint loop -----

  /** The deletion time the source derives for a parent that is not live. */
  function DeathTime(e: OrSets.OrEntry): Hlc {
    match e.tombstone
    case Some(h) => h
    case None => if e.removed != {} then Latest(e.removed) else Hlc(0, 0, Ascii("__cascade__"))
  }

  function CascadeHlc(e: OrSets.OrEntry): Hlc {
    var h := DeathTime(e);
    Hlc(h.wall, Succ32(h.logical), Ascii("__cascade__"))
  }

  function DeadRows(s: Store, t: Text): set<Text> {
    if t !in s then {} else set r | r in s[t].membership && !s[t].membership[r].IsLive()
  }

  /** Visible rows of the child table whose key names a dead row of the parent. */
  function ToCascade(s: Store, text: Bytes -> Text, l: Link): set<Text> {
    if l.child !in s then {}
    else set r | r in s[l.child].membership && OrSets.Visible(s[l.child].membership, r)
               && CellText(s[l.child], r, l.column, text).Some?
               && CellText(s[l.child], r, l.column, text).value in DeadRows(s, l.parent)
  }

  /** The children to delete, each with the time derived from its dead parent. */
  function CascadeTimes(s: Store, text: Bytes -> Text, l: Link): map<Text, Hlc> {
    map r | r in ToCascade(s, text, l) ::
      CascadeHlc(s[l.parent].membership[CellText(s[l.child], r, l.column, text).value])
  }

  function NodesOf(t: Text, rs: set<Text>): set<Node> {
    set r | r in rs :: (t, r)
  }

  method DeleteAll(s0: Store, t: Text, times: map<Text, Hlc>, ghost base: Store, ghost d: set<Node>) returns (s: Store)
    requires s0 == Kill(base, d)
    ensures s == Kill(base, d + NodesOf(t, times.Keys))
  {
    s := s0;
    var todo := times.Keys;
    assert times.Keys - todo == {} && d + NodesOf(t, {}) == d;
    while todo != {}
      invariant todo <= times.Keys
      invariant s == Kill(base, d + NodesOf(t, times.Keys - todo))
      decreases todo
    {
      var r :| r in todo;
      ghost var done := times.Keys - todo;
      s := DeleteNode(s, (t, r), times[r]);
      KillOne(base, d + NodesOf(t, done), (t, r), times[r]);
      todo := todo - {r};
      assert times.Keys - todo == done + {r};
      assert d + NodesOf(t, done) + {(t, r)} == d + NodesOf(t, done + {r});
    }
    assert times.Keys - {} == times.Keys;
  }

  lemma ChildrenAreDoomed(s: Store, text: Bytes -> Text, d: set<Node>, l: Link)
    requires d <= Doomed(s, text) && IsLink(s, l)
    ensures forall r :: r in ToCascade(Kill(s, d), text, l) ==> (l.child, r) in Doomed(s, text) - d
  {
    DoomedIsClosed(s, text);
    KillLooks(s, d, text);
    forall r | r in ToCascade(Kill(s, d), text, l) ensures (l.child, r) in Doomed(s, text) - d {
      var k := Kill(s, d);
      var x: Node, y: Node := (l.child, r), (l.parent, CellText(k[l.child], r, l.column, text).value);
      KillSeen(s, d, x);
      KillSeen(s, d, y);
      assert RefersBy(k, text, l, x, y) && RefersBy(s, text, l, x, y);
      assert Refers(s, text, x, y);
    }
  }

  lemma QuietLink(s: Store, text: Bytes -> Text, d: set<Node>, l: Link, x: Node, y: Node)
    requires Idle(Kill(s, d), text, l)
    requires IsVisibleNode(s, x) && RefersBy(s, text, l, x, y)
    requires IsDead(s, y) || (y in d && IsVisibleNode(s, y))
    ensures x in d
  {
    var k := Kill(s, d);
    KillLooks(s, d, text);
    KillSeen(s, d, x);
    KillSeen(s, d, y);
    assert RefersBy(k, text, l, x, y) && IsDead(k, y);
    assert x.1 !in ToCascade(k, text, l);
  }

  /** The foreign key has no visible child of a dead parent. */
  ghost predicate Idle(s: Store, text: Bytes -> Text, l: Link) {
    ToCascade(s, text, l) == {}
  }

  ghost predicate Quiet(s: Store, text: Bytes -> Text, links: seq<Link>) {
    forall l :: l in links ==> Idle(s, text, l)
  }

  ghost predicate AllLinks(s: Store, links: seq<Link>) {
    forall l :: l in links <==> IsLink(s, l)
  }

  lemma QuietIsClosed(s: Store, text: Bytes -> Text, d: set<Node>, links: seq<Link>)
    requires d <= VisibleNodes(s) && AllLinks(s, links)
    requires Quiet(Kill(s, d), text, links)
    ensures Closed(s, text, d)
  {
    forall x, y | IsVisibleNode(s, x) && Refers(s, text, x, y) && (IsDead(s, y) || y in d) ensures x in d {
      var l :| IsLink(s, l) && RefersBy(s, text, l, x, y);
      assert y in d ==> y in VisibleNodes(s);
      QuietLink(s, text, d, l, x, y);
    }
  }

  /** What is hidden so far: part of the doomed rows. */
  ghost predicate Progress(base: Store, text: Bytes -> Text, s: Store, d: set<Node>) {
    s == Kill(base, d) && d <= Doomed(base, text)
  }

  lemma ProgressShrinks(base: Store, text: Bytes -> Text, d0: set<Node>, d: set<Node>)
    requires d0 < d <= Doomed(base, text)
    ensures VisibleNodes(base) - d < VisibleNodes(base) - d0
  {
    DoomedIsClosed(base, text);
  }

  lemma ProgressEnds(base: Store, text: Bytes -> Text, s: Store, d: set<Node>, links: seq<Link>)
    requires Progress(base, text, s, d) && Quiet(s, text, links) && AllLinks(base, links)
    ensures s == CascadeOf(base, text)
  {
    DoomedIsClosed(base, text);
    QuietIsClosed(base, text, d, links);
    DoomedIsLeast(base, text, d);
    assert d == Doomed(base, text);
  }

  /** Delete the children one foreign key dooms. */
  method PassLink(s0: Store, text: Bytes -> Text, l: Link, ghost base: Store, ghost d0: set<Node>)
    returns (s: Store, changed: bool, ghost d: set<Node>)
    requires Progress(base, text, s0, d0) && IsLink(base, l)
    ensures Progress(base, text, s, d) && d0 <= d
    ensures changed ==> d0 < d
    ensures !changed ==> d == d0 && s == s0 && Idle(s, text, l)
  {
    s, d := s0, d0;
    var times := CascadeTimes(s, text, l);
    assert times.Keys == ToCascade(s, text, l);
    changed := times.Keys != {};
    if changed {
      ChildrenAreDoomed(base, text, d, l);
      ghost var r :| r in times.Keys;
      assert (l.child, r) in NodesOf(l.child, times.Keys);
      s := DeleteAll(s, l.child, times, base, d);
      d := d + NodesOf(l.child, times.Keys);
    }
  }

  /** One pass over the foreign keys: hides only doomed rows, and either hides
      some row or finds nothing left to hide. */
  method Pass(s0: Store, text: Bytes -> Text, fkMap: seq<Link>, ghost base: Store, ghost d0: set<Node>)
    returns (s: Store, changed: bool, ghost d: set<Node>)
    requires Progress(base, text, s0, d0) && AllLinks(base, fkMap)
    ensures Progress(base, text, s, d)
    ensures if changed then d0 < d else d == d0 && Quiet(s, text, fkMap)
  {
    s, changed, d := s0, false, d0;
    for i := 0 to |fkMap|
      invariant Progress(base, text, s, d) && d0 <= d
      invariant changed ==> d0 < d
      invariant !changed ==> d == d0 && Quiet(s, text, fkMap[..i])
    {
      assert fkMap[i] in fkMap;
      var fired;
      s, fired, d := PassLink(s, text, fkMap[i], base, d);
      changed := changed || fired;
      assert fkMap[..i + 1] == fkMap[..i] + [fkMap[i]];
    }
    assert fkMap[..|fkMap|] == fkMap;
  }

  /** The loop of the rebuild terminates, cyclic references included, and computes
      the cascade whatever the order of the foreign keys. */
  method RunCascade(s0: Store, text: Bytes -> Text) returns (s: Store)
    ensures s == CascadeOf(s0, text)
  {
    var fkMap := FkMap(s0);
    ghost var d: set<Node>;
    s, d := Settle(s0, text, fkMap);
    ProgressEnds(s0, text, s, d, fkMap);
  }

  method Settle(s0: Store, text: Bytes -> Text, fkMap: seq<Link>) returns (s: Store, ghost d: set<Node>)
    requires AllLinks(s0, fkMap)
    ensures Progress(s0, text, s, d) && Quiet(s, text, fkMap)
  {
    KillNothing(s0);
    s, d := s0, {};
    ghost var left := VisibleNodes(s0);
    var changed := true;
    while changed
      invariant Progress(s0, text, s, d) && left == VisibleNodes(s0) - d
      invariant !changed ==> Quiet(s, text, fkMap)
      decreases left, changed
    {
      ghost var d0 := d;
      s, changed, d := Pass(s, text, fkMap, s0, d);
      if changed { ProgressShrinks(s0, text, d0, d); }
      left := VisibleNodes(s0) - d;
    }
  }
}
