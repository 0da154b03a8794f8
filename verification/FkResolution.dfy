/** Foreign-key policies: validation of inserts and the eager cascade of a local delete. */
module FkResolution {
  import opened ByteStrings
  import opened Clocks
  import opened RowStores
  import OrSets
  import Cascade

  datatype Policy = Tombstone | Cascade | Orphan

  datatype FkError = NoSuchTable(table: Text) | NoSuchParent(table: Text, row: Text)

  datatype Checked = Accepted | Rejected(error: FkError)

  /** A parent counts while it is live or tombstoned; only Orphan does without it. */
  function ValidateInsert(policy: Policy, s: Store, key: Text, parent: Text): Checked {
    if parent !in s then Rejected(NoSuchTable(parent))
    else if OrSets.ExistsForFk(s[parent].membership, key) then Accepted
    else if policy.Orphan? then Accepted
    else Rejected(NoSuchParent(parent, key))
  }

  /** The parent's table is known, and so is the row, by a token that was not removed or by a
      tombstone; under Orphan the table is enough. */
  predicate ParentFits(policy: Policy, s: Store, parent: Text, key: Text) {
    parent in s && (policy.Orphan? || (key in s[parent].membership &&
      (!(s[parent].membership[key].live <= s[parent].membership[key].removed) || s[parent].membership[key].tombstone.Some?)))
  }

  /** The check accepts exactly the parents that fit; it refuses an unknown table before an unknown row. */
  lemma ValidateInsertIff(policy: Policy, s: Store, key: Text, parent: Text)
    ensures ValidateInsert(policy, s, key, parent).Accepted? <==> ParentFits(policy, s, parent, key)
    ensures !ParentFits(policy, s, parent, key) ==>
      ValidateInsert(policy, s, key, parent) == Rejected(if parent in s then NoSuchParent(parent, key) else NoSuchTable(parent))
  {
    if parent in s && key in s[parent].membership {
      var e := s[parent].membership[key];
      if e.live - e.removed == {} {
        forall h | h in e.live ensures h in e.removed { assert h !in e.live - e.removed; }
      }
    }
  }

  // ----- Eager cascade -----

  /** The visible rows of `t` one of whose keys into `parent` holds exactly `row`. */
  function ChildrenIn(s: Store, t: Text, parent: Text, row: Text): set<Text> {
    if t !in s then {}
    else set r | r in s[t].membership && IsVisible(s[t], r)
               && exists fk :: fk in s[t].schema.foreignKeys && fk.refTable == parent
                            && ReadCell(s[t].rows[r], fk.column) == Some(row)
  }

  ghost function Children(s: Store, parent: Text, row: Text): set<Cascade.Node> {
    set t, r | t in s && r in ChildrenIn(s, t, parent, row) :: (t, r)
  }

  /** The effect of a local delete under the cascade policy: the direct children go too. */
  ghost function EagerCascade(s: Store, parent: Text, row: Text): Store {
    Cascade.Kill(s, Children(s, parent, row))
  }

  ghost function ChildrenAmong(s: Store, ts: set<Text>, parent: Text, row: Text): set<Cascade.Node> {
    set t, r | t in s && t in ts && r in ChildrenIn(s, t, parent, row) :: (t, r)
  }

  lemma UntouchedChildren(s: Store, d: set<Cascade.Node>, t: Text, parent: Text, row: Text)
    requires forall r :: (t, r) !in d
    ensures ChildrenIn(Cascade.Kill(s, d), t, parent, row) == ChildrenIn(s, t, parent, row)
  {
    if t in s {
      assert Cascade.KillIn(s[t].membership, t, d) == s[t].membership;
      assert Cascade.Kill(s, d)[t] == s[t];
    }
  }

  method CascadeDelete(s0: Store, parent: Text, row: Text, h: Hlc) returns (s: Store, deleted: set<Cascade.Node>)
    ensures s == EagerCascade(s0, parent, row)
    ensures deleted == Children(s0, parent, row)
  {
    Cascade.KillNothing(s0);
    s, deleted := s0, {};
    var todo := s0.Keys;
    while todo != {}
      invariant todo <= s0.Keys
      invariant deleted == ChildrenAmong(s0, s0.Keys - todo, parent, row)
      invariant s == Cascade.Kill(s0, deleted)
      decreases todo
    {
      var t :| t in todo;
      UntouchedChildren(s0, deleted, t, parent, row);
      var children := ChildrenIn(s, t, parent, row);
      var times := map r | r in children :: h;
      s := Cascade.DeleteAll(s, t, times, s0, deleted);
      assert times.Keys == children;
      deleted := deleted + Cascade.NodesOf(t, children);
      todo := todo - {t};
    }
    assert deleted == Children(s0, parent, row);
  }
}
