/** Which claims lose and which cells they null, read off the set of ops alone. */
module LosingClaims {
  import opened ByteStrings
  import opened Clocks
  import opened Ops
  import opened Sorting
  import opened Rebuild
  import opened Arbitration
  import U = Uniqueness

  // ----- Claims among the ops -----

  ghost predicate SameValue(p: Op, q: Op) {
    p.ReserveUnique? && q.ReserveUnique? && p.table == q.table && p.column == q.column && p.value == q.value
  }

  ghost predicate SameClaimer(p: Op, q: Op) {
    SameValue(p, q) && p.row == q.row && p.hlc.peer == q.hlc.peer
  }

  /** The earliest claim of its row and peer on its value; later ones are ignored. */
  ghost predicate IsFirstClaim(ops: set<Op>, p: Op) {
    p in ops && p.ReserveUnique? && forall q :: q in ops && SameClaimer(q, p) ==> !Before(q.hlc, p.hlc)
  }

  /** A first claim on the same value is later. */
  ghost predicate Loses(ops: set<Op>, p: Op) {
    IsFirstClaim(ops, p) && exists q :: IsFirstClaim(ops, q) && SameValue(p, q) && Before(p.hlc, q.hlc)
  }

  /** A losing claim of row `r` that nulls column `c`. */
  ghost predicate Nulls(ops: set<Op>, t: Text, r: Text, c: Text, p: Op) {
    Loses(ops, p) && p.table == t && p.row == r && c in ColsToNull(p.column)
  }

  /** The order in which losing claims null: by column name, value, time. */
  predicate NullsBefore(p: Op, q: Op)
    requires p.ReserveUnique? && q.ReserveUnique?
  {
    Less(p.column, q.column) || (p.column == q.column && (Less(p.value, q.value) || (p.value == q.value && Before(p.hlc, q.hlc))))
  }

  /** The claim whose null-write stays: all others share its pseudo-peer and came before. */
  ghost predicate NullsLast(ops: set<Op>, t: Text, r: Text, c: Text, p: Op) {
    Nulls(ops, t, r, c, p) && forall q :: Nulls(ops, t, r, c, q) && q != p ==> NullsBefore(q, p)
  }

  ghost function EarlierClaims(ops: set<Op>, p: Op): set<Op> {
    set q | q in ops && SameClaimer(q, p) && Before(q.hlc, p.hlc)
  }

  /** Behind every claim stands a first one of its row and peer. */
  lemma {:induction false} HasFirstClaim(ops: set<Op>, p: Op) returns (f: Op)
    requires p in ops && p.ReserveUnique?
    ensures IsFirstClaim(ops, f) && SameClaimer(f, p)
    decreases EarlierClaims(ops, p)
  {
    f := p;
    if q :| q in EarlierClaims(ops, p) {
      forall x | x in EarlierClaims(ops, q) ensures x in EarlierClaims(ops, p) { BeforeIsTransitive(x.hlc, q.hlc, p.hlc); }
      BeforeIsTotal(q.hlc, q.hlc);
      assert q !in EarlierClaims(ops, q);
      f := HasFirstClaim(ops, q);
    } else {
      forall q | q in ops && SameClaimer(q, p) ensures !Before(q.hlc, p.hlc) { assert q !in EarlierClaims(ops, p); }
    }
  }

  /** Of two rows that claim one value one loses a claim on it. */
  lemma OneLoses(ops: set<Op>, p: Op, q: Op) returns (l: Op)
    requires WellFormed(ops) && p in ops && q in ops && SameValue(p, q) && p.row != q.row
    ensures Loses(ops, l) && SameValue(l, p) && (l.row == p.row || l.row == q.row)
  {
    var f := HasFirstClaim(ops, p);
    var g := HasFirstClaim(ops, q);
    assert f.hlc == g.hlc ==> SameGroup(f, g);
    BeforeIsTotal(f.hlc, g.hlc);
    l := if Before(f.hlc, g.hlc) then f else g;
  }

  // ----- What an election records -----

  ghost function ClaimSeq(rs: seq<U.Reservation>): seq<U.Claim> {
    seq(|rs|, i requires 0 <= i < |rs| => U.ClaimOf(rs[i]))
  }

  ghost function ClaimOp(t: Text, c: Text, v: Bytes, k: U.Claim): Op {
    ReserveUnique(t, k.row, k.hlc, c, v)
  }

  ghost predicate Listed(cs: seq<U.Claim>, p: Op)
    requires p.ReserveUnique?
  {
    exists k :: k in cs && k.row == p.row && k.peer == p.hlc.peer
  }

  /** `cs` lists first claims on the value in the order of their times, and some claim of
      every row and peer that claims it. */
  ghost predicate ListsFirsts(ops: set<Op>, cs: seq<U.Claim>, t: Text, c: Text, v: Bytes) {
    && (forall k :: k in cs ==> k.peer == k.hlc.peer && IsFirstClaim(ops, ClaimOp(t, c, v, k)))
    && (forall p :: p in ops && p.Reserves(t, c) && p.value == v ==> Listed(cs, p))
    && (forall i, j :: 0 <= i < j < |cs| ==> Before(cs[i].hlc, cs[j].hlc))
  }

  lemma OtherOp(ops: set<Op>, cs: seq<U.Claim>, t: Text, c: Text, v: Bytes, o: Op)
    requires ListsFirsts(ops, cs, t, c, v) && !(o.Reserves(t, c) && o.value == v)
    ensures ListsFirsts(ops + {o}, cs, t, c, v)
  {
  }

  /** A claim replayed after the others is later than them. */
  lemma ReplayedLater(ops: set<Op>, o: Op, p: Op)
    requires WellFormed(ops + {o}) && o !in ops && p in ops && !ReplaysBefore(o, p) && SameValue(p, o)
    ensures Before(p.hlc, o.hlc)
  {
    BeforeIsTotal(p.hlc, o.hlc);
    assert p.hlc == o.hlc ==> SameGroup(p, o);
  }

  lemma FirstStays(ops: set<Op>, o: Op, p: Op)
    requires WellFormed(ops + {o}) && o !in ops && IsFirstClaim(ops, p) && !ReplaysBefore(o, p)
    ensures IsFirstClaim(ops + {o}, p)
  {
    if SameClaimer(o, p) {
      ReplayedLater(ops, o, p);
      BeforeIsTotal(p.hlc, o.hlc);
    }
  }

  lemma NextClaim(ops: set<Op>, cs: seq<U.Claim>, t: Text, c: Text, v: Bytes, o: Op)
    requires ListsFirsts(ops, cs, t, c, v) && o.Reserves(t, c) && o.value == v
    requires WellFormed(ops + {o}) && o !in ops && forall p :: p in ops ==> !ReplaysBefore(o, p)
    ensures ListsFirsts(ops + {o}, if Listed(cs, o) then cs else cs + [U.Claim(o.row, o.hlc.peer, o.hlc)], t, c, v)
  {
    var new' := U.Claim(o.row, o.hlc.peer, o.hlc);
    forall k | k in cs ensures IsFirstClaim(ops + {o}, ClaimOp(t, c, v, k)) && Before(k.hlc, o.hlc) {
      FirstStays(ops, o, ClaimOp(t, c, v, k));
      ReplayedLater(ops, o, ClaimOp(t, c, v, k));
    }
    assert forall q :: q in ops && SameClaimer(q, o) ==> Listed(cs, q) && Listed(cs, o);
    if !Listed(cs, o) {
      BeforeIsTotal(o.hlc, o.hlc);
      assert ClaimOp(t, c, v, new') == o;
      assert IsFirstClaim(ops + {o}, o);
      var all := cs + [new'];
      forall p | p in ops + {o} && p.Reserves(t, c) && p.value == v ensures Listed(all, p) {
        if p in ops {
          var k :| k in cs && k.row == p.row && k.peer == p.hlc.peer;
          assert k in all;
        } else {
          assert new' in all;
        }
      }
    }
  }

  /** A reservation appends its claim, unless one of its row and peer is there; re-election
      rewrites states only. */
  lemma ReserveAppends(idx: U.Index, r: U.Reservation)
    ensures var rs := U.ListFor(idx, r.value);
      ClaimSeq(U.ListFor(U.ReserveOf(idx, r), r.value))
        == if exists e :: e in rs && U.SameClaimant(e, r) then ClaimSeq(rs) else ClaimSeq(rs) + [U.ClaimOf(r)]
  {
    var rs := U.ListFor(idx, r.value);
    if !exists e :: e in rs && U.SameClaimant(e, r) {
      var all := rs + [r];
      assert U.ListFor(U.ReserveOf(idx, r), r.value) == if |all| <= 1 then all else U.Judge(all);
      assert ClaimSeq(all) == ClaimSeq(rs) + [U.ClaimOf(r)];
      assert ClaimSeq(U.Judge(all)) == ClaimSeq(all);
    }
  }

  lemma ListedIffClaimant(rs: seq<U.Reservation>, o: Op)
    requires o.ReserveUnique?
    ensures Listed(ClaimSeq(rs), o) <==> exists e :: e in rs && U.SameClaimant(e, ReservationFrom(o))
  {
    if k :| k in ClaimSeq(rs) && k.row == o.row && k.peer == o.hlc.peer {
      var i :| 0 <= i < |rs| && ClaimSeq(rs)[i] == k;
      assert rs[i] in rs;
    }
    if e :| e in rs && U.SameClaimant(e, ReservationFrom(o)) {
      var i :| 0 <= i < |rs| && rs[i] == e;
      assert ClaimSeq(rs)[i] in ClaimSeq(rs);
    }
  }

  lemma OtherList(u: UniqueState, o: Op, t: Text, c: Text, v: Bytes)
    requires !(o.Reserves(t, c) && o.value == v)
    ensures U.ListFor(IndexAt(ReserveIn(u, o), t, c), v) == U.ListFor(IndexAt(u, t, c), v)
  {
  }

  lemma {:induction false} ElectionLists(xs: seq<Op>, t: Text, c: Text, v: Bytes)
    requires Sorted(ReplaysBefore, xs) && NoDup(xs) && WellFormed(Elements(xs))
    ensures ListsFirsts(Elements(xs), ClaimSeq(U.ListFor(IndexAt(ReplayUnique(xs), t, c), v)), t, c, v)
  {
    if |xs| > 0 {
      var m := |xs| - 1;
      var o, before, u := xs[m], Elements(xs[..m]), ReplayUnique(xs[..m]);
      assert Elements(xs) == before + {o} by { assert xs == xs[..m] + [o]; }
      ElectionLists(xs[..m], t, c, v);
      forall p | p in before ensures p != o && !ReplaysBefore(o, p) { var i :| 0 <= i < m && xs[i] == p; }
      var rs := U.ListFor(IndexAt(u, t, c), v);
      if o.Reserves(t, c) && o.value == v {
        ReserveAppends(IndexAt(u, t, c), ReservationFrom(o));
        ListedIffClaimant(rs, o);
        NextClaim(before, ClaimSeq(rs), t, c, v, o);
      } else {
        OtherList(u, o, t, c, v);
        OtherOp(before, ClaimSeq(rs), t, c, v, o);
      }
    }
  }

  // ----- Who has lost -----

  ghost function UniqueStateOf(log: seq<Op>): UniqueState {
    ReplayUnique(ReplayOrder(log))
  }

  ghost function Reservations(log: seq<Op>, t: Text, c: Text, v: Bytes): seq<U.Reservation> {
    U.ListFor(IndexAt(UniqueStateOf(log), t, c), v)
  }

  /** In a list in the order of time the last entry wins and all others lose. */
  lemma LastWins(rs: seq<U.Reservation>, v: Bytes, conflicts: seq<U.Conflict>, i: nat)
    requires U.Elected(rs, v, conflicts) && i < |rs|
    requires forall i, j :: 0 <= i < j < |rs| ==> Before(rs[i].hlc, rs[j].hlc)
    ensures rs[i].state.Lost? <==> i + 1 < |rs|
  {
    var w := U.WinnerOf(rs);
    U.WinnerIsStrongest(rs, |rs| - 1);
    assert w == |rs| - 1;
    if |rs| > 1 { assert rs[i].state == U.Verdict(rs, i); }
  }

  lemma ListOfLog(log: seq<Op>, t: Text, c: Text, v: Bytes)
    requires NoDup(log) && WellFormed(Elements(log))
    ensures ListsFirsts(Elements(log), ClaimSeq(Reservations(log, t, c, v)), t, c, v)
    ensures Reservations(log, t, c, v) != [] ==>
      U.Elected(Reservations(log, t, c, v), v, IndexAt(UniqueStateOf(log), t, c).conflicts)
  {
    ReplayOrderSorts(log);
    ElectionLists(ReplayOrder(log), t, c, v);
    ColumnsAreIndependent(ReplayOrder(log), t, c);
    U.ElectionAlwaysOk(HistoryOf(ReplayOrder(log), t, c));
  }

  /** Position of a first claim in the list of its value. */
  lemma PlaceOf(ops: set<Op>, cs: seq<U.Claim>, t: Text, c: Text, v: Bytes, p: Op) returns (i: nat)
    requires ListsFirsts(ops, cs, t, c, v) && WellFormed(ops) && IsFirstClaim(ops, p) && p.Reserves(t, c) && p.value == v
    ensures i < |cs| && ClaimOp(t, c, v, cs[i]) == p
  {
    var k :| k in cs && k.row == p.row && k.peer == p.hlc.peer;
    var q := ClaimOp(t, c, v, k);
    assert SameClaimer(p, q) && SameClaimer(q, p);
    BeforeIsTotal(p.hlc, q.hlc);
    i :| 0 <= i < |cs| && cs[i] == k;
  }

  /** An entry of a rebuilt list has lost if and only if its claim loses. */
  lemma LostIffLoses(log: seq<Op>, t: Text, c: Text, v: Bytes, i: nat)
    requires NoDup(log) && WellFormed(Elements(log)) && i < |Reservations(log, t, c, v)|
    ensures var e := Reservations(log, t, c, v)[i];
      && IsFirstClaim(Elements(log), ReserveUnique(t, e.row, e.hlc, c, v)) && e.peer == e.hlc.peer
      && (e.state.Lost? <==> Loses(Elements(log), ReserveUnique(t, e.row, e.hlc, c, v)))
  {
    var ops, rs := Elements(log), Reservations(log, t, c, v);
    var cs, p := ClaimSeq(rs), ReserveUnique(t, rs[i].row, rs[i].hlc, c, v);
    ListOfLog(log, t, c, v);
    forall a, b | 0 <= a < b < |rs| ensures Before(rs[a].hlc, rs[b].hlc) { assert Before(cs[a].hlc, cs[b].hlc); }
    LastWins(rs, v, IndexAt(UniqueStateOf(log), t, c).conflicts, i);
    assert cs[i] in cs && ClaimOp(t, c, v, cs[i]) == p;
    if i + 1 < |rs| {
      assert cs[i + 1] in cs;
      var q := ClaimOp(t, c, v, cs[i + 1]);
      assert IsFirstClaim(ops, q) && SameValue(p, q) && Before(p.hlc, q.hlc);
    }
    if q :| IsFirstClaim(ops, q) && SameValue(p, q) && Before(p.hlc, q.hlc) {
      var j := PlaceOf(ops, cs, t, c, v, q);
      BeforeIsTotal(p.hlc, q.hlc);
      if j < i { BeforeIsTotal(cs[j].hlc, cs[i].hlc); }
    }
  }

  /** Elections, seen from the ops: a claim is on record as lost if and only if it is the
      first of its row and peer on its value and another first claim on the value is later. */
  lemma LostIff(log: seq<Op>, p: Op)
    requires NoDup(log) && WellFormed(Elements(log)) && p.ReserveUnique?
    ensures Loses(Elements(log), p) <==>
      exists e :: IsLost(UniqueStateOf(log), p.table, p.column, p.value, e) && e.row == p.row && e.hlc == p.hlc
  {
    var t, c, v := p.table, p.column, p.value;
    var rs := Reservations(log, t, c, v);
    if Loses(Elements(log), p) {
      ListOfLog(log, t, c, v);
      var i := PlaceOf(Elements(log), ClaimSeq(rs), t, c, v, p);
      LostIffLoses(log, t, c, v, i);
      assert IsLost(UniqueStateOf(log), t, c, v, rs[i]);
    }
    if e :| IsLost(UniqueStateOf(log), t, c, v, e) && e.row == p.row && e.hlc == p.hlc {
      var i :| 0 <= i < |rs| && rs[i] == e;
      LostIffLoses(log, t, c, v, i);
    }
  }

  // ----- The last null-write on a cell -----

  lemma {:induction false} LastHitConcat(xs: seq<NullWrite>, ys: seq<NullWrite>, t: Text, r: Text, c: Text)
    ensures LastHit(xs + ys, t, r, c) == if LastHit(ys, t, r, c).Some? then LastHit(ys, t, r, c) else LastHit(xs, t, r, c)
  {
    if |ys| == 0 {
      assert xs + ys == xs;
    } else {
      var m, zs := |ys| - 1, xs + ys;
      assert zs[..|zs| - 1] == xs + ys[..m] && zs[|zs| - 1] == ys[m];
      LastHitConcat(xs, ys[..m], t, r, c);
    }
  }

  /** The last hit of a nest of loops comes from the last round that hits at all. */
  lemma {:induction false} LastHitFlatMap<K>(ks: seq<K>, f: K -> seq<NullWrite>, t: Text, r: Text, c: Text) returns (i: nat)
    ensures i <= |ks| && forall j :: i < j < |ks| ==> LastHit(f(ks[j]), t, r, c).None?
    ensures i == |ks| ==> LastHit(FlatMap(ks, f), t, r, c).None? && forall j :: 0 <= j < |ks| ==> LastHit(f(ks[j]), t, r, c).None?
    ensures i < |ks| ==> LastHit(f(ks[i]), t, r, c).Some? && LastHit(FlatMap(ks, f), t, r, c) == LastHit(f(ks[i]), t, r, c)
  {
    if |ks| == 0 {
      i := 0;
    } else {
      var m := |ks| - 1;
      LastHitConcat(FlatMap(ks[..m], f), f(ks[m]), t, r, c);
      if LastHit(f(ks[m]), t, r, c).Some? {
        i := m;
      } else {
        i := LastHitFlatMap(ks[..m], f, t, r, c);
        if i == m { i := m + 1; }
      }
    }
  }

  lemma OneHit(t: Text, c': Text, e: U.Reservation, r: Text, c: Text)
    ensures LastHit(NullsOfReservation(t, c', e), t, r, c)
      == if e.state.Lost? && e.row == r && c in ColsToNull(c') then Some(NullHlc(e.hlc)) else None
  {
    var ns := NullsOfReservation(t, c', e);
    if e.state.Lost? { assert ns[..|ns| - 1] == []; }
  }

  /** `p` is the last of the claims on one value that null the cell. */
  ghost predicate LastOnValue(ops: set<Op>, t: Text, r: Text, c: Text, k: Text, v: Bytes, p: Op) {
    && Nulls(ops, t, r, c, p) && p.column == k && p.value == v
    && forall q :: Nulls(ops, t, r, c, q) && q.column == k && q.value == v && q != p ==> Before(q.hlc, p.hlc)
  }

  ghost predicate NoneOnValue(ops: set<Op>, t: Text, r: Text, c: Text, k: Text, v: Bytes) {
    forall q :: Nulls(ops, t, r, c, q) ==> !(q.column == k && q.value == v)
  }

  /** A claim that nulls the cell has its place in the list of its value, and hits there. */
  lemma NullsAt(log: seq<Op>, t: Text, r: Text, c: Text, q: Op) returns (j: nat)
    requires NoDup(log) && WellFormed(Elements(log)) && Nulls(Elements(log), t, r, c, q)
    ensures var rs := Reservations(log, t, q.column, q.value);
      j < |rs| && q == ReserveUnique(t, rs[j].row, rs[j].hlc, q.column, q.value)
      && LastHit(NullsOfReservation(t, q.column, rs[j]), t, r, c) == Some(NullHlc(q.hlc))
  {
    var k, v := q.column, q.value;
    ListOfLog(log, t, k, v);
    j := PlaceOf(Elements(log), ClaimSeq(Reservations(log, t, k, v)), t, k, v, q);
    LostIffLoses(log, t, k, v, j);
    OneHit(t, k, Reservations(log, t, k, v)[j], r, c);
  }

  /** No claim that nulls the cell lies behind the last round that hits. */
  lemma NullsUpTo(log: seq<Op>, t: Text, r: Text, c: Text, i: nat, q: Op)
    requires NoDup(log) && WellFormed(Elements(log)) && Nulls(Elements(log), t, r, c, q)
    requires forall j :: i < j < |Reservations(log, t, q.column, q.value)| ==>
      LastHit(NullsOfReservation(t, q.column, Reservations(log, t, q.column, q.value)[j]), t, r, c).None?
    ensures var rs := Reservations(log, t, q.column, q.value);
      i < |rs| ==> q == ReserveUnique(t, rs[i].row, rs[i].hlc, q.column, q.value) || Before(q.hlc, rs[i].hlc)
    ensures exists e :: e in Reservations(log, t, q.column, q.value) && LastHit(NullsOfReservation(t, q.column, e), t, r, c).Some?
  {
    var j := NullsAt(log, t, r, c, q);
    ListInTime(log, t, q.column, q.value, j, i);
  }

  lemma HitOnValue(log: seq<Op>, t: Text, r: Text, c: Text, k: Text, v: Bytes) returns (p: Op)
    requires NoDup(log) && WellFormed(Elements(log))
    ensures var hit := LastHit(NullsOfList(t, k, Reservations(log, t, k, v)), t, r, c);
      && (hit.None? ==> NoneOnValue(Elements(log), t, r, c, k, v))
      && (hit.Some? ==> LastOnValue(Elements(log), t, r, c, k, v, p) && hit == Some(NullHlc(p.hlc)))
  {
    var rs := Reservations(log, t, k, v);
    var i := LastHitFlatMap(rs, OfReservation(t, k), t, r, c);
    assert forall j :: 0 <= j < |rs| ==> OfReservation(t, k)(rs[j]) == NullsOfReservation(t, k, rs[j]);
    forall q | Nulls(Elements(log), t, r, c, q) && q.column == k && q.value == v
      ensures i < |rs| && (q == ReserveUnique(t, rs[i].row, rs[i].hlc, k, v) || Before(q.hlc, rs[i].hlc))
    {
      NullsUpTo(log, t, r, c, i, q);
    }
    p := ReserveUnique(t, r, Hlc(0, 0, []), k, v);
    if i < |rs| {
      p := ReserveUnique(t, rs[i].row, rs[i].hlc, k, v);
      OneHit(t, k, rs[i], r, c);
      LostIffLoses(log, t, k, v, i);
    }
  }

  lemma ListInTime(log: seq<Op>, t: Text, c: Text, v: Bytes, i: nat, j: nat)
    requires NoDup(log) && WellFormed(Elements(log))
    ensures i < j < |Reservations(log, t, c, v)| ==> Before(Reservations(log, t, c, v)[i].hlc, Reservations(log, t, c, v)[j].hlc)
  {
    ListOfLog(log, t, c, v);
    var cs := ClaimSeq(Reservations(log, t, c, v));
    assert i < j < |cs| ==> Before(cs[i].hlc, cs[j].hlc);
  }

  ghost predicate LastOnColumn(ops: set<Op>, t: Text, r: Text, c: Text, k: Text, p: Op) {
    && Nulls(ops, t, r, c, p) && p.column == k
    && forall q :: Nulls(ops, t, r, c, q) && q.column == k && q != p ==> NullsBefore(q, p)
  }

  ghost function ListHit(log: seq<Op>, t: Text, r: Text, c: Text, k: Text, v: Bytes): Option<Hlc> {
    LastHit(NullsOfList(t, k, Reservations(log, t, k, v)), t, r, c)
  }

  /** A claim that nulls the cell makes the round of its value hit. */
  lemma ValueHits(log: seq<Op>, t: Text, r: Text, c: Text, q: Op)
    requires NoDup(log) && WellFormed(Elements(log)) && Nulls(Elements(log), t, r, c, q)
    ensures ListHit(log, t, r, c, q.column, q.value).Some?
    ensures q.value in IndexAt(UniqueStateOf(log), t, q.column).reservations
  {
    var p := HitOnValue(log, t, r, c, q.column, q.value);
    var j := NullsAt(log, t, r, c, q);
  }

  /** Of strictly ascending keys, one that is not behind another is it or less than it. */
  lemma KeyUpTo(ks: seq<Text>, i: nat, k: Text)
    requires StrictlySorted(Less, ks) && k in ks && forall j :: i < j < |ks| ==> ks[j] != k
    ensures i < |ks| ==> k == ks[i] || Less(k, ks[i])
  {
    var j :| 0 <= j < |ks| && ks[j] == k;
    assert j <= i;
  }

  lemma ValueUpTo(log: seq<Op>, t: Text, r: Text, c: Text, vs: seq<Bytes>, i: nat, q: Op)
    requires NoDup(log) && WellFormed(Elements(log)) && Nulls(Elements(log), t, r, c, q)
    requires vs == SortedKeys(IndexAt(UniqueStateOf(log), t, q.column).reservations)
    requires forall j :: i < j < |vs| ==> ListHit(log, t, r, c, q.column, vs[j]).None?
    ensures exists j :: 0 <= j < |vs| && ListHit(log, t, r, c, q.column, vs[j]).Some?
    ensures i < |vs| ==> q.value == vs[i] || Less(q.value, vs[i])
  {
    ValueHits(log, t, r, c, q);
    assert q.value in vs;
    KeyUpTo(vs, i, q.value);
  }

  lemma HitOnColumn(log: seq<Op>, t: Text, r: Text, c: Text, k: Text) returns (p: Op)
    requires NoDup(log) && WellFormed(Elements(log))
    ensures (ColumnHit(log, t, r, c, k).None? ==> forall q :: Nulls(Elements(log), t, r, c, q) ==> q.column != k)
    ensures (ColumnHit(log, t, r, c, k).Some? ==>
               LastOnColumn(Elements(log), t, r, c, k, p) && ColumnHit(log, t, r, c, k) == Some(NullHlc(p.hlc)))
  {
    var idx := IndexAt(UniqueStateOf(log), t, k);
    var vs := SortedKeys(idx.reservations);
    var i := LastHitFlatMap(vs, OfValue(t, k, idx), t, r, c);
    forall j | 0 <= j < |vs| ensures ListHit(log, t, r, c, k, vs[j]) == LastHit(OfValue(t, k, idx)(vs[j]), t, r, c) { }
    forall q | Nulls(Elements(log), t, r, c, q) && q.column == k
      ensures i < |vs| && (q.value == vs[i] || Less(q.value, vs[i]))
    {
      ValueUpTo(log, t, r, c, vs, i, q);
    }
    p := ReserveUnique(t, r, Hlc(0, 0, []), k, []);
    if i < |vs| { p := HitOnValue(log, t, r, c, k, vs[i]); }
  }

  ghost function ColumnHit(log: seq<Op>, t: Text, r: Text, c: Text, k: Text): Option<Hlc> {
    LastHit(NullsOfColumn(t, k, IndexAt(UniqueStateOf(log), t, k)), t, r, c)
  }

  lemma ColumnUpTo(log: seq<Op>, t: Text, r: Text, c: Text, ks: seq<Text>, i: nat, q: Op)
    requires NoDup(log) && WellFormed(Elements(log)) && Nulls(Elements(log), t, r, c, q)
    requires ks == SortedKeys(ColumnsOf(UniqueStateOf(log), t))
    requires forall j :: i < j < |ks| ==> ColumnHit(log, t, r, c, ks[j]).None?
    ensures exists j :: 0 <= j < |ks| && ColumnHit(log, t, r, c, ks[j]).Some?
    ensures i < |ks| ==> q.column == ks[i] || Less(q.column, ks[i])
  {
    ColumnHits(log, t, r, c, q);
    assert q.column in ks;
    KeyUpTo(ks, i, q.column);
  }

  lemma ColumnHits(log: seq<Op>, t: Text, r: Text, c: Text, q: Op)
    requires NoDup(log) && WellFormed(Elements(log)) && Nulls(Elements(log), t, r, c, q)
    ensures ColumnHit(log, t, r, c, q.column).Some? && q.column in ColumnsOf(UniqueStateOf(log), t)
  {
    var p := HitOnColumn(log, t, r, c, q.column);
    ValueHits(log, t, r, c, q);
  }

  lemma HitOnTable(log: seq<Op>, t: Text, r: Text, c: Text) returns (p: Op)
    requires NoDup(log) && WellFormed(Elements(log))
    ensures var hit := LastHit(NullsOfTable(UniqueStateOf(log), t), t, r, c);
      && (hit.None? ==> forall q :: !Nulls(Elements(log), t, r, c, q))
      && (hit.Some? ==> NullsLast(Elements(log), t, r, c, p) && hit == Some(NullHlc(p.hlc)))
  {
    var u := UniqueStateOf(log);
    var ks := SortedKeys(ColumnsOf(u, t));
    var i := LastHitFlatMap(ks, OfColumn(u, t), t, r, c);
    forall j | 0 <= j < |ks| ensures ColumnHit(log, t, r, c, ks[j]) == LastHit(OfColumn(u, t)(ks[j]), t, r, c) { }
    forall q | Nulls(Elements(log), t, r, c, q) ensures i < |ks| && (q.column == ks[i] || Less(q.column, ks[i])) {
      ColumnUpTo(log, t, r, c, ks, i, q);
    }
    p := ReserveUnique(t, r, Hlc(0, 0, []), [], []);
    if i < |ks| { p := HitOnColumn(log, t, r, c, ks[i]); }
  }

  lemma OtherTablesMiss(u: UniqueState, t': Text, t: Text, r: Text, c: Text)
    requires t' != t
    ensures LastHit(NullsOfTable(u, t'), t, r, c).None?
  {
    forall n | n in NullsOfTable(u, t') ensures !Hits(n, t, r, c) { NullsOfTableSource(u, t', n); }
    NoHits(NullsOfTable(u, t'), t, r, c);
  }

  lemma {:induction false} NoHits(ns: seq<NullWrite>, t: Text, r: Text, c: Text)
    requires forall n :: n in ns ==> !Hits(n, t, r, c)
    ensures LastHit(ns, t, r, c).None?
  {
    if |ns| > 0 {
      assert ns[|ns| - 1] in ns;
      NoHits(ns[..|ns| - 1], t, r, c);
    }
  }

  /** The null-write that stays on a cell is that of the losing claim greatest in column
      name, value and time; there is none if and only if no losing claim nulls the cell. */
  lemma LastHitIs(log: seq<Op>, t: Text, r: Text, c: Text) returns (p: Op)
    requires NoDup(log) && WellFormed(Elements(log))
    ensures var hit := LastHit(NullWrites(UniqueStateOf(log)), t, r, c);
      && (hit.None? <==> forall q :: !Nulls(Elements(log), t, r, c, q))
      && (hit.Some? ==> NullsLast(Elements(log), t, r, c, p) && hit == Some(NullHlc(p.hlc)))
  {
    var u := UniqueStateOf(log);
    var ts := SortedKeys(u);
    var i := LastHitFlatMap(ts, OfTable(u), t, r, c);
    assert forall k :: OfTable(u)(k) == NullsOfTable(u, k);
    p := HitOnTable(log, t, r, c);
    if i < |ts| && ts[i] != t { OtherTablesMiss(u, ts[i], t, r, c); }
    forall q | Nulls(Elements(log), t, r, c, q) ensures i < |ts| {
      ColumnHits(log, t, r, c, q);
      assert t in ts;
      assert LastHit(OfTable(u)(t), t, r, c).Some?;
    }
  }

  lemma NullsLastIsOne(ops: set<Op>, t: Text, r: Text, c: Text, p: Op, q: Op)
    requires NullsLast(ops, t, r, c, p) && NullsLast(ops, t, r, c, q)
    ensures p == q
  {
    if p != q {
      LessTotal(p.column, q.column);
      LessTotal(p.value, q.value);
      BeforeIsTotal(p.hlc, q.hlc);
    }
  }
}
