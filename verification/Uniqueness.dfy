/** Reservations of unique values and the election among competing claims. */
module Uniqueness {
  import opened ByteStrings
  import opened Clocks
  import opened Sorting

  datatype State = Provisional | Won | Lost(winnerRow: Text, winnerPeer: Text)

  datatype Reservation = Reservation(value: Bytes, row: Text, peer: Text, hlc: Hlc, state: State)

  datatype Conflict = Conflict(value: Bytes, loserRow: Text, loserPeer: Text, loserHlc: Hlc,
                               winnerRow: Text, winnerPeer: Text, winnerHlc: Hlc)

  /** The reservations of one column, by value, and the audit log of lost elections. */
  datatype Index = Index(reservations: map<Bytes, seq<Reservation>>, conflicts: seq<Conflict>)

  const EMPTY := Index(map[], [])

  function ListFor(idx: Index, v: Bytes): seq<Reservation> {
    if v in idx.reservations then idx.reservations[v] else []
  }

  /** Election order: (timestamp, row). */
  predicate Weaker(a: Reservation, b: Reservation) {
    Before(a.hlc, b.hlc) || (a.hlc == b.hlc && Less(a.row, b.row))
  }

  predicate SameClaimant(a: Reservation, b: Reservation) {
    a.row == b.row && a.peer == b.peer
  }

  /** Position of the strongest reservation, the last one among equals: `max_by`. */
  function WinnerOf(rs: seq<Reservation>): (w: nat)
    requires |rs| > 0
    ensures w < |rs|
  {
    if |rs| == 1 then 0
    else
      var m := |rs| - 1;
      var w := WinnerOf(rs[..m]);
      if Weaker(rs[m], rs[w]) then w else m
  }

  function Verdict(rs: seq<Reservation>, i: nat): State
    requires i < |rs|
  {
    var w := WinnerOf(rs);
    if i == w then Won else Lost(rs[w].row, rs[w].peer)
  }

  function Judge(rs: seq<Reservation>): seq<Reservation> {
    seq(|rs|, i requires 0 <= i < |rs| => rs[i].(state := Verdict(rs, i)))
  }

  function ConflictBetween(loser: Reservation, winner: Reservation): Conflict {
    Conflict(loser.value, loser.row, loser.peer, loser.hlc, winner.row, winner.peer, winner.hlc)
  }

  /** The conflict records of the first `n` reservations of an election. */
  function ConflictsOf(rs: seq<Reservation>, n: nat): seq<Conflict>
    requires n <= |rs|
  {
    if n == 0 then []
    else
      var w := WinnerOf(rs);
      ConflictsOf(rs, n - 1) + if n - 1 == w then [] else [ConflictBetween(rs[n - 1], rs[w])]
  }

  function Resolve(idx: Index, v: Bytes): Index {
    var rs := ListFor(idx, v);
    if |rs| <= 1 then idx
    else Index(idx.reservations[v := Judge(rs)], idx.conflicts + ConflictsOf(rs, |rs|))
  }

  function ReserveOf(idx: Index, r: Reservation): Index {
    var rs := ListFor(idx, r.value);
    if exists e :: e in rs && SameClaimant(e, r) then idx
    else Resolve(idx.(reservations := idx.reservations[r.value := rs + [r]]), r.value)
  }

  /** Add the reservations of claimants not yet present. */
  function Adopt(rs: seq<Reservation>, more: seq<Reservation>): seq<Reservation> {
    if |more| == 0 then rs
    else
      var m := |more| - 1;
      var done := Adopt(rs, more[..m]);
      if exists e :: e in done && SameClaimant(e, more[m]) then done else done + [more[m]]
  }

  function MergeValue(idx: Index, v: Bytes, more: seq<Reservation>): Index {
    Resolve(idx.(reservations := idx.reservations[v := Adopt(ListFor(idx, v), more)]), v)
  }

  function MergeValues(idx: Index, other: Index, vs: seq<Bytes>): Index {
    if |vs| == 0 then idx
    else
      var v := vs[|vs| - 1];
      MergeValue(MergeValues(idx, other, vs[..|vs| - 1]), v, ListFor(other, v))
  }

  function MergeConflicts(cs: seq<Conflict>, more: seq<Conflict>): seq<Conflict> {
    if |more| == 0 then cs
    else
      var done, c := MergeConflicts(cs, more[..|more| - 1]), more[|more| - 1];
      if exists d :: d in done && d.loserRow == c.loserRow && d.winnerRow == c.winnerRow then done else done + [c]
  }

  lemma LessIsStrictTotal()
    ensures StrictTotal(Less)
  {
    forall a, b ensures Less(a, b) || a == b || Less(b, a) { LessTotal(a, b); }
    forall a, b | Less(a, b) ensures !Less(b, a) { LessTotal(a, b); }
    forall a, b, c | Less(a, b) && Less(b, c) ensures Less(a, c) { LessTransitive(a, b, c); }
  }

  function MergeOf(a: Index, b: Index): Index {
    LessIsStrictTotal();
    var m := MergeValues(a, b, Ascending(Less, b.reservations.Keys));
    m.(conflicts := MergeConflicts(m.conflicts, b.conflicts))
  }

  function CanonicalOwner(idx: Index, v: Bytes): Option<Text> {
    FirstUnbeaten(ListFor(idx, v))
  }

  function FirstUnbeaten(rs: seq<Reservation>): Option<Text> {
    if |rs| == 0 then None
    else if !rs[0].state.Lost? then Some(rs[0].row)
    else FirstUnbeaten(rs[1..])
  }

  predicate IsAvailableFor(idx: Index, v: Bytes, row: Text) {
    forall r :: r in ListFor(idx, v) ==> r.row == row || r.state.Lost?
  }

  // ----- The election invariant -----

  ghost predicate DistinctClaimants(rs: seq<Reservation>) {
    forall i, j :: 0 <= i < j < |rs| ==> !SameClaimant(rs[i], rs[j])
  }

  /** The audit record of a lost claim: what was claimed, by whom and when, and who has won it. */
  function RecordOf(v: Bytes, loser: Reservation, winner: Reservation): Conflict {
    Conflict(v, loser.row, loser.peer, loser.hlc, winner.row, winner.peer, winner.hlc)
  }

  /** One claim is provisional; among several the strongest has won, and every
      other names it and is on record as having lost to it. */
  ghost predicate Elected(rs: seq<Reservation>, v: Bytes, conflicts: seq<Conflict>) {
    && |rs| > 0 && DistinctClaimants(rs)
    && (forall r :: r in rs ==> r.value == v && r.peer == r.hlc.peer)
    && (|rs| == 1 ==> rs[0].state == Provisional)
    && (|rs| > 1 ==>
         var w := WinnerOf(rs);
         && rs[w].state == Won
         && (forall i :: 0 <= i < |rs| && i != w ==> rs[i].state == Lost(rs[w].row, rs[w].peer))
         && (forall i :: 0 <= i < |rs| && i != w ==> RecordOf(v, rs[i], rs[w]) in conflicts))
  }

  ghost predicate ElectionOk(idx: Index) {
    forall v :: v in idx.reservations ==> Elected(idx.reservations[v], v, idx.conflicts)
  }

  lemma WeakerOrder(a: Reservation, b: Reservation, c: Reservation)
    ensures Weaker(a, b) ==> !Weaker(b, a)
    ensures Weaker(a, c) ==> Weaker(a, b) || Weaker(b, c)
    ensures !Weaker(a, b) && !Weaker(b, a) ==> a.hlc == b.hlc && a.row == b.row
  {
    HlcOrder();
    LessTotal(a.row, b.row);
    LessTotal(b.row, c.row);
    LessTotal(a.row, c.row);
    if Less(b.row, a.row) && Less(a.row, c.row) { LessTransitive(b.row, a.row, c.row); }
  }

  lemma {:induction false} WinnerIsStrongest(rs: seq<Reservation>, i: nat)
    requires i < |rs|
    ensures !Weaker(rs[WinnerOf(rs)], rs[i])
  {
    var m, w := |rs| - 1, WinnerOf(rs);
    WeakerOrder(rs[w], rs[i], rs[w]);
    if m > 0 {
      var w' := WinnerOf(rs[..m]);
      WeakerOrder(rs[m], rs[w'], rs[m]);
      if i < m {
        WinnerIsStrongest(rs[..m], i);
        WeakerOrder(rs[m], rs[w'], rs[i]);
        WeakerOrder(rs[m], rs[i], rs[w']);
      }
    }
  }

  lemma WinnerIgnoresState(rs: seq<Reservation>)
    requires |rs| > 0
    ensures WinnerOf(Judge(rs)) == WinnerOf(rs)
  {
    SameWinner(rs, Judge(rs));
  }

  lemma {:induction false} SameWinner(rs: seq<Reservation>, qs: seq<Reservation>)
    requires |rs| == |qs| > 0
    requires forall i :: 0 <= i < |rs| ==> rs[i].hlc == qs[i].hlc && rs[i].row == qs[i].row
    ensures WinnerOf(rs) == WinnerOf(qs)
  {
    if |rs| > 1 {
      SameWinner(rs[..|rs| - 1], qs[..|rs| - 1]);
    }
  }

  lemma {:induction false} ConflictsRecorded(rs: seq<Reservation>, n: nat, i: nat)
    requires i < n <= |rs| && i != WinnerOf(rs)
    ensures ConflictBetween(rs[i], rs[WinnerOf(rs)]) in ConflictsOf(rs, n)
  {
    if i < n - 1 { ConflictsRecorded(rs, n - 1, i); }
  }

  /** An election records each loser once and nobody else. */
  lemma {:induction false} ConflictsAre(rs: seq<Reservation>, n: nat, v: Bytes, c: Conflict)
    requires n <= |rs| && forall r :: r in rs ==> r.value == v
    ensures c in ConflictsOf(rs, n) <==> exists i :: 0 <= i < n && i != WinnerOf(rs) && c == RecordOf(v, rs[i], rs[WinnerOf(rs)])
    ensures |ConflictsOf(rs, n)| == n - if 0 < |rs| && WinnerOf(rs) < n then 1 else 0
  {
    if n > 0 {
      ConflictsAre(rs, n - 1, v, c);
      assert rs[n - 1] in rs;
    }
  }

  lemma JudgedConflicts(rs: seq<Reservation>, conflicts: seq<Conflict>, i: nat)
    requires i < |rs| && i != WinnerOf(rs)
    ensures ConflictBetween(Judge(rs)[i], Judge(rs)[WinnerOf(rs)]) in conflicts + ConflictsOf(rs, |rs|)
  {
    ConflictsRecorded(rs, |rs|, i);
    assert ConflictBetween(Judge(rs)[i], Judge(rs)[WinnerOf(rs)]) == ConflictBetween(rs[i], rs[WinnerOf(rs)]);
  }

  /** Entries with the verdicts as states are elected, given their conflict records. */
  lemma VerdictsAreElected(rs: seq<Reservation>, js: seq<Reservation>, v: Bytes, conflicts: seq<Conflict>)
    requires |js| == |rs| > 1 && DistinctClaimants(rs) && WinnerOf(js) == WinnerOf(rs)
    requires forall i :: 0 <= i < |rs| ==> js[i] == rs[i].(state := Verdict(rs, i))
    requires forall r :: r in rs ==> r.value == v && r.peer == r.hlc.peer
    requires forall i :: 0 <= i < |rs| && i != WinnerOf(rs) ==> ConflictBetween(js[i], js[WinnerOf(rs)]) in conflicts
    ensures Elected(js, v, conflicts)
  {
    forall i | 0 <= i < |js| ensures js[i].value == v && js[i].peer == js[i].hlc.peer { assert rs[i] in rs; }
    assert forall i :: 0 <= i < |js| ==> js[i].state == Verdict(js, i);
  }

  /** A list of several distinct claimants, once judged, satisfies the invariant. */
  lemma JudgedIsElected(rs: seq<Reservation>, v: Bytes, conflicts: seq<Conflict>)
    requires |rs| > 1 && DistinctClaimants(rs)
    requires forall r :: r in rs ==> r.value == v && r.peer == r.hlc.peer
    ensures Elected(Judge(rs), v, conflicts + ConflictsOf(rs, |rs|))
  {
    WinnerIgnoresState(rs);
    forall i | 0 <= i < |rs| && i != WinnerOf(rs)
      ensures ConflictBetween(Judge(rs)[i], Judge(rs)[WinnerOf(rs)]) in conflicts + ConflictsOf(rs, |rs|)
    {
      JudgedConflicts(rs, conflicts, i);
    }
    VerdictsAreElected(rs, Judge(rs), v, conflicts + ConflictsOf(rs, |rs|));
  }

  lemma ElectedGrows(rs: seq<Reservation>, v: Bytes, conflicts: seq<Conflict>, more: seq<Conflict>)
    requires Elected(rs, v, conflicts) && forall c :: c in conflicts ==> c in more
    ensures Elected(rs, v, more)
  {
  }

  /** Judging the list of one value leaves the other values as they were. */
  lemma ResolveKeeps(idx: Index, v: Bytes)
    requires v in idx.reservations && DistinctClaimants(idx.reservations[v]) && |idx.reservations[v]| > 0
    requires forall r :: r in idx.reservations[v] ==> r.value == v && r.peer == r.hlc.peer
    requires |idx.reservations[v]| == 1 ==> idx.reservations[v][0].state == Provisional
    requires forall u :: u in idx.reservations && u != v ==> Elected(idx.reservations[u], u, idx.conflicts)
    ensures ElectionOk(Resolve(idx, v))
  {
    var rs := idx.reservations[v];
    if |rs| > 1 {
      JudgedIsElected(rs, v, idx.conflicts);
      forall u | u in idx.reservations && u != v
        ensures Elected(idx.reservations[u], u, idx.conflicts + ConflictsOf(rs, |rs|))
      {
        ElectedGrows(idx.reservations[u], u, idx.conflicts, idx.conflicts + ConflictsOf(rs, |rs|));
      }
    }
  }

  /** A reservation as the engine makes it. */
  predicate Fresh(r: Reservation) {
    r.state == Provisional && r.peer == r.hlc.peer
  }

  lemma ReserveKeeps(idx: Index, r: Reservation)
    requires ElectionOk(idx) && Fresh(r)
    ensures ElectionOk(ReserveOf(idx, r))
  {
    var rs := ListFor(idx, r.value);
    if !exists e :: e in rs && SameClaimant(e, r) {
      forall i | 0 <= i < |rs| ensures !SameClaimant(rs[i], r) { assert rs[i] in rs; }
      ResolveKeeps(idx.(reservations := idx.reservations[r.value := rs + [r]]), r.value);
    }
  }

  lemma {:induction false} AdoptKeeps(rs: seq<Reservation>, more: seq<Reservation>)
    requires DistinctClaimants(rs)
    ensures DistinctClaimants(Adopt(rs, more))
    ensures rs <= Adopt(rs, more)
    ensures forall r :: r in Adopt(rs, more) ==> r in rs || r in more
    ensures forall r :: r in more ==> exists e :: e in Adopt(rs, more) && SameClaimant(e, r)
  {
    if |more| > 0 {
      var m := |more| - 1;
      AdoptKeeps(rs, more[..m]);
      var done, all := Adopt(rs, more[..m]), Adopt(rs, more);
      forall i | 0 <= i < |done| ensures done[i] in done { }
      assert more == more[..m] + [more[m]];
      forall r | r in more ensures exists e :: e in all && SameClaimant(e, r) {
        if r in more[..m] {
          var e :| e in done && SameClaimant(e, r);
          assert e in all;
        } else {
          assert more[m] in done + [more[m]];
        }
      }
    }
  }

  /** Two lists of one claim each adopt to one claim only if they are alike. */
  lemma AdoptedSingle(rs: seq<Reservation>, more: seq<Reservation>)
    requires DistinctClaimants(rs) && DistinctClaimants(more) && |more| > 0
    requires |Adopt(rs, more)| == 1
    ensures |more| == 1 && |rs| <= 1
    ensures Adopt(rs, more)[0] == if |rs| == 1 then rs[0] else more[0]
  {
    AdoptKeeps(rs, more);
    var all := Adopt(rs, more);
    forall i | 0 <= i < |more| ensures SameClaimant(all[0], more[i]) {
      assert more[i] in more;
      var e :| e in all && SameClaimant(e, more[i]);
    }
    assert |more| > 1 ==> SameClaimant(more[0], more[1]);
    assert all[0] in all;
  }

  lemma MergeValueKeeps(idx: Index, v: Bytes, more: seq<Reservation>, conflicts: seq<Conflict>)
    requires ElectionOk(idx) && Elected(more, v, conflicts)
    ensures ElectionOk(MergeValue(idx, v, more))
  {
    var rs := ListFor(idx, v);
    var all := Adopt(rs, more);
    AdoptKeeps(rs, more);
    assert more[0] in more;
    if |all| == 1 { AdoptedSingle(rs, more); }
    ResolveKeeps(idx.(reservations := idx.reservations[v := all]), v);
  }

  lemma {:induction false} MergeValuesKeeps(idx: Index, other: Index, vs: seq<Bytes>)
    requires ElectionOk(idx) && ElectionOk(other)
    requires forall v :: v in vs ==> v in other.reservations
    ensures ElectionOk(MergeValues(idx, other, vs))
  {
    if |vs| > 0 {
      var m := |vs| - 1;
      MergeValuesKeeps(idx, other, vs[..m]);
      assert vs[m] in vs;
      MergeValueKeeps(MergeValues(idx, other, vs[..m]), vs[m], ListFor(other, vs[m]), other.conflicts);
    }
  }

  predicate SamePair(c: Conflict, d: Conflict) {
    c.loserRow == d.loserRow && c.winnerRow == d.winnerRow
  }

  ghost predicate OnLog(log: seq<Conflict>, c: Conflict) {
    exists d :: d in log && SamePair(d, c)
  }

  /** `log` keeps `cs` and appends records of `more`, every pair of rows not on record yet once. */
  ghost predicate MergesLogs(cs: seq<Conflict>, more: seq<Conflict>, log: seq<Conflict>) {
    && cs <= log && (forall i :: |cs| <= i < |log| ==> log[i] in more)
    && (forall c :: c in more ==> OnLog(log, c))
    && (forall i, j :: |cs| <= i < |log| && 0 <= j < i ==> !SamePair(log[j], log[i]))
  }

  lemma OneMoreRecord(cs: seq<Conflict>, more: seq<Conflict>, done: seq<Conflict>, c: Conflict, log: seq<Conflict>)
    requires MergesLogs(cs, more, done) && log == if OnLog(done, c) then done else done + [c]
    ensures MergesLogs(cs, more + [c], log)
  {
    forall x | x in more + [c] ensures OnLog(log, x) {
      if x in more {
        var d :| d in done && SamePair(d, x);
        assert d in log;
      } else if !OnLog(done, c) {
        assert c in log && SamePair(c, c);
      }
    }
  }

  /** Merging conflict logs does just that. */
  lemma {:induction false} MergedLog(cs: seq<Conflict>, more: seq<Conflict>)
    ensures MergesLogs(cs, more, MergeConflicts(cs, more))
  {
    if |more| > 0 {
      var m := |more| - 1;
      MergedLog(cs, more[..m]);
      OneMoreRecord(cs, more[..m], MergeConflicts(cs, more[..m]), more[m], MergeConflicts(cs, more));
      assert more == more[..m] + [more[m]];
    }
  }

  lemma {:induction false} MergeConflictsGrows(cs: seq<Conflict>, more: seq<Conflict>)
    ensures forall c :: c in cs ==> c in MergeConflicts(cs, more)
  {
    if |more| > 0 { MergeConflictsGrows(cs, more[..|more| - 1]); }
  }

  lemma MergeKeeps(a: Index, b: Index)
    requires ElectionOk(a) && ElectionOk(b)
    ensures ElectionOk(MergeOf(a, b))
  {
    LessIsStrictTotal();
    var vs := Ascending(Less, b.reservations.Keys);
    forall v | v in vs ensures v in b.reservations { assert v in Elements(vs); }
    MergeValuesKeeps(a, b, vs);
    var m := MergeValues(a, b, vs);
    MergeConflictsGrows(m.conflicts, b.conflicts);
    forall v | v in m.reservations ensures Elected(m.reservations[v], v, MergeOf(a, b).conflicts) {
      ElectedGrows(m.reservations[v], v, m.conflicts, MergeOf(a, b).conflicts);
    }
  }

  // ----- Order independence -----

  /** Who claims a value, and when. */
  datatype Claim = Claim(row: Text, peer: Text, hlc: Hlc)

  function ClaimOf(r: Reservation): Claim {
    Claim(r.row, r.peer, r.hlc)
  }

  ghost function ClaimsOf(rs: seq<Reservation>): set<Claim> {
    set r | r in rs :: ClaimOf(r)
  }

  /** Any way of building an index out of reservations and merges. */
  datatype History = Empty | Reserved(before: History, r: Reservation) | Merged(left: History, right: History)

  ghost predicate FreshHistory(h: History) {
    match h
    case Empty => true
    case Reserved(b, r) => FreshHistory(b) && Fresh(r)
    case Merged(a, b) => FreshHistory(a) && FreshHistory(b)
  }

  function IndexAfter(h: History): Index {
    match h
    case Empty => EMPTY
    case Reserved(b, r) => ReserveOf(IndexAfter(b), r)
    case Merged(a, b) => MergeOf(IndexAfter(a), IndexAfter(b))
  }

  /** The claims on `v` made anywhere in a history. */
  ghost function ClaimsIn(h: History, v: Bytes): set<Claim> {
    match h
    case Empty => {}
    case Reserved(b, r) => ClaimsIn(b, v) + if r.value == v then {ClaimOf(r)} else {}
    case Merged(a, b) => ClaimsIn(a, v) + ClaimsIn(b, v)
  }

  /** Each (row, peer) claims a value at one time only. */
  ghost predicate SingleTimed(cs: set<Claim>) {
    forall a, b :: a in cs && b in cs && a.row == b.row && a.peer == b.peer ==> a == b
  }

  /** The invariant holds after every history of fresh reservations and merges. */
  lemma {:induction false} ElectionAlwaysOk(h: History)
    requires FreshHistory(h)
    ensures ElectionOk(IndexAfter(h))
  {
    match h
    case Empty =>
    case Reserved(b, r) =>
      ElectionAlwaysOk(b);
      ReserveKeeps(IndexAfter(b), r);
    case Merged(a, b) =>
      ElectionAlwaysOk(a);
      ElectionAlwaysOk(b);
      MergeKeeps(IndexAfter(a), IndexAfter(b));
  }

  lemma JudgeKeepsClaims(rs: seq<Reservation>)
    ensures |rs| > 0 ==> ClaimsOf(Judge(rs)) == ClaimsOf(rs)
  {
    if |rs| > 0 {
      var js := Judge(rs);
      forall c ensures c in ClaimsOf(js) <==> c in ClaimsOf(rs) {
        if c in ClaimsOf(js) {
          var j :| 0 <= j < |js| && ClaimOf(js[j]) == c;
          assert rs[j] in rs && ClaimOf(rs[j]) == c;
        }
        if c in ClaimsOf(rs) {
          var j :| 0 <= j < |rs| && ClaimOf(rs[j]) == c;
          assert js[j] in js && ClaimOf(js[j]) == c;
        }
      }
    }
  }

  lemma ResolveKeepsClaims(idx: Index, v: Bytes, u: Bytes)
    ensures ClaimsOf(ListFor(Resolve(idx, v), u)) == ClaimsOf(ListFor(idx, u))
  {
    JudgeKeepsClaims(ListFor(idx, v));
  }

  lemma ClaimsAppend(rs: seq<Reservation>, r: Reservation)
    ensures ClaimsOf(rs + [r]) == ClaimsOf(rs) + {ClaimOf(r)}
  {
  }

  /** A reservation adds to the claims on record, and removes none. */
  lemma ReserveOnlyAdds(idx: Index, r: Reservation, u: Bytes)
    ensures ClaimsOf(ListFor(idx, u)) <= ClaimsOf(ListFor(ReserveOf(idx, r), u))
    ensures ClaimsOf(ListFor(ReserveOf(idx, r), u)) <= ClaimsOf(ListFor(idx, u)) + if u == r.value then {ClaimOf(r)} else {}
    ensures u == r.value ==> OnRecord(ListFor(ReserveOf(idx, r), u), r.row, r.peer)
  {
    var rs := ListFor(idx, r.value);
    if e :| e in rs && SameClaimant(e, r) {
      assert ClaimOf(e) in ClaimsOf(rs);
    } else {
      var next := idx.(reservations := idx.reservations[r.value := rs + [r]]);
      ResolveKeepsClaims(next, r.value, u);
      ClaimsAppend(rs, r);
      assert ListFor(next, u) == if u == r.value then rs + [r] else ListFor(idx, u);
      if u == r.value { assert ClaimOf(r) in ClaimsOf(ListFor(ReserveOf(idx, r), u)); }
    }
  }

  /** Some claim of this row by this peer is on record. */
  ghost predicate OnRecord(rs: seq<Reservation>, row: Text, peer: Text) {
    exists k :: k in ClaimsOf(rs) && k.row == row && k.peer == peer
  }

  lemma {:induction false} AdoptOnlyAdds(rs: seq<Reservation>, more: seq<Reservation>)
    ensures ClaimsOf(rs) <= ClaimsOf(Adopt(rs, more)) <= ClaimsOf(rs) + ClaimsOf(more)
    ensures forall r :: r in more ==> OnRecord(Adopt(rs, more), r.row, r.peer)
  {
    if |more| > 0 {
      var m := |more| - 1;
      assert more == more[..m] + [more[m]];
      AdoptOnlyAdds(rs, more[..m]);
      var done, all := Adopt(rs, more[..m]), Adopt(rs, more);
      if e :| e in done && SameClaimant(e, more[m]) {
        assert ClaimOf(e) in ClaimsOf(all);
      } else {
        ClaimsAppend(done, more[m]);
        assert ClaimOf(more[m]) in ClaimsOf(all);
      }
      assert ClaimsOf(done) <= ClaimsOf(all);
    }
  }

  lemma MergeValueOnlyAdds(idx: Index, v: Bytes, more: seq<Reservation>, u: Bytes)
    ensures ClaimsOf(ListFor(idx, u)) <= ClaimsOf(ListFor(MergeValue(idx, v, more), u))
    ensures ClaimsOf(ListFor(MergeValue(idx, v, more), u)) <= ClaimsOf(ListFor(idx, u)) + if u == v then ClaimsOf(more) else {}
    ensures u == v ==> forall r :: r in more ==> OnRecord(ListFor(MergeValue(idx, v, more), u), r.row, r.peer)
  {
    var all := Adopt(ListFor(idx, v), more);
    ResolveKeepsClaims(idx.(reservations := idx.reservations[v := all]), v, u);
    AdoptOnlyAdds(ListFor(idx, v), more);
  }

  lemma {:induction false} MergeValuesOnlyAdds(idx: Index, other: Index, vs: seq<Bytes>, u: Bytes)
    ensures ClaimsOf(ListFor(idx, u)) <= ClaimsOf(ListFor(MergeValues(idx, other, vs), u))
    ensures ClaimsOf(ListFor(MergeValues(idx, other, vs), u)) <= ClaimsOf(ListFor(idx, u)) + ClaimsOf(ListFor(other, u))
    ensures u in vs ==> forall r :: r in ListFor(other, u) ==> OnRecord(ListFor(MergeValues(idx, other, vs), u), r.row, r.peer)
  {
    if |vs| > 0 {
      var m := |vs| - 1;
      assert vs == vs[..m] + [vs[m]];
      MergeValuesOnlyAdds(idx, other, vs[..m], u);
      MergeValueOnlyAdds(MergeValues(idx, other, vs[..m]), vs[m], ListFor(other, vs[m]), u);
    }
  }

  /** A merge drops no claim of either side: its own stay as they are, and every claimant of
      the other is on record. */
  lemma MergeOnlyAdds(a: Index, b: Index, u: Bytes)
    ensures ClaimsOf(ListFor(a, u)) <= ClaimsOf(ListFor(MergeOf(a, b), u)) <= ClaimsOf(ListFor(a, u)) + ClaimsOf(ListFor(b, u))
    ensures forall k :: k in ClaimsOf(ListFor(b, u)) ==> OnRecord(ListFor(MergeOf(a, b), u), k.row, k.peer)
  {
    LessIsStrictTotal();
    var vs := Ascending(Less, b.reservations.Keys);
    MergeValuesOnlyAdds(a, b, vs, u);
    assert u in vs <==> u in Elements(vs);
  }

  /** For every history: what is on record was claimed, and every row and peer that ever
      claimed a value is on record for it.  A second claim of the same row, peer and value
      finds the first on record and adds nothing. */
  lemma {:induction false} ClaimantsAreKept(h: History, v: Bytes)
    ensures ClaimsOf(ListFor(IndexAfter(h), v)) <= ClaimsIn(h, v)
    ensures forall k :: k in ClaimsIn(h, v) ==> OnRecord(ListFor(IndexAfter(h), v), k.row, k.peer)
  {
    match h
    case Empty =>
    case Reserved(b, r) =>
      ClaimantsAreKept(b, v);
      ReserveOnlyAdds(IndexAfter(b), r, v);
    case Merged(a, b) =>
      ClaimantsAreKept(a, v);
      ClaimantsAreKept(b, v);
      MergeOnlyAdds(IndexAfter(a), IndexAfter(b), v);
      forall k | k in ClaimsIn(h, v) ensures OnRecord(ListFor(IndexAfter(h), v), k.row, k.peer) {
        if k in ClaimsIn(b, v) {
          var l :| l in ClaimsOf(ListFor(IndexAfter(b), v)) && l.row == k.row && l.peer == k.peer;
        } else {
          var l :| l in ClaimsOf(ListFor(IndexAfter(a), v)) && l.row == k.row && l.peer == k.peer;
          assert l in ClaimsOf(ListFor(IndexAfter(h), v));
        }
      }
  }

  /** Where each row and peer claims a value at one time, the claims on record are exactly those made. */
  lemma ClaimsAreKept(h: History, v: Bytes)
    requires SingleTimed(ClaimsIn(h, v))
    ensures ClaimsOf(ListFor(IndexAfter(h), v)) == ClaimsIn(h, v)
  {
    ClaimantsAreKept(h, v);
    forall k | k in ClaimsIn(h, v) ensures k in ClaimsOf(ListFor(IndexAfter(h), v)) {
      var l :| l in ClaimsOf(ListFor(IndexAfter(h), v)) && l.row == k.row && l.peer == k.peer;
    }
  }

  /** The state an elected reservation has is decided by the set of claims alone. */
  lemma VerdictFromClaims(rs: seq<Reservation>, qs: seq<Reservation>, v: Bytes, cs: seq<Conflict>, ds: seq<Conflict>, r: Reservation)
    requires Elected(rs, v, cs) && Elected(qs, v, ds)
    requires ClaimsOf(rs) == ClaimsOf(qs) && r in rs
    ensures r in qs
  {
    var i :| 0 <= i < |rs| && rs[i] == r;
    assert ClaimOf(r) in ClaimsOf(qs);
    var j :| 0 <= j < |qs| && ClaimOf(qs[j]) == ClaimOf(r);
    SameSize(rs, qs, v, cs, ds);
    SameSize(qs, rs, v, ds, cs);
    if |rs| > 1 {
      StrongestClaim(rs, qs, v, cs, ds);
      if i == WinnerOf(rs) {
        assert j == WinnerOf(qs);
      } else {
        assert !SameClaimant(rs[i], rs[WinnerOf(rs)]);
      }
    }
  }

  lemma SameSize(rs: seq<Reservation>, qs: seq<Reservation>, v: Bytes, cs: seq<Conflict>, ds: seq<Conflict>)
    requires Elected(rs, v, cs) && Elected(qs, v, ds) && ClaimsOf(rs) == ClaimsOf(qs)
    ensures |rs| == 1 ==> |qs| == 1
  {
    if |rs| == 1 {
      forall i | 0 <= i < |qs| ensures SameClaimant(qs[i], rs[0]) {
        assert qs[i] in qs;
        assert ClaimOf(qs[i]) in ClaimsOf(rs);
      }
      assert |qs| > 1 ==> SameClaimant(qs[0], qs[1]);
    }
  }

  lemma StrongestClaim(rs: seq<Reservation>, qs: seq<Reservation>, v: Bytes, cs: seq<Conflict>, ds: seq<Conflict>)
    requires Elected(rs, v, cs) && Elected(qs, v, ds) && ClaimsOf(rs) == ClaimsOf(qs)
    ensures ClaimOf(rs[WinnerOf(rs)]) == ClaimOf(qs[WinnerOf(qs)])
  {
    var a, b := rs[WinnerOf(rs)], qs[WinnerOf(qs)];
    assert ClaimOf(a) in ClaimsOf(qs) && ClaimOf(b) in ClaimsOf(rs);
    var i :| 0 <= i < |qs| && ClaimOf(qs[i]) == ClaimOf(a);
    var j :| 0 <= j < |rs| && ClaimOf(rs[j]) == ClaimOf(b);
    WinnerIsStrongest(qs, i);
    WinnerIsStrongest(rs, j);
    WeakerOrder(a, b, a);
  }

  /** Histories that make the same claims on a value, in any order and through any
      merges, end with the same reservations in the same states. */
  lemma OutcomeIsOrderIndependent(g: History, h: History, v: Bytes)
    requires FreshHistory(g) && FreshHistory(h)
    requires ClaimsIn(g, v) == ClaimsIn(h, v) && SingleTimed(ClaimsIn(g, v))
    ensures Elements(ListFor(IndexAfter(g), v)) == Elements(ListFor(IndexAfter(h), v))
  {
    ElectionAlwaysOk(g);
    ElectionAlwaysOk(h);
    ClaimsAreKept(g, v);
    ClaimsAreKept(h, v);
    var x, y := IndexAfter(g), IndexAfter(h);
    var rs, qs := ListFor(x, v), ListFor(y, v);
    forall r | r in rs ensures r in qs {
      assert ClaimOf(r) in ClaimsOf(qs);
      VerdictFromClaims(rs, qs, v, x.conflicts, y.conflicts, r);
    }
    forall r | r in qs ensures r in rs {
      assert ClaimOf(r) in ClaimsOf(rs);
      VerdictFromClaims(qs, rs, v, y.conflicts, x.conflicts, r);
    }
  }

  lemma {:induction false} FirstUnbeatenIs(rs: seq<Reservation>, w: nat)
    requires w < |rs| && !rs[w].state.Lost? && forall i :: 0 <= i < |rs| && i != w ==> rs[i].state.Lost?
    ensures FirstUnbeaten(rs) == Some(rs[w].row)
  {
    if w > 0 { FirstUnbeatenIs(rs[1..], w - 1); }
  }

  /** The canonical owner is the row of the strongest claim, and a value is
      available exactly to that row, or to anyone while unclaimed. */
  lemma OwnerAndAvailability(idx: Index, v: Bytes, row: Text)
    requires ElectionOk(idx)
    ensures var rs := ListFor(idx, v);
      && (CanonicalOwner(idx, v).None? <==> v !in idx.reservations)
      && (v in idx.reservations ==> CanonicalOwner(idx, v) == Some(rs[WinnerOf(rs)].row))
      && (IsAvailableFor(idx, v, row) <==> CanonicalOwner(idx, v) in {None, Some(row)})
  {
    if v in idx.reservations {
      var rs := idx.reservations[v];
      assert Elected(rs, v, idx.conflicts);
      FirstUnbeatenIs(rs, WinnerOf(rs));
      assert rs[WinnerOf(rs)] in rs;
    }
  }

  /** The scan of `max_by`: the last of the strongest entries. */
  method Elect(entry: seq<Reservation>) returns (w: nat)
    requires |entry| > 0
    ensures w == WinnerOf(entry)
  {
    w := 0;
    for i := 1 to |entry|
      invariant w == WinnerOf(entry[..i])
    {
      assert entry[..i + 1][..i] == entry[..i];
      if !Weaker(entry[i], entry[w]) { w := i; }
    }
    assert entry[..|entry|] == entry;
  }

  // ----- The index object -----

  class UniqueIndex {
    var reservations: map<Bytes, seq<Reservation>>
    var conflictLog: seq<Conflict>

    ghost function State(): Index reads this {
      Index(reservations, conflictLog)
    }

    constructor (idx: Index)
      ensures State() == idx
    {
      reservations, conflictLog := idx.reservations, idx.conflicts;
    }

    method Reserve(r: Reservation)
      modifies this
      ensures State() == ReserveOf(old(State()), r)
    {
      var entry := if r.value in reservations then reservations[r.value] else [];
      if exists e :: e in entry && SameClaimant(e, r) { return; }
      reservations := reservations[r.value := entry + [r]];
      ResolveConflictsFor(r.value);
    }

    method ResolveConflictsFor(v: Bytes)
      modifies this
      ensures State() == Resolve(old(State()), v)
    {
      if v !in reservations || |reservations[v]| <= 1 { return; }
      var entry := reservations[v];
      var w := Elect(entry);
      var winner, judged := entry[w], entry;
      for i := 0 to |entry|
        invariant |judged| == |entry|
        invariant forall k :: 0 <= k < i ==> judged[k] == entry[k].(state := Verdict(entry, k))
        invariant forall k :: i <= k < |entry| ==> judged[k] == entry[k]
        invariant conflictLog == old(conflictLog) + ConflictsOf(entry, i)
        invariant reservations == old(reservations)
      {
        if i == w {
          judged := judged[i := judged[i].(state := Won)];
        } else {
          conflictLog := conflictLog + [ConflictBetween(entry[i], winner)];
          judged := judged[i := judged[i].(state := Lost(winner.row, winner.peer))];
        }
      }
      assert judged == Judge(entry);
      reservations := reservations[v := judged];
    }

    method MergeOne(v: Bytes, more: seq<Reservation>)
      modifies this
      ensures State() == MergeValue(old(State()), v, more)
    {
      var start := if v in reservations then reservations[v] else [];
      var entry := start;
      for k := 0 to |more|
        invariant entry == Adopt(start, more[..k])
      {
        assert more[..k + 1][..k] == more[..k];
        if !exists e :: e in entry && SameClaimant(e, more[k]) { entry := entry + [more[k]]; }
      }
      assert more[..|more|] == more;
      reservations := reservations[v := entry];
      ResolveConflictsFor(v);
    }

    method MergeLog(more: seq<Conflict>)
      modifies `conflictLog
      ensures conflictLog == MergeConflicts(old(conflictLog), more)
    {
      for k := 0 to |more|
        invariant conflictLog == MergeConflicts(old(conflictLog), more[..k])
      {
        assert more[..k + 1][..k] == more[..k];
        var c := more[k];
        if !exists d :: d in conflictLog && d.loserRow == c.loserRow && d.winnerRow == c.winnerRow {
          conflictLog := conflictLog + [c];
        }
      }
      assert more[..|more|] == more;
    }

    method MergeEach(other: Index, vs: seq<Bytes>)
      modifies this
      ensures State() == MergeValues(old(State()), other, vs)
    {
      for i := 0 to |vs|
        invariant State() == MergeValues(old(State()), other, vs[..i])
      {
        assert vs[..i + 1][..i] == vs[..i];
        MergeOne(vs[i], ListFor(other, vs[i]));
      }
      assert vs[..|vs|] == vs;
    }

    method Merge(other: Index)
      modifies this
      ensures State() == MergeOf(old(State()), other)
    {
      LessIsStrictTotal();
      MergeEach(other, Ascending(Less, other.reservations.Keys));
      MergeLog(other.conflicts);
    }
  }
}
