/** Hybrid logical clocks: timestamps, their total order and the per-peer clock. */
module Clocks {
  import opened ByteStrings
  import Sorting

  datatype Hlc = Hlc(wall: nat, logical: nat, peer: Text)

  const U32 := 0x1_0000_0000
  const U64 := 0x1_0000_0000_0000_0000

  /** `x + 1` in a `u32`. */
  function Succ32(x: nat): nat {
    (x + 1) % U32
  }

  /** Order of the time part alone. */
  predicate Earlier(w: nat, l: nat, w': nat, l': nat) {
    w < w' || (w == w' && l < l')
  }

  /** Total order on timestamps: wall time, then logical time, then peer. */
  predicate Before(a: Hlc, b: Hlc) {
    Earlier(a.wall, a.logical, b.wall, b.logical)
    || (a.wall == b.wall && a.logical == b.logical && Less(a.peer, b.peer))
  }

  lemma BeforeIsTotal(a: Hlc, b: Hlc)
    ensures !Before(a, a)
    ensures Before(a, b) || a == b || Before(b, a)
    ensures !(Before(a, b) && Before(b, a))
  {
    LessTotal(a.peer, b.peer);
  }

  lemma BeforeIsTransitive(a: Hlc, b: Hlc, c: Hlc)
    requires Before(a, b) && Before(b, c)
    ensures Before(a, c)
  {
    if a.wall == b.wall == c.wall && a.logical == b.logical == c.logical {
      LessTransitive(a.peer, b.peer, c.peer);
    }
  }

  /** The order laws in the form proofs use them. */
  lemma HlcOrder()
    ensures forall a, b {:trigger Before(a, b)} :: Before(a, b) ==> a != b && !Before(b, a)
    ensures forall a, b {:trigger Before(a, b)} :: a != b ==> Before(a, b) || Before(b, a)
    ensures forall a, b, c {:trigger Before(a, b), Before(b, c)} :: Before(a, b) && Before(b, c) ==> Before(a, c)
  {
    forall a, b ensures Before(a, b) ==> a != b && !Before(b, a) { BeforeIsTotal(a, b); }
    forall a, b | a != b ensures Before(a, b) || Before(b, a) { BeforeIsTotal(a, b); }
    forall a, b, c | Before(a, b) && Before(b, c) ensures Before(a, c) { BeforeIsTransitive(a, b, c); }
  }

  lemma BeforeIsStrictTotal()
    ensures Sorting.StrictTotal(Before)
  {
    HlcOrder();
  }

  /** A finite non-empty set of timestamps has a latest member. */
  lemma {:induction false} HasLatest(s: set<Hlc>)
    requires s != {}
    ensures exists m :: m in s && forall x :: x in s && x != m ==> Before(x, m)
  {
    BeforeIsStrictTotal();
    Sorting.HasGreatest(Before, s);
    var m :| m in s && forall x :: x in s && x != m ==> ((a, b) => Before(a, b))(x, m);
    assert forall x :: x in s && x != m ==> Before(x, m);
  }

  lemma LatestIsUnique(s: set<Hlc>, m: Hlc, n: Hlc)
    requires m in s && forall x :: x in s && x != m ==> Before(x, m)
    requires n in s && forall x :: x in s && x != n ==> Before(x, n)
    ensures m == n
  {
    HlcOrder();
  }

  /** The latest member of a non-empty set of timestamps. */
  function Latest(s: set<Hlc>): (m: Hlc)
    requires s != {}
    ensures m in s && forall x :: x in s && x != m ==> Before(x, m)
  {
    HasLatest(s);
    HlcOrder();
    var m :| m in s && forall x :: x in s && x != m ==> Before(x, m);
    m
  }

  // ----- The clock -----

  /** The state of a peer's clock: the two atomics of the source. */
  datatype ClockState = ClockState(wall: nat, logical: nat)

  datatype Reading = Reading(clock: ClockState, wall: nat, logical: nat)

  /** `tick` when the physical clock reads `now`. */
  function TickOf(c: ClockState, now: nat): Reading {
    if now > c.wall then Reading(ClockState(now, 0), now, 0)
    else
      var l := (c.logical + 1) % U64;
      Reading(ClockState(c.wall, l), c.wall, l % U32)
  }

  function Max(a: nat, b: nat): nat {
    if a < b then b else a
  }

  /** `observe` of a remote timestamp when the physical clock reads `now`. */
  function ObserveOf(c: ClockState, now: nat, rwall: nat, rlogical: nat): Reading {
    var prev := c.logical % U32;
    var w := Max(Max(now, c.wall), rwall);
    var l := if w == c.wall && w == rwall then Succ32(Max(prev, rlogical))
             else if w == c.wall then Succ32(prev)
             else if w == rwall then Succ32(rlogical)
             else 0;
    Reading(ClockState(w, l), w, l)
  }

  class HlcClock {
    const peer: Text
    var maxWall: nat
    var maxLogical: nat

    ghost function State(): ClockState reads this {
      ClockState(maxWall, maxLogical)
    }

    constructor (peer: Text)
      ensures this.peer == peer && State() == ClockState(0, 0)
    {
      this.peer := peer;
      maxWall, maxLogical := 0, 0;
    }

    method Tick(now: nat) returns (t: Hlc)
      modifies this
      ensures var r := TickOf(old(State()), now);
              State() == r.clock && t == Hlc(r.wall, r.logical, peer)
      ensures t.wall == Max(old(maxWall), now)
      ensures old(maxLogical) < U32 ==>
        (Earlier(old(maxWall), old(maxLogical), t.wall, t.logical) <==> now > old(maxWall) || old(maxLogical) + 1 < U32)
    {
      if now > maxWall {
        maxWall, maxLogical := now, 0;
        t := Hlc(now, 0, peer);
      } else {
        maxLogical := (maxLogical + 1) % U64;
        t := Hlc(maxWall, maxLogical % U32, peer);
      }
    }

    method Observe(now: nat, remote: Hlc) returns (t: Hlc)
      modifies this
      ensures var r := ObserveOf(old(State()), now, remote.wall, remote.logical);
              State() == r.clock && t == Hlc(r.wall, r.logical, peer)
      ensures t.wall == Max(Max(old(maxWall), now), remote.wall)
      ensures old(maxLogical) + 1 < U32 && remote.logical + 1 < U32 ==>
        Earlier(old(maxWall), old(maxLogical), t.wall, t.logical) && Earlier(remote.wall, remote.logical, t.wall, t.logical)
    {
      var prevLogical := maxLogical % U32;
      var newWall := Max(Max(now, maxWall), remote.wall);
      var newLogical := 0;
      if newWall == maxWall && newWall == remote.wall {
        newLogical := Succ32(Max(prevLogical, remote.logical));
      } else if newWall == maxWall {
        newLogical := Succ32(prevLogical);
      } else if newWall == remote.wall {
        newLogical := Succ32(remote.logical);
      }
      maxWall, maxLogical := newWall, newLogical;
      t := Hlc(newWall, newLogical, peer);
    }
  }

  // ----- Runs of a clock -----

  datatype Event = Tick(now: nat) | Observe(now: nat, rwall: nat, rlogical: nat)

  function EventOf(c: ClockState, e: Event): Reading {
    match e
    case Tick(now) => TickOf(c, now)
    case Observe(now, w, l) => ObserveOf(c, now, w, l)
  }

  /** The reading produced by the last of a non-empty list of events. */
  function Run(c: ClockState, es: seq<Event>): ClockState {
    if |es| == 0 then c else EventOf(Run(c, es[..|es| - 1]), es[|es| - 1]).clock
  }

  function ReadingAt(es: seq<Event>, i: nat): Reading
    requires i < |es|
  {
    EventOf(Run(ClockState(0, 0), es[..i]), es[i])
  }

  /** The latest wall time any event brought in. */
  function MaxWall(es: seq<Event>): nat {
    if |es| == 0 then 0
    else
      var e := es[|es| - 1];
      Max(MaxWall(es[..|es| - 1]), if e.Tick? then e.now else Max(e.now, e.rwall))
  }

  function MaxRemoteLogical(es: seq<Event>): nat {
    if |es| == 0 then 0
    else
      var e := es[|es| - 1];
      Max(MaxRemoteLogical(es[..|es| - 1]), if e.Tick? then 0 else e.rlogical)
  }

  /** No counter can wrap during `es`. */
  predicate HasRoom(es: seq<Event>) {
    MaxRemoteLogical(es) + |es| < U32
  }

  lemma {:induction false} HasRoomPrefix(es: seq<Event>, i: nat)
    requires i <= |es| && HasRoom(es)
    ensures HasRoom(es[..i])
    ensures MaxRemoteLogical(es[..i]) <= MaxRemoteLogical(es)
  {
    if i < |es| {
      var m := |es| - 1;
      assert es[..m][..i] == es[..i];
      HasRoomPrefix(es[..m], i);
    } else {
      assert es[..i] == es;
    }
  }

  /** Every event of a clock with room moves it strictly forward, past what it observes. */
  lemma EventAdvances(c: ClockState, e: Event)
    requires c.logical + 1 < U32
    requires e.Observe? ==> e.rlogical + 1 < U32
    ensures var r := EventOf(c, e);
            && r.clock == ClockState(r.wall, r.logical)
            && Earlier(c.wall, c.logical, r.wall, r.logical)
            && r.wall == Max(c.wall, if e.Tick? then e.now else Max(e.now, e.rwall))
            && r.logical <= Max(c.logical, if e.Tick? then 0 else e.rlogical) + 1
            && (e.Observe? ==> Earlier(e.rwall, e.rlogical, r.wall, r.logical))
  {
  }

  /** The wall part is exactly the latest time seen, the logical part is bounded
      by the remote counters and the number of events. */
  lemma {:induction false} ClockBounds(es: seq<Event>)
    requires HasRoom(es)
    ensures Run(ClockState(0, 0), es).wall == MaxWall(es)
    ensures Run(ClockState(0, 0), es).logical <= MaxRemoteLogical(es) + |es|
  {
    if |es| > 0 {
      var m := |es| - 1;
      HasRoomPrefix(es, m);
      ClockBounds(es[..m]);
      EventAdvances(Run(ClockState(0, 0), es[..m]), es[m]);
    }
  }

  lemma StepAdvances(es: seq<Event>, i: nat)
    requires HasRoom(es) && i < |es|
    ensures var c, r := Run(ClockState(0, 0), es[..i]), ReadingAt(es, i);
            && Run(ClockState(0, 0), es[..i + 1]) == ClockState(r.wall, r.logical)
            && Earlier(c.wall, c.logical, r.wall, r.logical)
            && (es[i].Observe? ==> Earlier(es[i].rwall, es[i].rlogical, r.wall, r.logical))
  {
    HasRoomPrefix(es, i);
    HasRoomPrefix(es, i + 1);
    ClockBounds(es[..i]);
    assert es[..i + 1][..i] == es[..i] && es[..i + 1][i] == es[i];
    EventAdvances(Run(ClockState(0, 0), es[..i]), es[i]);
  }

  /** Readings strictly increase over a whole run, and every reading from an
      observation on exceeds what was observed. */
  lemma {:induction false} ReadingsIncrease(es: seq<Event>, i: nat, j: nat)
    requires HasRoom(es) && i <= j < |es|
    ensures var a, b := ReadingAt(es, i), ReadingAt(es, j);
            && (i < j ==> Earlier(a.wall, a.logical, b.wall, b.logical))
            && (es[i].Observe? ==> Earlier(es[i].rwall, es[i].rlogical, b.wall, b.logical))
    decreases j
  {
    StepAdvances(es, j);
    if i < j {
      ReadingsIncrease(es, i, j - 1);
      StepAdvances(es, j - 1);
    }
  }

  /** A tick exceeds the state it started from exactly when its counter does not
      wrap: the condition under which local timestamps are unique. */
  lemma TickAdvancesIff(c: ClockState, now: nat)
    requires c.logical < U32
    ensures var r := TickOf(c, now);
            Earlier(c.wall, c.logical, r.wall, r.logical) <==> now > c.wall || c.logical + 1 < U32
  {
  }

  /** A time the event may read: not before the physical clock, and past the state and, if
      the event observes one, the remote time. */
  predicate MayRead(c: ClockState, e: Event, wall: nat, logical: nat) {
    && e.now <= wall && Earlier(c.wall, c.logical, wall, logical)
    && (e.Observe? ==> Earlier(e.rwall, e.rlogical, wall, logical))
  }

  /** With room in the counters every reading is the least time it may be. */
  lemma ReadingIsLeast(c: ClockState, e: Event, wall: nat, logical: nat)
    requires c.logical + 1 < U32 && (e.Observe? ==> e.rlogical + 1 < U32)
    ensures var r := EventOf(c, e); MayRead(c, e, r.wall, r.logical) && (MayRead(c, e, wall, logical) ==> !Earlier(wall, logical, r.wall, r.logical))
  {
    EventAdvances(c, e);
  }
}
