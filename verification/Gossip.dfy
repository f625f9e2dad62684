/**
 Gossip as a step system (internal/cluster/gossip.go). Every node has a roster; packets are
 snapshots that, once sent, may arrive at any node, any number of times, in any order, or never.
 */
module Gossip {
  import opened Bytes
  import opened Membership

  datatype State = State(rosters: map<Str, Roster>, packets: set<seq<Node>>)

  datatype Step =
    | Bump(node: Str, now: int)
    | Detect(node: Str, now: int, timeout: int)
    | Send(node: Str, payload: seq<Node>)
    | Receive(node: Str, payload: seq<Node>, now: int)

  /** Every node starts knowing only itself. */
  ghost predicate IsInit(s: State) {
    && s.packets == {}
    && forall i :: i in s.rosters ==> s.rosters[i].Keys == {i} && Sound(i, s.rosters[i])
  }

  ghost predicate Enabled(s: State, step: Step) {
    && step.node in s.rosters
    && match step
       case Bump(i, _) => i in s.rosters[i]
       case Detect(_, _, _) => true
       case Send(i, payload) => IsSnapshot(payload, s.rosters[i])
       case Receive(_, payload, _) => payload in s.packets
  }

  ghost function Apply(s: State, step: Step): State
    requires Enabled(s, step)
  {
    match step
    case Bump(i, now) => s.(rosters := s.rosters[i := Bumped(i, s.rosters[i], now)])
    case Detect(i, now, timeout) => s.(rosters := s.rosters[i := Detected(i, s.rosters[i], now, timeout)])
    case Send(i, payload) => s.(packets := s.packets + {payload})
    case Receive(i, payload, now) => s.(rosters := s.rosters[i := MergedAll(i, s.rosters[i], Stamped(payload, now))])
  }

  ghost predicate IsRun(s: State, steps: seq<Step>)
    decreases |steps|, 0
  {
    if steps == [] then IsInit(s)
    else IsRun(s, steps[..|steps| - 1]) && Enabled(Reached(s, steps[..|steps| - 1]), steps[|steps| - 1])
  }

  ghost function Reached(s: State, steps: seq<Step>): State
    requires IsRun(s, steps)
    decreases |steps|, 1
  {
    if steps == [] then s else Apply(Reached(s, steps[..|steps| - 1]), steps[|steps| - 1])
  }

  // ---------------------------------------------------------------- The invariant

  ghost predicate AllSound(rosters: map<Str, Roster>) {
    forall i :: i in rosters ==> Sound(i, rosters[i])
  }

  /** The incarnation each node has given itself. */
  ghost function Owns(rosters: map<Str, Roster>): map<Str, nat> {
    map j | j in rosters && j in rosters[j] :: rosters[j][j].node.incarnation
  }

  /** A record is about a node of the cluster and not ahead of that node. */
  ghost predicate NotAhead(own: map<Str, nat>, r: Node) {
    r.id in own && r.incarnation <= own[r.id]
  }

  ghost predicate RosterNotAhead(own: map<Str, nat>, roster: Roster) {
    forall id :: id in roster ==> NotAhead(own, roster[id].node)
  }

  ghost predicate PacketNotAhead(own: map<Str, nat>, payload: seq<Node>) {
    forall k :: 0 <= k < |payload| ==> NotAhead(own, payload[k])
  }

  ghost predicate RostersNotAhead(own: map<Str, nat>, rosters: map<Str, Roster>) {
    forall i :: i in rosters ==> RosterNotAhead(own, rosters[i])
  }

  ghost predicate PacketsNotAhead(own: map<Str, nat>, packets: set<seq<Node>>) {
    forall p :: p in packets ==> PacketNotAhead(own, p)
  }

  ghost predicate Inv(s: State) {
    && AllSound(s.rosters)
    && RostersNotAhead(Owns(s.rosters), s.rosters)
    && PacketsNotAhead(Owns(s.rosters), s.packets)
  }

  ghost predicate Grows(own: map<Str, nat>, own': map<Str, nat>) {
    forall j :: j in own ==> j in own' && own[j] <= own'[j]
  }

  lemma NotAheadGrows(own: map<Str, nat>, own': map<Str, nat>, rosters: map<Str, Roster>, packets: set<seq<Node>>)
    requires Grows(own, own') && RostersNotAhead(own, rosters) && PacketsNotAhead(own, packets)
    ensures RostersNotAhead(own', rosters) && PacketsNotAhead(own', packets)
  {
  }

  /** Whatever happens at one node, the records held elsewhere and on the wire stay within bounds. */
  lemma LocalStepKeepsInv(s: State, i: Str, next: Roster)
    requires Inv(s) && i in s.rosters && Sound(i, next)
    requires s.rosters[i][i].node.incarnation <= next[i].node.incarnation
    requires forall id :: id in next && id != i ==> NotAhead(Owns(s.rosters), next[id].node)
    ensures Inv(s.(rosters := s.rosters[i := next]))
  {
    hide Owns, PacketNotAhead;
    var rosters' := s.rosters[i := next];
    var own, own' := Owns(s.rosters), Owns(rosters');
    SoundAt(s.rosters, i);
    OwnsAfter(s.rosters, i, next);
    RosterGrows(own, own', i, next);
    hide Sound, RosterNotAhead;
    NotAheadGrows(own, own', s.rosters, s.packets);
  }

  lemma SoundAt(rosters: map<Str, Roster>, i: Str)
    requires AllSound(rosters) && i in rosters
    ensures Sound(i, rosters[i])
  {
  }

  lemma RosterGrows(own: map<Str, nat>, own': map<Str, nat>, i: Str, next: Roster)
    requires Sound(i, next) && Grows(own, own') && i in own' && own'[i] == next[i].node.incarnation
    requires forall id :: id in next && id != i ==> NotAhead(own, next[id].node)
    ensures RosterNotAhead(own', next)
  {
  }

  lemma OwnsAfter(rosters: map<Str, Roster>, i: Str, next: Roster)
    requires i in rosters && i in rosters[i] && i in next
    requires rosters[i][i].node.incarnation <= next[i].node.incarnation
    ensures Owns(rosters[i := next]) == Owns(rosters)[i := next[i].node.incarnation]
    ensures Grows(Owns(rosters), Owns(rosters[i := next]))
  {
  }

  /** Merging records that are not ahead yields entries that are not ahead. */
  lemma {:induction false} MergeNotAhead(own: map<Str, nat>, i: Str, roster: Roster, arrivals: seq<Arrival>, id: Str)
    requires Sound(i, roster) && RosterNotAhead(own, roster)
    requires forall k :: 0 <= k < |arrivals| ==> NotAhead(own, arrivals[k].node)
    requires id in MergedAll(i, roster, arrivals) && id != i
    ensures NotAhead(own, MergedAll(i, roster, arrivals)[id].node)
  {
    if arrivals != [] {
      var init := arrivals[..|arrivals| - 1];
      assert forall k :: 0 <= k < |init| ==> init[k] == arrivals[k];
      assert NotAhead(own, arrivals[|arrivals| - 1].node);
      MergedAllSound(i, roster, init);
      if id in MergedAll(i, roster, init) { MergeNotAhead(own, i, roster, init, id); }
    }
  }

  lemma InvAt(s: State, i: Str)
    requires Inv(s) && i in s.rosters
    ensures Sound(i, s.rosters[i]) && RosterNotAhead(Owns(s.rosters), s.rosters[i])
  {
    hide Owns, Sound, RosterNotAhead, PacketsNotAhead;
  }

  lemma MergedNotAhead(own: map<Str, nat>, i: Str, roster: Roster, payload: seq<Node>, now: int)
    requires Sound(i, roster) && RosterNotAhead(own, roster) && PacketNotAhead(own, payload)
    ensures var next := MergedAll(i, roster, Stamped(payload, now));
            && Sound(i, next) && roster[i].node.incarnation <= next[i].node.incarnation
            && forall id :: id in next && id != i ==> NotAhead(own, next[id].node)
  {
    var arrivals := Stamped(payload, now);
    MergedAllSound(i, roster, arrivals);
    SelfOutbidsEveryClaim(i, roster, arrivals);
    forall id | id in MergedAll(i, roster, arrivals) && id != i
      ensures NotAhead(own, MergedAll(i, roster, arrivals)[id].node)
    {
      MergeNotAhead(own, i, roster, arrivals, id);
    }
  }

  lemma SnapshotNotAhead(own: map<Str, nat>, roster: Roster, payload: seq<Node>)
    requires RosterNotAhead(own, roster) && IsSnapshot(payload, roster)
    ensures PacketNotAhead(own, payload)
  {
  }

  lemma AgedNotAhead(own: map<Str, nat>, i: Str, roster: Roster, now: int, timeout: int)
    requires Sound(i, roster) && RosterNotAhead(own, roster)
    ensures var next := Detected(i, roster, now, timeout);
            && Sound(i, next) && roster[i].node.incarnation <= next[i].node.incarnation && RosterNotAhead(own, next)
  {
  }

  lemma BumpKeepsInv(s: State, i: Str, now: int)
    requires Inv(s) && Enabled(s, Bump(i, now))
    ensures Inv(Apply(s, Bump(i, now)))
  {
    hide Owns, Inv, IsSnapshot;
    InvAt(s, i);
    LocalStepKeepsInv(s, i, Bumped(i, s.rosters[i], now));
  }

  lemma DetectKeepsInv(s: State, i: Str, now: int, timeout: int)
    requires Inv(s) && i in s.rosters
    ensures Inv(Apply(s, Detect(i, now, timeout)))
  {
    hide Owns, Inv, Sound, Detected, IsSnapshot;
    InvAt(s, i);
    AgedNotAhead(Owns(s.rosters), i, s.rosters[i], now, timeout);
    LocalStepKeepsInv(s, i, Detected(i, s.rosters[i], now, timeout));
  }

  lemma SendKeepsInv(s: State, i: Str, payload: seq<Node>)
    requires Inv(s) && i in s.rosters && IsSnapshot(payload, s.rosters[i])
    ensures Inv(Apply(s, Send(i, payload)))
  {
    hide Owns, IsSnapshot, PacketNotAhead, RosterNotAhead, AllSound, RostersNotAhead, Sound;
    InvAt(s, i);
    SnapshotNotAhead(Owns(s.rosters), s.rosters[i], payload);
  }

  lemma ReceiveKeepsInv(s: State, i: Str, payload: seq<Node>, now: int)
    requires Inv(s) && i in s.rosters && payload in s.packets
    ensures Inv(Apply(s, Receive(i, payload, now)))
  {
    hide Owns, AllSound, RostersNotAhead, PacketNotAhead, RosterNotAhead, NotAhead, Sound, MergedAll, IsSnapshot;
    InvAt(s, i);
    MergedNotAhead(Owns(s.rosters), i, s.rosters[i], payload, now);
    LocalStepKeepsInv(s, i, MergedAll(i, s.rosters[i], Stamped(payload, now)));
  }

  lemma StepKeepsInv(s: State, step: Step)
    requires Inv(s) && Enabled(s, step)
    ensures Inv(Apply(s, step))
  {
    hide Inv, Apply, IsSnapshot;
    match step {
      case Bump(i, now) => BumpKeepsInv(s, i, now);
      case Detect(i, now, timeout) => DetectKeepsInv(s, i, now, timeout);
      case Send(i, payload) => SendKeepsInv(s, i, payload);
      case Receive(i, payload, now) => ReceiveKeepsInv(s, i, payload, now);
    }
  }

  lemma {:induction false} RunKeepsInv(s: State, steps: seq<Step>)
    requires IsRun(s, steps)
    ensures Inv(Reached(s, steps))
    decreases |steps|
  {
    if steps != [] {
      RunKeepsInv(s, steps[..|steps| - 1]);
      StepKeepsInv(Reached(s, steps[..|steps| - 1]), steps[|steps| - 1]);
    }
  }

  // ---------------------------------------------------------------- Promises

  /** Some roster or some packet carries the record. */
  ghost predicate Mentions(s: State, r: Node) {
    || (exists i, j :: i in s.rosters && j in s.rosters[i] && s.rosters[i][j].node == r)
    || (exists p :: p in s.packets && r in p)
  }

  /** No roster and no packet ever carries an incarnation above the one its node has given itself. */
  lemma NobodyIsAhead(s: State, steps: seq<Step>, r: Node)
    requires IsRun(s, steps)
    requires Mentions(Reached(s, steps), r)
    ensures r.id in Reached(s, steps).rosters && r.id in Reached(s, steps).rosters[r.id]
    ensures r.incarnation <= Reached(s, steps).rosters[r.id][r.id].node.incarnation
  {
    RunKeepsInv(s, steps);
    var end := Reached(s, steps);
    assert NotAhead(Owns(end.rosters), r) by {
      hide Owns, IsRun, Reached;
      if i, j :| i in end.rosters && j in end.rosters[i] && end.rosters[i][j].node == r {
        assert RosterNotAhead(Owns(end.rosters), end.rosters[i]);
      } else {
        var p :| p in end.packets && r in p;
        assert PacketNotAhead(Owns(end.rosters), p);
      }
    }
  }

  /** A node always knows itself and holds itself alive. */
  lemma SelfStaysAlive(s: State, steps: seq<Step>, i: Str)
    requires IsRun(s, steps) && i in Reached(s, steps).rosters
    ensures i in Reached(s, steps).rosters[i] && Reached(s, steps).rosters[i][i].node.state == ALIVE
  {
    RunKeepsInv(s, steps);
    assert Sound(i, Reached(s, steps).rosters[i]);
  }

  /** No roster forgets a member or holds less recent information about it than before. */
  ghost predicate Rises(a: Roster, b: Roster) {
    forall id :: id in a ==> id in b && RankLeq(a[id].node, b[id].node)
  }

  ghost predicate AllRise(a: map<Str, Roster>, b: map<Str, Roster>) {
    forall i :: i in a ==> i in b && Rises(a[i], b[i])
  }

  lemma ReceiveRises(i: Str, roster: Roster, arrivals: seq<Arrival>)
    requires Sound(i, roster)
    ensures Rises(roster, MergedAll(i, roster, arrivals))
  {
  }

  lemma StepRises(s: State, step: Step)
    requires Inv(s) && Enabled(s, step)
    ensures AllRise(s.rosters, Apply(s, step).rosters)
  {
    hide Inv, Rises, IsSnapshot, MergedAll, Sound, RosterNotAhead, Bumped, Detected;
    var i := step.node;
    InvAt(s, i);
    forall r: Roster ensures Rises(r, r) { RisesReflexive(r); }
    match step {
      case Bump(_, now) => LocalRises(i, s.rosters[i], now, 0);
      case Detect(_, now, timeout) => LocalRises(i, s.rosters[i], now, timeout);
      case Send(_, _) =>
      case Receive(_, payload, now) => ReceiveRises(i, s.rosters[i], Stamped(payload, now));
    }
  }

  lemma RisesReflexive(r: Roster)
    ensures Rises(r, r)
  {
  }

  lemma LocalRises(i: Str, roster: Roster, now: int, timeout: int)
    requires Sound(i, roster)
    ensures Rises(roster, Bumped(i, roster, now)) && Rises(roster, Detected(i, roster, now, timeout))
  {
  }

  /** Between any two points of a run, nothing any roster knows is lost or grows older. */
  lemma {:induction false} RankNeverFalls(s: State, steps: seq<Step>, k: nat)
    requires IsRun(s, steps) && k <= |steps| && IsRun(s, steps[..k])
    ensures AllRise(Reached(s, steps[..k]).rosters, Reached(s, steps).rosters)
    decreases |steps|
  {
    if k == |steps| {
      assert steps[..k] == steps;
    } else {
      var init := steps[..|steps| - 1];
      assert init[..k] == steps[..k];
      RankNeverFalls(s, init, k);
      RunKeepsInv(s, init);
      StepRises(Reached(s, init), steps[|steps| - 1]);
      RisesTransitive(Reached(s, steps[..k]).rosters, Reached(s, init).rosters, Reached(s, steps).rosters);
    }
  }

  lemma RisesTransitive(a: map<Str, Roster>, b: map<Str, Roster>, c: map<Str, Roster>)
    requires AllRise(a, b) && AllRise(b, c)
    ensures AllRise(a, c)
  {
  }

  /** A heartbeat puts a node strictly ahead of everything anybody else holds or has ever sent about it. */
  lemma HeartbeatOutrunsAll(s: State, j: Str, now: int, r: Node)
    requires Inv(s) && j in s.rosters && r.id == j
    requires || (exists i :: i in s.rosters && i != j && j in s.rosters[i] && s.rosters[i][j].node == r)
             || (exists p :: p in s.packets && r in p)
    ensures Enabled(s, Bump(j, now)) && j in Apply(s, Bump(j, now)).rosters[j]
    ensures r.incarnation < Apply(s, Bump(j, now)).rosters[j][j].node.incarnation
  {
    assert Sound(j, s.rosters[j]);
    assert NotAhead(Owns(s.rosters), r) by {
      hide Owns;
      if i :| i in s.rosters && i != j && j in s.rosters[i] && s.rosters[i][j].node == r {
        assert RosterNotAhead(Owns(s.rosters), s.rosters[i]);
      } else {
        var p :| p in s.packets && r in p;
        assert PacketNotAhead(Owns(s.rosters), p);
      }
    }
  }

  /**
   A snapshot in which `j` is alive makes its receiver hold `j` alive exactly when the receiver
   does not already know something at least as recent that says otherwise.
   */
  lemma SnapshotRevivesIff(self: Str, roster: Roster, j: Str, sender: Roster, payload: seq<Node>, now: int)
    requires Sound(self, roster) && j != self && IsSnapshot(payload, sender)
    requires j in sender && sender[j].node.id == j && sender[j].node.state == ALIVE
    ensures j in MergedAll(self, roster, Stamped(payload, now))
    ensures MergedAll(self, roster, Stamped(payload, now))[j].node.state == ALIVE <==>
              (j in roster && roster[j].node.state != ALIVE ==> roster[j].node.incarnation < sender[j].node.incarnation)
  {
    var arrivals := Stamped(payload, now);
    MergeKeepsTopRank(self, roster, arrivals, j);
    var r := sender[j].node;
    assert r in payload;
    var k :| 0 <= k < |payload| && payload[k] == r;
    assert arrivals[k].node.id == j;
    var end := MergedAll(self, roster, arrivals)[j].node;
    assert RankLeq(arrivals[k].node, end);
    if !(j in roster && SameRank(roster[j].node, end)) {
      var m :| 0 <= m < |arrivals| && arrivals[m].node.id == j && SameRank(arrivals[m].node, end);
      assert m == k;
    }
  }

  // ---------------------------------------------------------------- Addresses

  ghost predicate IsTrue(home: map<Str, Str>, r: Node) {
    r.id in home && r.addr == home[r.id]
  }

  ghost predicate RosterIsTrue(home: map<Str, Str>, roster: Roster) {
    forall id :: id in roster ==> IsTrue(home, roster[id].node)
  }

  ghost predicate PacketIsTrue(home: map<Str, Str>, payload: seq<Node>) {
    forall k :: 0 <= k < |payload| ==> IsTrue(home, payload[k])
  }

  ghost predicate AllTrue(home: map<Str, Str>, s: State) {
    && (forall i :: i in s.rosters ==> RosterIsTrue(home, s.rosters[i]))
    && (forall p :: p in s.packets ==> PacketIsTrue(home, p))
  }

  lemma {:induction false} MergeIsTrue(home: map<Str, Str>, i: Str, roster: Roster, arrivals: seq<Arrival>)
    requires RosterIsTrue(home, roster) && forall k :: 0 <= k < |arrivals| ==> IsTrue(home, arrivals[k].node)
    ensures RosterIsTrue(home, MergedAll(i, roster, arrivals))
  {
    if arrivals != [] { MergeIsTrue(home, i, roster, arrivals[..|arrivals| - 1]); }
  }

  lemma LocalIsTrue(home: map<Str, Str>, i: Str, roster: Roster, now: int, timeout: int)
    requires RosterIsTrue(home, roster) && i in roster
    ensures RosterIsTrue(home, Bumped(i, roster, now)) && RosterIsTrue(home, Detected(i, roster, now, timeout))
  {
  }

  lemma SnapshotIsTrue(home: map<Str, Str>, roster: Roster, payload: seq<Node>)
    requires RosterIsTrue(home, roster) && IsSnapshot(payload, roster)
    ensures PacketIsTrue(home, payload)
  {
  }

  lemma StepIsTrue(home: map<Str, Str>, s: State, step: Step)
    requires Inv(s) && AllTrue(home, s) && Enabled(s, step)
    ensures AllTrue(home, Apply(s, step))
  {
    hide Inv, RosterIsTrue, IsSnapshot, MergedAll, Bumped, Detected, RosterNotAhead;
    var i := step.node;
    InvAt(s, i);
    match step {
      case Bump(_, now) => LocalIsTrue(home, i, s.rosters[i], now, 0);
      case Detect(_, now, timeout) => LocalIsTrue(home, i, s.rosters[i], now, timeout);
      case Send(_, payload) => SnapshotIsTrue(home, s.rosters[i], payload);
      case Receive(_, payload, now) =>
        assert PacketIsTrue(home, payload);
        MergeIsTrue(home, i, s.rosters[i], Stamped(payload, now));
    }
  }

  /** The address each node starts out with. */
  ghost function Homes(s: State): map<Str, Str>
    requires IsInit(s)
  {
    map i | i in s.rosters :: s.rosters[i][i].node.addr
  }

  lemma RunIsInit(s: State, steps: seq<Step>)
    requires IsRun(s, steps)
    ensures IsInit(s)
  {
    if steps != [] { RunIsInit(s, steps[..|steps| - 1]); }
  }

  lemma {:induction false} RunIsTrue(s: State, steps: seq<Step>)
    requires IsRun(s, steps) && IsInit(s)
    ensures AllTrue(Homes(s), Reached(s, steps))
    decreases |steps|
  {
    if steps != [] {
      hide AllTrue, Inv, Homes, IsInit;
      var init := steps[..|steps| - 1];
      RunIsTrue(s, init);
      RunKeepsInv(s, init);
      StepIsTrue(Homes(s), Reached(s, init), steps[|steps| - 1]);
    } else {
      forall i | i in s.rosters ensures RosterIsTrue(Homes(s), s.rosters[i]) { assert Sound(i, s.rosters[i]); }
    }
  }

  /** Whatever is lost, repeated or reordered, every record of a node anywhere gives the address it started with. */
  lemma AddressesAreTrue(s: State, steps: seq<Step>, r: Node)
    requires IsRun(s, steps) && Mentions(Reached(s, steps), r)
    ensures r.id in s.rosters && r.id in s.rosters[r.id] && r.addr == s.rosters[r.id][r.id].node.addr
  {
    RunIsInit(s, steps);
    RunIsTrue(s, steps);
    var end := Reached(s, steps);
    hide IsRun, Reached;
    assert IsTrue(Homes(s), r) by {
      if i, j :| i in end.rosters && j in end.rosters[i] && end.rosters[i][j].node == r {
        assert RosterIsTrue(Homes(s), end.rosters[i]);
      } else {
        var p :| p in end.packets && r in p;
        assert PacketIsTrue(Homes(s), p);
      }
    }
  }
}
