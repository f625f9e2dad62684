/**
 The exchange by which a node wrongly held dead comes back (internal/cluster/membership.go,
 internal/cluster/gossip.go), over whole runs: `i` sends its snapshot, `j` merges it and refutes what it
 says about `j`, `j` sends its own, `i` merges that, with any other steps in between.
 */
module GossipExchange {
  import opened Bytes
  import opened Membership
  import opened Gossip

  // ---------------------------------------------------------------- Points of a run

  lemma {:induction false} RunPrefix(s: State, steps: seq<Step>, k: nat)
    requires IsRun(s, steps) && k <= |steps|
    ensures IsRun(s, steps[..k])
    decreases |steps|
  {
    if k == |steps| {
      assert steps[..k] == steps;
    } else {
      assert steps[..|steps| - 1][..k] == steps[..k];
      RunPrefix(s, steps[..|steps| - 1], k);
    }
  }

  /** The state after the first `k` steps. */
  ghost function StateAt(s: State, steps: seq<Step>, k: nat): State
    requires IsRun(s, steps) && k <= |steps|
  {
    RunPrefix(s, steps, k);
    Reached(s, steps[..k])
  }

  lemma StepAt(s: State, steps: seq<Step>, k: nat)
    requires IsRun(s, steps) && k < |steps|
    ensures Inv(StateAt(s, steps, k)) && Enabled(StateAt(s, steps, k), steps[k])
    ensures StateAt(s, steps, k + 1) == Apply(StateAt(s, steps, k), steps[k])
  {
    RunPrefix(s, steps, k);
    RunPrefix(s, steps, k + 1);
    RunKeepsInv(s, steps[..k]);
    assert steps[..k + 1][..k] == steps[..k];
    hide Inv, Apply, Enabled;
  }

  lemma LaterRises(s: State, steps: seq<Step>, k: nat, m: nat)
    requires IsRun(s, steps) && k <= m <= |steps|
    ensures AllRise(StateAt(s, steps, k).rosters, StateAt(s, steps, m).rosters)
  {
    RunPrefix(s, steps, k);
    RunPrefix(s, steps, m);
    assert steps[..m][..k] == steps[..k];
    hide AllRise, Reached;
    RankNeverFalls(s, steps[..m], k);
  }

  // ---------------------------------------------------------------- What a roster holds

  /** What `i` holds about `j`, if anything. */
  ghost function Held(s: State, i: Str, j: Str): Option<Node> {
    if i in s.rosters && j in s.rosters[i] then Some(s.rosters[i][j].node) else None
  }

  ghost predicate HoldsAlive(s: State, i: Str, j: Str) {
    Held(s, i, j).Some? && Held(s, i, j).value.state == ALIVE
  }

  /** The incarnation `j` has given itself. */
  ghost function OwnIncarnation(s: State, j: Str): nat {
    if Held(s, j, j).Some? then Held(s, j, j).value.incarnation else 0
  }

  /** `i` holds `j` not alive at this incarnation or a later one. */
  ghost predicate Blocks(s: State, i: Str, j: Str, incarnation: nat) {
    Held(s, i, j).Some? && Held(s, i, j).value.state != ALIVE && Held(s, i, j).value.incarnation >= incarnation
  }

  /** Merging a snapshot puts `j` above whatever the snapshot says against it. */
  lemma Refutes(j: Str, roster: Roster, sender: Roster, payload: seq<Node>, now: int)
    requires Sound(j, roster) && IsSnapshot(payload, sender)
    ensures j in MergedAll(j, roster, Stamped(payload, now))
    ensures j in sender && sender[j].node.id == j && sender[j].node.state != ALIVE ==>
              sender[j].node.incarnation < MergedAll(j, roster, Stamped(payload, now))[j].node.incarnation
  {
    var arrivals := Stamped(payload, now);
    SelfOutbidsEveryClaim(j, roster, arrivals);
    if j in sender && sender[j].node.id == j && sender[j].node.state != ALIVE {
      assert sender[j].node in payload;
      var k :| 0 <= k < |payload| && payload[k] == sender[j].node;
      assert IsFalseClaim(j, arrivals[k].node);
    }
  }

  // ---------------------------------------------------------------- The exchange

  /** The four steps, in this order, anywhere in the run. */
  ghost predicate IsExchange(steps: seq<Step>, i: Str, j: Str, a: nat, b: nat, c: nat, d: nat) {
    && i != j && a < b < c < d < |steps|
    && steps[a].Send? && steps[a].node == i
    && steps[b].Receive? && steps[b].node == j && steps[b].payload == steps[a].payload
    && steps[c].Send? && steps[c].node == j
    && steps[d].Receive? && steps[d].node == i && steps[d].payload == steps[c].payload
  }

  lemma SentAt(s: State, steps: seq<Step>, k: nat)
    requires IsRun(s, steps) && k < |steps| && steps[k].Send?
    ensures var t, i := StateAt(s, steps, k), steps[k].node;
            i in t.rosters && Sound(i, t.rosters[i]) && IsSnapshot(steps[k].payload, t.rosters[i])
  {
    hide Inv, IsRun, StateAt, IsSnapshot, RosterNotAhead, Sound, Apply;
    StepAt(s, steps, k);
    InvAt(StateAt(s, steps, k), steps[k].node);
  }

  lemma ReceivedAt(s: State, steps: seq<Step>, k: nat)
    requires IsRun(s, steps) && k < |steps| && steps[k].Receive?
    ensures var t, u, i := StateAt(s, steps, k), StateAt(s, steps, k + 1), steps[k].node;
            && i in t.rosters && Sound(i, t.rosters[i]) && i in u.rosters
            && u.rosters[i] == MergedAll(i, t.rosters[i], Stamped(steps[k].payload, steps[k].now))
  {
    hide Inv, IsRun, StateAt, IsSnapshot, RosterNotAhead, Sound, MergedAll;
    StepAt(s, steps, k);
    InvAt(StateAt(s, steps, k), steps[k].node);
  }

  /** What `i` held when it sent its snapshot never stands against the snapshot that comes back. */
  lemma OldBeliefNeverBlocks(s: State, steps: seq<Step>, i: Str, j: Str, a: nat, b: nat, c: nat, d: nat)
    requires IsRun(s, steps) && IsExchange(steps, i, j, a, b, c, d)
    ensures !Blocks(StateAt(s, steps, a), i, j, OwnIncarnation(StateAt(s, steps, c), j))
  {
    hide IsRun, StateAt, MergedAll, IsSnapshot;
    SentAt(s, steps, a);
    ReceivedAt(s, steps, b);
    LaterRises(s, steps, b + 1, c);
    var sa, sb, sc := StateAt(s, steps, a), StateAt(s, steps, b), StateAt(s, steps, c);
    Refutes(j, sb.rosters[j], sa.rosters[i], steps[a].payload, steps[b].now);
    assert Rises(StateAt(s, steps, b + 1).rosters[j], sc.rosters[j]);
  }

  /**
   After the exchange `i` holds `j` alive if and only if, when the snapshot of `j` arrives, `i` holds no
   record of `j` as not alive at the incarnation of that snapshot or later.
   */
  lemma ExchangeRevivesIff(s: State, steps: seq<Step>, i: Str, j: Str, a: nat, b: nat, c: nat, d: nat)
    requires IsRun(s, steps) && IsExchange(steps, i, j, a, b, c, d)
    ensures Held(StateAt(s, steps, d + 1), i, j).Some?
    ensures HoldsAlive(StateAt(s, steps, d + 1), i, j) <==>
              !Blocks(StateAt(s, steps, d), i, j, OwnIncarnation(StateAt(s, steps, c), j))
  {
    hide IsRun, StateAt, MergedAll, IsSnapshot;
    SentAt(s, steps, c);
    ReceivedAt(s, steps, d);
    var sc, sd := StateAt(s, steps, c), StateAt(s, steps, d);
    SnapshotRevivesIff(i, sd.rosters[i], j, sc.rosters[j], steps[c].payload, steps[d].now);
  }

  /** So it succeeds whenever `i` has learnt nothing new about `j` in the meantime. */
  lemma ExchangeRevives(s: State, steps: seq<Step>, i: Str, j: Str, a: nat, b: nat, c: nat, d: nat)
    requires IsRun(s, steps) && IsExchange(steps, i, j, a, b, c, d)
    requires Held(StateAt(s, steps, d), i, j) == Held(StateAt(s, steps, a), i, j)
    ensures HoldsAlive(StateAt(s, steps, d + 1), i, j)
  {
    hide IsRun, StateAt;
    OldBeliefNeverBlocks(s, steps, i, j, a, b, c, d);
    ExchangeRevivesIff(s, steps, i, j, a, b, c, d);
  }

  // ---------------------------------------------------------------- An exchange that fails

  const I: Str := [73]
  const J: Str := [74]

  function At(id: Str, incarnation: nat): Node { Node(id, [], ALIVE, incarnation) }

  function Alone(id: Str): Roster { map[id := Entry(At(id, 0), 0)] }

  function Start(): State { State(map[I := Alone(I), J := Alone(J)], {}) }

  /** One gossip round of a node: it beats, detects failures with a timeout of 1, and sends its snapshot. */
  function Round(node: Str, now: int, payload: seq<Node>): seq<Step> {
    [Bump(node, now), Detect(node, now, 1), Send(node, payload)]
  }

  function First(): seq<Node> { [At(I, 1)] }

  function Second(): seq<Node> { [At(J, 1), At(I, 1)] }

  function Third(): seq<Node> { [At(I, 2), Node(J, [], DEAD, 1)] }

  /** `i` merges the snapshot of `j`, hears nothing more until `j` times out, and then gets a duplicate. */
  function Interleaved(): seq<Step> {
    Round(I, 0, First()) + [Receive(J, First(), 0)] + Round(J, 0, Second()) + [Receive(I, Second(), 0)] +
    Round(I, 2, Third()) + [Receive(I, Second(), 3)]
  }

  lemma RunSnoc(s: State, steps: seq<Step>, step: Step)
    requires IsRun(s, steps) && Enabled(Reached(s, steps), step)
    ensures IsRun(s, steps + [step]) && Reached(s, steps + [step]) == Apply(Reached(s, steps), step)
  {
    assert (steps + [step])[..|steps|] == steps;
  }

  /** The roster a round leaves behind. */
  function RoundOf(node: Str, roster: Roster, now: int): Roster
    requires node in roster
  {
    Detected(node, Bumped(node, roster, now), now, 1)
  }

  lemma RunRound(s: State, steps: seq<Step>, node: Str, now: int, payload: seq<Node>)
    requires IsRun(s, steps)
    requires var t := Reached(s, steps);
             node in t.rosters && node in t.rosters[node] && IsSnapshot(payload, RoundOf(node, t.rosters[node], now))
    ensures IsRun(s, steps + Round(node, now, payload))
    ensures var t := Reached(s, steps);
            Reached(s, steps + Round(node, now, payload)) ==
              State(t.rosters[node := RoundOf(node, t.rosters[node], now)], t.packets + {payload})
  {
    hide IsRun, Reached, IsSnapshot, Bumped, Detected;
    RunSnoc(s, steps, Bump(node, now));
    var one := steps + [Bump(node, now)];
    RunSnoc(s, one, Detect(node, now, 1));
    var two := one + [Detect(node, now, 1)];
    RunSnoc(s, two, Send(node, payload));
    assert two + [Send(node, payload)] == steps + Round(node, now, payload);
    var rosters := Reached(s, steps).rosters;
    assert Reached(s, two).rosters == rosters[node := RoundOf(node, rosters[node], now)];
  }

  lemma RunReceive(s: State, steps: seq<Step>, node: Str, payload: seq<Node>, now: int)
    requires IsRun(s, steps) && node in Reached(s, steps).rosters && payload in Reached(s, steps).packets
    ensures IsRun(s, steps + [Receive(node, payload, now)])
    ensures var t := Reached(s, steps);
            Reached(s, steps + [Receive(node, payload, now)]) ==
              t.(rosters := t.rosters[node := MergedAll(node, t.rosters[node], Stamped(payload, now))])
  {
    hide IsRun, Reached, MergedAll, IsSnapshot;
    RunSnoc(s, steps, Receive(node, payload, now));
  }

  lemma MergedOne(self: Str, roster: Roster, r: Node, now: int)
    ensures MergedAll(self, roster, Stamped([r], now)) == Merged(self, roster, r, now)
  {
    var arrivals := Stamped([r], now);
    assert arrivals[..0] == [];
  }

  lemma MergedTwo(self: Str, roster: Roster, q: Node, r: Node, now: int)
    ensures MergedAll(self, roster, Stamped([q, r], now)) == Merged(self, Merged(self, roster, q, now), r, now)
  {
    var arrivals := Stamped([q, r], now);
    assert arrivals[..1] == Stamped([q], now);
    MergedOne(self, roster, q, now);
  }

  // The rosters of the interleaved run, in the order in which they arise.

  function I1(): Roster { map[I := Entry(At(I, 1), 0)] }

  function J1(): Roster { map[J := Entry(At(J, 0), 0), I := Entry(At(I, 1), 0)] }

  function Both(): Roster { map[I := Entry(At(I, 1), 0), J := Entry(At(J, 1), 0)] }

  function Late(): Roster { map[I := Entry(At(I, 2), 2), J := Entry(Node(J, [], DEAD, 1), 0)] }

  lemma Rounds()
    ensures I != J
    ensures RoundOf(I, Alone(I), 0) == I1() && RoundOf(J, J1(), 0) == Both() && RoundOf(I, Both(), 2) == Late()
  {
    assert I[0] != J[0];
  }

  lemma Snapshots()
    ensures IsSnapshot(First(), I1()) && IsSnapshot(Second(), Both()) && IsSnapshot(Third(), Late())
  {
    assert I[0] != J[0];
  }

  lemma Merges()
    ensures MergedAll(J, Alone(J), Stamped(First(), 0)) == J1()
    ensures MergedAll(I, I1(), Stamped(Second(), 0)) == Both()
    ensures MergedAll(I, Late(), Stamped(Second(), 3)) == Late()
  {
    assert I[0] != J[0];
    MergedOne(J, Alone(J), At(I, 1), 0);
    MergedTwo(I, I1(), At(J, 1), At(I, 1), 0);
    MergedTwo(I, Late(), At(J, 1), At(I, 1), 3);
  }

  lemma StartRuns()
    ensures IsRun(Start(), []) && Reached(Start(), []) == Start()
  {
    assert I[0] != J[0];
  }

  lemma InterleavedRuns()
    ensures IsRun(Start(), Interleaved()) && Reached(Start(), Interleaved()).rosters == map[I := Late(), J := Both()]
  {
    Rounds();
    Snapshots();
    Merges();
    StartRuns();
    hide IsRun, Reached, IsSnapshot, MergedAll, RoundOf, Stamped;
    var s := Start();
    RunRound(s, [], I, 0, First());
    var p := [] + Round(I, 0, First());
    RunReceive(s, p, J, First(), 0);
    p := p + [Receive(J, First(), 0)];
    RunRound(s, p, J, 0, Second());
    p := p + Round(J, 0, Second());
    RunReceive(s, p, I, Second(), 0);
    p := p + [Receive(I, Second(), 0)];
    RunRound(s, p, I, 2, Third());
    p := p + Round(I, 2, Third());
    RunReceive(s, p, I, Second(), 3);
    assert p + [Receive(I, Second(), 3)] == Interleaved();
  }

  /**
   The promise fails without the condition: in this run of whole rounds, the exchange made of steps 2, 3, 6
   and 11 leaves `j` dead at `i`.
   */
  lemma InterleavedExchangeFails()
    ensures |Interleaved()| == 12
    ensures IsRun(Start(), Interleaved()) && IsExchange(Interleaved(), I, J, 2, 3, 6, 11)
    ensures !HoldsAlive(StateAt(Start(), Interleaved(), 12), I, J)
  {
    hide IsRun, Reached;
    InterleavedRuns();
    assert I[0] != J[0];
    assert Interleaved()[..12] == Interleaved();
  }
}
