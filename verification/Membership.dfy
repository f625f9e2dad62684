/**
 Gossip membership (internal/cluster/membership.go): one node's roster, the rules that merge
 gossiped records into it, and what those rules make of any number of records in any order.
 */
module Membership {
  import opened Bytes

  /** Liveness, ordered by deadness so that a merge can take the deader state on a tie; 1, suspect, lies between. */
  const ALIVE: nat := 0
  const DEAD: nat := 2

  datatype Node = Node(id: Str, addr: Str, state: nat, incarnation: nat)

  datatype Entry = Entry(node: Node, lastSeen: int)

  type Roster = map<Str, Entry>

  /** A gossiped record together with the local time at which it is merged. */
  datatype Arrival = Arrival(node: Node, at: int)

  // ---------------------------------------------------------------- Merging one record

  function Merged(self: Str, roster: Roster, r: Node, now: int): Roster {
    if r.id !in roster then roster[r.id := Entry(r, now)]
    else
      var local := roster[r.id];
      if r.id == self then
        if r.state != ALIVE && r.incarnation >= local.node.incarnation then
          roster[r.id := Entry(local.node.(incarnation := r.incarnation + 1, state := ALIVE), now)]
        else roster
      else if r.incarnation > local.node.incarnation then roster[r.id := Entry(r, now)]
      else if r.incarnation == local.node.incarnation && r.state > local.node.state then
        roster[r.id := Entry(local.node.(state := r.state), now)]
      else roster
  }

  function MergedAll(self: Str, roster: Roster, arrivals: seq<Arrival>): Roster {
    if arrivals == [] then roster
    else
      var last := arrivals[|arrivals| - 1];
      Merged(self, MergedAll(self, roster, arrivals[..|arrivals| - 1]), last.node, last.at)
  }

  function Stamped(nodes: seq<Node>, now: int): (arrivals: seq<Arrival>)
    ensures |arrivals| == |nodes| && forall i :: 0 <= i < |nodes| ==> arrivals[i] == Arrival(nodes[i], now)
  {
    seq(|nodes|, i requires 0 <= i < |nodes| => Arrival(nodes[i], now))
  }

  // ---------------------------------------------------------------- The roster

  /** What every operation keeps: entries under their own ID, and self present and alive. */
  predicate Sound(self: Str, roster: Roster) {
    && self in roster && roster[self].node.state == ALIVE
    && forall id | id in roster :: roster[id].node.id == id
  }

  function Bumped(self: Str, roster: Roster, now: int): Roster
    requires self in roster
  {
    var e := roster[self];
    roster[self := Entry(e.node.(incarnation := e.node.incarnation + 1), now)]
  }

  function Aged(self: Str, e: Entry, now: int, timeout: int): Entry {
    var silent := e.node.id != self && e.node.state == ALIVE && now - e.lastSeen > timeout;
    if silent then e.(node := e.node.(state := DEAD)) else e
  }

  function Detected(self: Str, roster: Roster, now: int, timeout: int): Roster {
    map id | id in roster :: Aged(self, roster[id], now, timeout)
  }

  /** A payload that lists every member's record once, in any order. */
  ghost predicate IsSnapshot(payload: seq<Node>, roster: Roster) {
    && (forall r :: r in payload ==> r.id in roster && roster[r.id].node == r)
    && (forall id :: id in roster ==> roster[id].node in payload)
    && forall i, j :: 0 <= i < j < |payload| ==> payload[i].id != payload[j].id
  }

  class Members {
    const self: Str
    var nodes: Roster

    ghost predicate Valid()
      reads this
    {
      Sound(self, nodes)
    }

    /** A roster with self as its only member, forced to be alive. */
    constructor (me: Node, now: int)
      ensures Valid() && self == me.id && nodes == map[me.id := Entry(me.(state := ALIVE), now)]
    {
      self := me.id;
      nodes := map[me.id := Entry(me.(state := ALIVE), now)];
    }

    /** The heartbeat: self's incarnation rises by one. */
    method Bump(now: int)
      requires Valid()
      modifies this
      ensures Valid() && nodes == Bumped(self, old(nodes), now)
    {
      var e := nodes[self];
      nodes := nodes[self := Entry(e.node.(incarnation := e.node.incarnation + 1), now)];
    }

    /** Fold a peer's view in, record by record. */
    method Merge(remote: seq<Node>, now: int)
      requires Valid()
      modifies this
      ensures Valid() && nodes == MergedAll(self, old(nodes), Stamped(remote, now))
    {
      ghost var arrivals := Stamped(remote, now);
      for i := 0 to |remote|
        invariant Valid() && nodes == MergedAll(self, old(nodes), arrivals[..i])
      {
        var r := remote[i];
        ghost var before := nodes;
        assert arrivals[..i + 1][..i] == arrivals[..i];
        MergedSound(self, nodes, r, now);
        if r.id !in nodes {
          nodes := nodes[r.id := Entry(r, now)];
        } else {
          var local := nodes[r.id];
          if r.id == self {
            if r.state != ALIVE && r.incarnation >= local.node.incarnation {
              nodes := nodes[r.id := Entry(local.node.(incarnation := r.incarnation + 1, state := ALIVE), now)];
            }
          } else if r.incarnation > local.node.incarnation {
            nodes := nodes[r.id := Entry(r, now)];
          } else if r.incarnation == local.node.incarnation && r.state > local.node.state {
            nodes := nodes[r.id := Entry(local.node.(state := r.state), now)];
          }
        }
        assert nodes == Merged(self, before, r, now);
      }
      assert arrivals[..|remote|] == arrivals;
    }

    /** Mark every alive node other than self dead when it has been silent for too long. */
    method DetectFailures(now: int, timeout: int)
      requires Valid()
      modifies this
      ensures Valid() && nodes == Detected(self, old(nodes), now, timeout)
    {
      ghost var before := nodes;
      var rest := nodes.Keys;
      while rest != {}
        invariant rest <= nodes.Keys == before.Keys
        invariant forall id :: id in before ==>
                    nodes[id] == if id in rest then before[id] else Aged(self, before[id], now, timeout)
      {
        var id :| id in rest;
        var e := nodes[id];
        if e.node.id != self && e.node.state == ALIVE && now - e.lastSeen > timeout {
          nodes := nodes[id := e.(node := e.node.(state := DEAD))];
        }
        rest := rest - {id};
      }
      assert nodes == Detected(self, before, now, timeout);
    }

    /** A copy of every member's record, in whatever order the map yields. */
    method Snapshot() returns (payload: seq<Node>)
      requires Valid()
      ensures IsSnapshot(payload, nodes)
    {
      payload := [];
      var rest := nodes.Keys;
      while rest != {}
        invariant rest <= nodes.Keys
        invariant forall r :: r in payload ==> r.id in nodes && r.id !in rest && nodes[r.id].node == r
        invariant forall id :: id in nodes && id !in rest ==> nodes[id].node in payload
        invariant forall i, j :: 0 <= i < j < |payload| ==> payload[i].id != payload[j].id
      {
        var id :| id in rest;
        payload := payload + [nodes[id].node];
        rest := rest - {id};
      }
    }

    /** The members currently alive, self always among them. */
    method Alive() returns (alive: seq<Node>)
      requires Valid()
      ensures forall r :: r in alive <==> r.id in nodes && nodes[r.id].node == r && r.state == ALIVE
      ensures exists r :: r in alive && r.id == self
      ensures forall i, j :: 0 <= i < j < |alive| ==> alive[i].id != alive[j].id
    {
      alive := [];
      var rest := nodes.Keys;
      while rest != {}
        invariant rest <= nodes.Keys
        invariant forall r :: r in alive <==>
                      r.id in nodes && r.id !in rest && nodes[r.id].node == r && r.state == ALIVE
        invariant forall i, j :: 0 <= i < j < |alive| ==> alive[i].id != alive[j].id
      {
        var id :| id in rest;
        if nodes[id].node.state == ALIVE { alive := alive + [nodes[id].node]; }
        rest := rest - {id};
      }
      assert nodes[self].node in alive;
    }
  }

  // ---------------------------------------------------------------- Ranks

  /** Newer information has the higher rank: incarnation first, then deadness. */
  predicate RankLeq(a: Node, b: Node) {
    a.incarnation < b.incarnation || (a.incarnation == b.incarnation && a.state <= b.state)
  }

  predicate SameRank(a: Node, b: Node) {
    a.incarnation == b.incarnation && a.state == b.state
  }

  lemma MergedSound(self: Str, roster: Roster, r: Node, now: int)
    requires Sound(self, roster)
    ensures Sound(self, Merged(self, roster, r, now))
  {
  }

  /**
   Only news counts as a sign of life: an entry's clock is renewed exactly when its rank rises. Its
   address changes only with a strictly higher incarnation, and never for self.
   */
  lemma OnlyNewsRenews(self: Str, roster: Roster, r: Node, now: int, id: Str)
    requires Sound(self, roster) && id in roster
    ensures id in Merged(self, roster, r, now)
    ensures var before, after := roster[id], Merged(self, roster, r, now)[id];
            && after.lastSeen == (if SameRank(before.node, after.node) then before.lastSeen else now)
            && (id != r.id ==> after == before)
            && (after.node.addr != before.node.addr ==> id != self && before.node.incarnation < after.node.incarnation)
  {
  }

  /**
   What one record does to a node other than self: unknown or with a higher incarnation it is taken whole,
   address included; on a tie only the deader state is taken; otherwise nothing is.
   */
  lemma NewsIsTakenWhole(self: Str, roster: Roster, r: Node, now: int)
    requires r.id != self
    ensures r.id in Merged(self, roster, r, now)
    ensures var after := Merged(self, roster, r, now)[r.id];
            if r.id !in roster || roster[r.id].node.incarnation < r.incarnation then after == Entry(r, now)
            else
              && after.node.addr == roster[r.id].node.addr && after.node.incarnation == roster[r.id].node.incarnation
              && (r.incarnation < after.node.incarnation ==> after == roster[r.id])
              && (r.incarnation == after.node.incarnation ==>
                    after.node.state == if r.state > roster[r.id].node.state then r.state else roster[r.id].node.state)
  {
  }

  lemma {:induction false} MergedAllSound(self: Str, roster: Roster, arrivals: seq<Arrival>)
    requires Sound(self, roster)
    ensures Sound(self, MergedAll(self, roster, arrivals))
  {
    if arrivals != [] {
      MergedAllSound(self, roster, arrivals[..|arrivals| - 1]);
    }
  }

  /** The record about `id` among the start and the arrivals; rank `r` tops them all. */
  ghost predicate TopRank(roster: Roster, arrivals: seq<Arrival>, id: Str, r: Node) {
    && (id in roster ==> RankLeq(roster[id].node, r))
    && (forall i :: 0 <= i < |arrivals| && arrivals[i].node.id == id ==> RankLeq(arrivals[i].node, r))
    && (|| (id in roster && SameRank(roster[id].node, r))
        || (exists i :: 0 <= i < |arrivals| && arrivals[i].node.id == id && SameRank(arrivals[i].node, r)))
  }

  /** Whether anything at all is known about `id`. */
  ghost predicate Mentioned(roster: Roster, arrivals: seq<Arrival>, id: Str) {
    id in roster || exists i :: 0 <= i < |arrivals| && arrivals[i].node.id == id
  }

  /** For a node other than self, merging keeps exactly the top rank of everything heard about it. */
  lemma {:induction false} MergeKeepsTopRank(self: Str, roster: Roster, arrivals: seq<Arrival>, id: Str)
    requires Sound(self, roster) && id != self
    ensures id in MergedAll(self, roster, arrivals) <==> Mentioned(roster, arrivals, id)
    ensures id in MergedAll(self, roster, arrivals) ==>
              TopRank(roster, arrivals, id, MergedAll(self, roster, arrivals)[id].node)
  {
    if arrivals != [] {
      var init := arrivals[..|arrivals| - 1];
      var last := arrivals[|arrivals| - 1];
      MergeKeepsTopRank(self, roster, init, id);
      MergedAllSound(self, roster, init);
      assert forall i :: 0 <= i < |init| ==> init[i] == arrivals[i];
      var mid := MergedAll(self, roster, init);
      TopRankStep(self, roster, arrivals, id, mid);
    }
  }

  lemma TopRankStep(self: Str, roster: Roster, arrivals: seq<Arrival>, id: Str, mid: Roster)
    requires arrivals != [] && id != self
    requires id in mid <==> Mentioned(roster, arrivals[..|arrivals| - 1], id)
    requires id in mid ==> TopRank(roster, arrivals[..|arrivals| - 1], id, mid[id].node)
    ensures var last := arrivals[|arrivals| - 1];
            var end := Merged(self, mid, last.node, last.at);
            && (id in end <==> Mentioned(roster, arrivals, id))
            && (id in end ==> TopRank(roster, arrivals, id, end[id].node))
  {
    var init := arrivals[..|arrivals| - 1];
    var n := |init|;
    var last := arrivals[n];
    var end := Merged(self, mid, last.node, last.at);
    assert forall i :: 0 <= i < n ==> init[i] == arrivals[i];
    assert Mentioned(roster, arrivals, id) <==> Mentioned(roster, init, id) || last.node.id == id by {
      if Mentioned(roster, init, id) && id !in roster {
        var i :| 0 <= i < n && init[i].node.id == id;
        assert arrivals[i].node.id == id;
      }
    }
    if id in end {
      var r := end[id].node;
      forall i | 0 <= i < |arrivals| && arrivals[i].node.id == id ensures RankLeq(arrivals[i].node, r) {
        if i < n { assert RankLeq(init[i].node, mid[id].node); }
      }
      if id in mid && SameRank(mid[id].node, r) && !(id in roster && SameRank(roster[id].node, r)) {
        var i :| 0 <= i < n && init[i].node.id == id && SameRank(init[i].node, mid[id].node);
        assert SameRank(arrivals[i].node, r);
      } else if !(id in mid && SameRank(mid[id].node, r)) {
        assert SameRank(arrivals[n].node, r);
      }
    }
  }

  /** The first among the start and the arrivals to speak of `id` at this incarnation gave this address. */
  ghost predicate AddressedFirst(roster: Roster, arrivals: seq<Arrival>, id: Str, incarnation: nat, addr: Str) {
    if id in roster && roster[id].node.incarnation == incarnation then roster[id].node.addr == addr
    else exists i :: 0 <= i < |arrivals| && arrivals[i].node.addr == addr && FirstAt(arrivals, id, incarnation, i)
  }

  ghost predicate FirstAt(arrivals: seq<Arrival>, id: Str, incarnation: nat, i: nat)
    requires i < |arrivals|
  {
    && arrivals[i].node.id == id && arrivals[i].node.incarnation == incarnation
    && forall j :: 0 <= j < i && arrivals[j].node.id == id ==> arrivals[j].node.incarnation != incarnation
  }

  /** The address held for a node is the one it was first heard with at the incarnation held; self's never changes. */
  lemma {:induction false} HeldAddressWasHeardFirst(self: Str, roster: Roster, arrivals: seq<Arrival>, id: Str)
    requires Sound(self, roster) && id in MergedAll(self, roster, arrivals)
    ensures var held := MergedAll(self, roster, arrivals)[id].node;
            if id == self then held.addr == roster[self].node.addr
            else AddressedFirst(roster, arrivals, id, held.incarnation, held.addr)
  {
    if arrivals != [] {
      var n := |arrivals| - 1;
      var init, last := arrivals[..n], arrivals[n];
      var mid := MergedAll(self, roster, init);
      MergedAllSound(self, roster, init);
      if id in mid { HeldAddressWasHeardFirst(self, roster, init, id); }
      if id != self {
        MergeKeepsTopRank(self, roster, init, id);
        AddressStep(self, roster, arrivals, id, mid);
      }
    }
  }

  lemma AddressStep(self: Str, roster: Roster, arrivals: seq<Arrival>, id: Str, mid: Roster)
    requires arrivals != [] && id != self
    requires id in mid <==> Mentioned(roster, arrivals[..|arrivals| - 1], id)
    requires id in mid ==>
               && TopRank(roster, arrivals[..|arrivals| - 1], id, mid[id].node)
               && AddressedFirst(roster, arrivals[..|arrivals| - 1], id, mid[id].node.incarnation, mid[id].node.addr)
    ensures var last := arrivals[|arrivals| - 1];
            var end := Merged(self, mid, last.node, last.at);
            id in end ==> AddressedFirst(roster, arrivals, id, end[id].node.incarnation, end[id].node.addr)
  {
    var n := |arrivals| - 1;
    var init, last := arrivals[..n], arrivals[n];
    var end := Merged(self, mid, last.node, last.at);
    assert forall i :: 0 <= i < n ==> init[i] == arrivals[i];
    if id in end {
      var held := end[id].node;
      if id in mid && held.incarnation == mid[id].node.incarnation {
        if !(id in roster && roster[id].node.incarnation == held.incarnation) {
          var i: nat :| i < n && init[i].node.addr == held.addr && FirstAt(init, id, held.incarnation, i);
          assert FirstAt(arrivals, id, held.incarnation, i);
        }
      } else {
        assert end[id] == Entry(last.node, last.at);
        forall j | 0 <= j < n && init[j].node.id == id ensures init[j].node.incarnation != held.incarnation {
          assert Mentioned(roster, init, id);
        }
        assert FirstAt(arrivals, id, held.incarnation, n);
      }
    }
  }

  /** Merging batch after batch is merging the batches strung together. */
  lemma {:induction false} MergeBatches(self: Str, roster: Roster, a: seq<Arrival>, b: seq<Arrival>)
    ensures MergedAll(self, MergedAll(self, roster, a), b) == MergedAll(self, roster, a + b)
    decreases |b|
  {
    if b == [] {
      assert a + b == a;
    } else {
      assert (a + b)[..|a + b| - 1] == a + b[..|b| - 1];
      MergeBatches(self, roster, a, b[..|b| - 1]);
    }
  }

  ghost predicate Heard(arrivals: seq<Arrival>, r: Node) {
    exists i :: 0 <= i < |arrivals| && arrivals[i].node == r
  }

  /** So it depends only on the set of records heard, not on order, repetition, batching or time. */
  lemma MergeOrderIrrelevant(self: Str, roster: Roster, a: seq<Arrival>, b: seq<Arrival>, id: Str)
    requires Sound(self, roster) && id != self
    requires forall r :: Heard(a, r) <==> Heard(b, r)
    ensures id in MergedAll(self, roster, a) <==> id in MergedAll(self, roster, b)
    ensures id in MergedAll(self, roster, a) ==>
              SameRank(MergedAll(self, roster, a)[id].node, MergedAll(self, roster, b)[id].node)
  {
    hide Mentioned, TopRank, Heard, MergedAll, Sound;
    MergeKeepsTopRank(self, roster, a, id);
    MergeKeepsTopRank(self, roster, b, id);
    if Mentioned(roster, a, id) { MentionedTransfers(roster, a, b, id); }
    if Mentioned(roster, b, id) { MentionedTransfers(roster, b, a, id); }
    if id in MergedAll(self, roster, a) {
      TopRankTransfers(roster, a, b, id, MergedAll(self, roster, a)[id].node, MergedAll(self, roster, b)[id].node);
      TopRankTransfers(roster, b, a, id, MergedAll(self, roster, b)[id].node, MergedAll(self, roster, a)[id].node);
    }
  }

  lemma MentionedTransfers(roster: Roster, a: seq<Arrival>, b: seq<Arrival>, id: Str)
    requires Mentioned(roster, a, id)
    requires forall r :: Heard(a, r) ==> Heard(b, r)
    ensures Mentioned(roster, b, id)
  {
    if id !in roster {
      var i :| 0 <= i < |a| && a[i].node.id == id;
      var r := a[i].node;
      assert Heard(a, r);
      var j :| 0 <= j < |b| && b[j].node == r;
    }
  }

  lemma TopRankTransfers(roster: Roster, a: seq<Arrival>, b: seq<Arrival>, id: Str, x: Node, y: Node)
    requires TopRank(roster, a, id, x) && TopRank(roster, b, id, y)
    requires forall r :: Heard(a, r) ==> Heard(b, r)
    ensures RankLeq(x, y)
  {
    if !(id in roster && SameRank(roster[id].node, x)) {
      var i :| 0 <= i < |a| && a[i].node.id == id && SameRank(a[i].node, x);
      var r := a[i].node;
      assert Heard(a, r);
      var j :| 0 <= j < |b| && b[j].node == r;
      assert RankLeq(b[j].node, y);
    }
  }

  // ---------------------------------------------------------------- Silence

  /** The rank of `r` was first heard of at time `t`: in the start, or with the first arrival that carries it. */
  ghost predicate HeardFirst(roster: Roster, arrivals: seq<Arrival>, r: Node, t: int) {
    if r.id in roster && SameRank(roster[r.id].node, r) then roster[r.id].lastSeen == t
    else exists i :: 0 <= i < |arrivals| && arrivals[i].at == t && FirstOfRank(arrivals, r, i)
  }

  ghost predicate FirstOfRank(arrivals: seq<Arrival>, r: Node, i: nat)
    requires i < |arrivals|
  {
    && arrivals[i].node.id == r.id && SameRank(arrivals[i].node, r)
    && forall j :: 0 <= j < i && arrivals[j].node.id == r.id ==> !SameRank(arrivals[j].node, r)
  }

  /** An entry dates from when its rank was first heard of; hearing the same again is no sign of life. */
  lemma {:induction false} LastSeenIsFirstHeard(self: Str, roster: Roster, arrivals: seq<Arrival>, id: Str)
    requires Sound(self, roster) && id != self && id in MergedAll(self, roster, arrivals)
    ensures var e := MergedAll(self, roster, arrivals)[id];
            e.node.id == id && HeardFirst(roster, arrivals, e.node, e.lastSeen)
  {
    MergedAllSound(self, roster, arrivals);
    if arrivals != [] {
      var init := arrivals[..|arrivals| - 1];
      var mid := MergedAll(self, roster, init);
      MergedAllSound(self, roster, init);
      if id in mid { LastSeenIsFirstHeard(self, roster, init, id); }
      MergeKeepsTopRank(self, roster, init, id);
      LastSeenStep(self, roster, arrivals, id, mid);
    }
  }

  lemma LastSeenStep(self: Str, roster: Roster, arrivals: seq<Arrival>, id: Str, mid: Roster)
    requires arrivals != [] && id != self && Sound(self, mid)
    requires id in mid <==> Mentioned(roster, arrivals[..|arrivals| - 1], id)
    requires id in mid ==>
               && TopRank(roster, arrivals[..|arrivals| - 1], id, mid[id].node)
               && HeardFirst(roster, arrivals[..|arrivals| - 1], mid[id].node, mid[id].lastSeen)
    ensures var last := arrivals[|arrivals| - 1];
            var end := Merged(self, mid, last.node, last.at);
            id in end ==> HeardFirst(roster, arrivals, end[id].node, end[id].lastSeen)
  {
    var n := |arrivals| - 1;
    var init, last := arrivals[..n], arrivals[n];
    var end := Merged(self, mid, last.node, last.at);
    assert forall i :: 0 <= i < n ==> init[i] == arrivals[i];
    if id in end {
      var held := end[id].node;
      if id in mid && SameRank(held, mid[id].node) {
        if !(id in roster && SameRank(roster[id].node, held)) {
          var i: nat :| i < n && init[i].at == end[id].lastSeen && FirstOfRank(init, mid[id].node, i);
          assert FirstOfRank(arrivals, held, i);
        }
      } else {
        forall j | 0 <= j < n && init[j].node.id == id ensures !SameRank(init[j].node, held) {
          assert Mentioned(roster, init, id);
        }
        assert FirstOfRank(arrivals, held, n);
      }
    }
  }

  /**
   Detection is exact: a node other than self that is held alive is declared dead if and only if its rank was
   first heard of more than the timeout ago, and nothing else about it changes.
   */
  lemma SilenceIsFatalIff(self: Str, roster: Roster, arrivals: seq<Arrival>, id: Str, now: int, timeout: int, t: int)
    requires Sound(self, roster) && id != self && id in MergedAll(self, roster, arrivals)
    requires var held := MergedAll(self, roster, arrivals)[id].node;
             held.state == ALIVE && HeardFirst(roster, arrivals, held, t)
    ensures var held := MergedAll(self, roster, arrivals);
            var after := Detected(self, held, now, timeout);
            && id in after && after[id].lastSeen == t
            && after[id].node == held[id].node.(state := if now - t > timeout then DEAD else ALIVE)
  {
    LastSeenIsFirstHeard(self, roster, arrivals, id);
    MergedAllSound(self, roster, arrivals);
    FirstIsOne(roster, arrivals, MergedAll(self, roster, arrivals)[id].node, t,
               MergedAll(self, roster, arrivals)[id].lastSeen);
  }

  lemma FirstIsOne(roster: Roster, arrivals: seq<Arrival>, r: Node, t: int, u: int)
    requires HeardFirst(roster, arrivals, r, t) && HeardFirst(roster, arrivals, r, u)
    ensures t == u
  {
    if !(r.id in roster && SameRank(roster[r.id].node, r)) {
      var i: nat :| i < |arrivals| && arrivals[i].at == t && FirstOfRank(arrivals, r, i);
      var j: nat :| j < |arrivals| && arrivals[j].at == u && FirstOfRank(arrivals, r, j);
      assert i == j;
    }
  }

  /** Detection spares self, the dead and the suspected. */
  lemma OthersAreSpared(self: Str, roster: Roster, id: Str, now: int, timeout: int)
    requires Sound(self, roster) && id in roster && (id == self || roster[id].node.state != ALIVE)
    ensures id in Detected(self, roster, now, timeout) && Detected(self, roster, now, timeout)[id] == roster[id]
  {
  }

  // ---------------------------------------------------------------- Self

  /** A claim that self is not alive. */
  predicate IsFalseClaim(self: Str, r: Node) {
    r.id == self && r.state != ALIVE
  }

  /** Self ends one above the highest claim that it is not alive, or where it was, whichever is higher. */
  lemma {:induction false} SelfOutbidsEveryClaim(self: Str, roster: Roster, arrivals: seq<Arrival>)
    requires Sound(self, roster)
    ensures self in MergedAll(self, roster, arrivals)
    ensures var inc := MergedAll(self, roster, arrivals)[self].node.incarnation;
            && roster[self].node.incarnation <= inc
            && (forall i :: 0 <= i < |arrivals| && IsFalseClaim(self, arrivals[i].node) ==>
                arrivals[i].node.incarnation < inc)
            && (|| inc == roster[self].node.incarnation
                || exists i :: 0 <= i < |arrivals| && IsFalseClaim(self, arrivals[i].node)
                               && inc == arrivals[i].node.incarnation + 1)
  {
    MergedAllSound(self, roster, arrivals);
    if arrivals != [] {
      var init := arrivals[..|arrivals| - 1];
      var last := arrivals[|arrivals| - 1];
      SelfOutbidsEveryClaim(self, roster, init);
      MergedAllSound(self, roster, init);
      assert forall i :: 0 <= i < |init| ==> init[i] == arrivals[i];
      var mid := MergedAll(self, roster, init)[self].node.incarnation;
      var end := MergedAll(self, roster, arrivals)[self].node.incarnation;
      if end == mid && mid != roster[self].node.incarnation {
        var i :| 0 <= i < |init| && IsFalseClaim(self, init[i].node) && mid == init[i].node.incarnation + 1;
        assert IsFalseClaim(self, arrivals[i].node) && end == arrivals[i].node.incarnation + 1;
      } else if end != mid {
        assert IsFalseClaim(self, arrivals[|arrivals| - 1].node);
      }
    }
  }
}
