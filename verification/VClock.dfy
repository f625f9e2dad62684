/**
 Vector clocks (internal/vclock/vclock.go). A clock maps a node to its counter; a node
 that is missing reads as 0, so causal comparison is semantic and not equality of maps.
 */
module VClock {
  import opened Bytes

  type Clock = map<Str, nat>

  datatype Order = Equal | Before | After | Concurrent

  function At(c: Clock, n: Str): nat {
    if n in c then c[n] else 0
  }

  /** Causal order: every counter of `a` is at most the counter of `b`. */
  ghost predicate Leq(a: Clock, b: Clock) {
    forall n :: At(a, n) <= At(b, n)
  }

  ghost predicate Lt(a: Clock, b: Clock) {
    Leq(a, b) && !Leq(b, a)
  }

  ghost predicate Same(a: Clock, b: Clock) {
    forall n :: At(a, n) == At(b, n)
  }

  /** Whether some entry of `c` exceeds the entry of `other`. */
  predicate AheadOf(c: Clock, other: Clock)
    ensures AheadOf(c, other) <==> !Leq(c, other)
  {
    var ahead := exists n | n in c :: c[n] > At(other, n);
    assert !ahead ==> Leq(c, other);
    assert ahead ==> !Leq(c, other) by {
      if ahead {
        var n :| n in c && c[n] > At(other, n);
        assert At(c, n) > At(other, n);
      }
    }
    ahead
  }

  /** The scan behind `AheadOf`: it stops at the first entry that is ahead, in any iteration order. */
  method ScanAhead(c: Clock, other: Clock) returns (ahead: bool)
    ensures ahead <==> !Leq(c, other)
  {
    var rest := c.Keys;
    while rest != {}
      invariant rest <= c.Keys
      invariant forall n :: n in c && n !in rest ==> c[n] <= At(other, n)
    {
      var n :| n in rest;
      if c[n] > At(other, n) {
        assert At(c, n) > At(other, n);
        return true;
      }
      rest := rest - {n};
    }
    return false;
  }

  function Compare(c: Clock, other: Clock): (o: Order)
    ensures o == Equal <==> Same(c, other)
    ensures o == Before <==> Lt(c, other)
    ensures o == After <==> Lt(other, c)
    ensures o == Concurrent <==> !Leq(c, other) && !Leq(other, c)
  {
    var cAhead := AheadOf(c, other);
    var otherAhead := AheadOf(other, c);
    assert !cAhead && !otherAhead <==> Same(c, other) by { SameIsLeqBothWays(c, other); }
    if cAhead && otherAhead then Concurrent
    else if cAhead then After
    else if otherAhead then Before
    else Equal
  }

  lemma SameIsLeqBothWays(a: Clock, b: Clock)
    ensures Same(a, b) <==> Leq(a, b) && Leq(b, a)
  {
  }

  lemma LeqTransitive(a: Clock, b: Clock, c: Clock)
    requires Leq(a, b) && Leq(b, c)
    ensures Leq(a, c)
    ensures Lt(a, b) || Lt(b, c) ==> Lt(a, c)
  {
  }

  /** A copy of `c` with the counter of `node` raised by one. */
  function Increment(c: Clock, node: Str): (r: Clock)
    ensures Lt(c, r)
    ensures At(r, node) == At(c, node) + 1
    ensures forall n :: n != node ==> At(r, n) == At(c, n)
    ensures forall d :: Leq(c, d) && At(c, node) < At(d, node) ==> Leq(r, d)
  {
    var r := c[node := At(c, node) + 1];
    assert !Leq(r, c) by { assert At(r, node) > At(c, node); }
    r
  }

  /** The causal join. Its contract is the least upper bound, independently of how it is computed. */
  function Join(a: Clock, b: Clock): (r: Clock)
    ensures forall n :: At(r, n) == if At(a, n) < At(b, n) then At(b, n) else At(a, n)
    ensures Leq(a, r) && Leq(b, r)
    ensures forall d :: Leq(a, d) && Leq(b, d) ==> Leq(r, d)
  {
    map n | n in a.Keys + b.Keys :: if At(a, n) < At(b, n) then At(b, n) else At(a, n)
  }

  /** `Merge` fills a copy of `a` entry by entry from `b`, in any iteration order. */
  method Merge(a: Clock, b: Clock) returns (clock: Clock)
    ensures clock == Join(a, b)
  {
    clock := a;
    var rest := b.Keys;
    while rest != {}
      invariant rest <= b.Keys
      invariant clock.Keys == a.Keys + (b.Keys - rest)
      invariant forall n :: n in clock ==>
        clock[n] == if n in rest then At(a, n) else if At(a, n) < At(b, n) then At(b, n) else At(a, n)
    {
      var n :| n in rest;
      clock := clock[n := if At(clock, n) < b[n] then b[n] else At(clock, n)];
      rest := rest - {n};
    }
    assert clock == Join(a, b);
  }
}
