/**
 The frequency sketch behind TinyLFU (internal/store/sketch.go): rows of saturating counters that
 are all halved after every so many additions. Sequential runs; the hash is a parameter.
 */
module Sketch {
  import opened Bytes
  import opened Bits
  import opened Seqs

  const DEPTH: nat := 4
  const COUNTER_MAX: nat := 15
  const WORD: nat := 0x1_0000_0000

  // ---------------------------------------------------------------- Cells

  /** The flat index of a key's cell in a row: double hashing in 32 bits, masked into the row. */
  function Column(width: nat, row: nat, h1: nat, h2: nat): nat
    requires width > 0
  {
    row * width + And((h1 + row * h2) % WORD, (width - 1) % WORD)
  }

  function Cell(hash: Str -> nat, width: nat, row: nat, key: Str): nat
    requires width > 0
  {
    Column(width, row, hash(key) % WORD, hash(key) / WORD % WORD)
  }

  predicate InRow(width: nat, row: nat, i: nat) {
    row * width <= i < row * width + width
  }

  lemma {:induction false} AndBound(a: nat, b: nat)
    ensures And(a, b) <= b
  {
    if a != 0 && b != 0 {
      AndBound(a / 2, b / 2);
      assert (a % 2) * (b % 2) <= b % 2;
    }
  }

  lemma RowsFit(width: nat, row: nat, i: nat)
    requires row < DEPTH && InRow(width, row, i)
    ensures i < DEPTH * width
  {
  }

  lemma RowsDisjoint(width: nat, row: nat, other: nat, i: nat)
    requires InRow(width, row, i) && InRow(width, other, i)
    ensures row == other
  {
    BlocksAscend(width, row, other);
    BlocksAscend(width, other, row);
  }

  lemma BlocksAscend(width: nat, a: nat, b: nat)
    ensures a < b ==> a * width + width <= b * width
  {
    if a < b { assert (a + 1) * width <= b * width; }
  }

  /** Every computed index lies in its own row, whatever the width. */
  lemma CellInRow(hash: Str -> nat, width: nat, row: nat, key: Str)
    requires width > 0
    ensures InRow(width, row, Cell(hash, width, row, key))
    ensures row < DEPTH ==> Cell(hash, width, row, key) < DEPTH * width
  {
    var h1, h2 := hash(key) % WORD, hash(key) / WORD % WORD;
    AndBound((h1 + row * h2) % WORD, (width - 1) % WORD);
    assert (width - 1) % WORD <= width - 1;
    if row < DEPTH { RowsFit(width, row, Cell(hash, width, row, key)); }
  }

  lemma {:induction false} Pow2Splits(j: nat, k: nat)
    ensures Pow2(j + k) == Pow2(j) * Pow2(k)
    decreases j
  {
    if j > 0 { Pow2Splits(j - 1, k); }
  }

  lemma MulAssociates(a: nat, b: nat, q: nat, t: nat)
    ensures a * b * q + a * t == a * (b * q + t)
  {
  }

  lemma RemainderIs(x: nat, a: nat, b: nat, q: nat, t: nat, u: nat)
    requires u < a && x == a * b * q + a * t + u
    ensures x % a == u
  {
    MulAssociates(a, b, q, t);
    DivUnique(x, a, b * q + t, u);
  }

  lemma ModOfMod(x: nat, a: nat, b: nat)
    requires a > 0 && b > 0 && a * b > 0
    ensures x % (a * b) % a == x % a
  {
    var m := a * b;
    var r := x % m;
    RemainderIs(x, a, b, x / m, r / a, r % a);
  }

  lemma MaskIsRemainder(x: nat, k: nat)
    requires k <= 32
    ensures And(x % WORD, (Pow2(k) - 1) % WORD) == x % Pow2(k)
  {
    WordIsPower(k);
    hide And, Pow2;
    MaskIsMod(x % WORD, k);
    ModOfMod(x, Pow2(k), Pow2(32 - k));
  }

  lemma WordIsPow2()
    ensures Pow2(32) == WORD
  {
    assert Pow2(8) == 256;
    hide Pow2;
    Pow2Splits(8, 8);
    Pow2Splits(16, 16);
  }

  lemma WordIsPower(k: nat)
    requires k <= 32
    ensures WORD == Pow2(k) * Pow2(32 - k) && (Pow2(k) - 1) % WORD == Pow2(k) - 1
  {
    hide Pow2;
    WordIsPow2();
    Pow2Splits(k, 32 - k);
    Pow2Monotone(k, 32);
  }

  /** In a table of up to 2^32 columns, the 32-bit sum and the mask come to double hashing modulo the width. */
  lemma CellIsDoubleHashed(hash: Str -> nat, k: nat, row: nat, key: Str)
    requires k <= 32
    ensures var low, high := hash(key) % 0x1_0000_0000, hash(key) / 0x1_0000_0000 % 0x1_0000_0000;
            Cell(hash, Pow2(k), row, key) == row * Pow2(k) + (low + row * high) % Pow2(k)
  {
    hide And, Pow2;
    MaskIsRemainder(hash(key) % WORD + row * (hash(key) / WORD % WORD), k);
  }

  // ---------------------------------------------------------------- Adding

  datatype Grid = Grid(cells: seq<nat>, size: nat)

  function Bump(c: nat): nat {
    if c < COUNTER_MAX then c + 1 else c
  }

  function BumpedRows(cells: seq<nat>, hash: Str -> nat, width: nat, key: Str, n: nat): (r: seq<nat>)
    requires width > 0 && |cells| == DEPTH * width && n <= DEPTH
    ensures |r| == |cells|
  {
    if n == 0 then cells
    else
      var rest := BumpedRows(cells, hash, width, key, n - 1);
      CellInRow(hash, width, n - 1, key);
      var i := Cell(hash, width, n - 1, key);
      rest[i := Bump(rest[i])]
  }

  function Halved(cells: seq<nat>): (r: seq<nat>)
    ensures |r| == |cells|
  {
    seq(|cells|, i requires 0 <= i < |cells| => cells[i] / 2)
  }

  function Aged(g: Grid, sampleSize: nat): Grid {
    if g.size >= sampleSize then Grid(Halved(g.cells), 0) else g
  }

  function Added(g: Grid, hash: Str -> nat, width: nat, sampleSize: nat, key: Str): Grid
    requires width > 0 && |g.cells| == DEPTH * width
  {
    Aged(Grid(BumpedRows(g.cells, hash, width, key, DEPTH), g.size + 1), sampleSize)
  }

  function Empty(width: nat): Grid {
    Grid(seq(DEPTH * width, i => 0), 0)
  }

  /** The sketch after a sequence of additions. */
  function After(hash: Str -> nat, width: nat, sampleSize: nat, history: seq<Str>): (g: Grid)
    requires width > 0
    ensures |g.cells| == DEPTH * width
  {
    if history == [] then Empty(width)
    else
      var init, last := history[..|history| - 1], history[|history| - 1];
      Added(After(hash, width, sampleSize, init), hash, width, sampleSize, last)
  }

  lemma {:induction false} BumpedAt(cells: seq<nat>, hash: Str -> nat, width: nat, key: Str, n: nat, row: nat, i: nat)
    requires width > 0 && |cells| == DEPTH * width && n <= DEPTH && row < DEPTH && InRow(width, row, i) && i < |cells|
    ensures BumpedRows(cells, hash, width, key, n)[i] ==
              if row < n && i == Cell(hash, width, row, key) then Bump(cells[i]) else cells[i]
  {
    hide Cell, InRow;
    if n > 0 {
      BumpedAt(cells, hash, width, key, n - 1, row, i);
      CellInRow(hash, width, n - 1, key);
      if i == Cell(hash, width, n - 1, key) { RowsDisjoint(width, row, n - 1, i); }
    }
  }

  // ---------------------------------------------------------------- Exact counts

  /** A saturating count of the additions that hit, halved at each aging pass. */
  datatype Tally = Tally(count: nat, size: nat)

  function TallyAfter(hits: Str -> bool, sampleSize: nat, history: seq<Str>): (t: Tally)
    ensures t.count <= COUNTER_MAX
  {
    if history == [] then Tally(0, 0)
    else
      var t := TallyAfter(hits, sampleSize, history[..|history| - 1]);
      var count := if hits(history[|history| - 1]) then Bump(t.count) else t.count;
      if t.size + 1 >= sampleSize then Tally(count / 2, 0) else Tally(count, t.size + 1)
  }

  function IsKey(key: Str): Str -> bool {
    (k: Str) => k == key
  }

  function Lands(hash: Str -> nat, width: nat, row: nat, i: nat): Str -> bool
    requires width > 0
  {
    (k: Str) => Cell(hash, width, row, k) == i
  }

  /** Each cell tallies the additions that land in it. */
  lemma {:induction false} CellTalliesItsOwn(hash: Str -> nat, width: nat, sampleSize: nat, history: seq<Str>, row: nat,
                                             i: nat)
    requires width > 0 && row < DEPTH && InRow(width, row, i) && i < DEPTH * width
    ensures Tally(After(hash, width, sampleSize, history).cells[i], After(hash, width, sampleSize, history).size)
         == TallyAfter(Lands(hash, width, row, i), sampleSize, history)
  {
    hide InRow, Cell;
    if history != [] {
      var init, key := history[..|history| - 1], history[|history| - 1];
      CellTalliesItsOwn(hash, width, sampleSize, init, row, i);
      BumpedAt(After(hash, width, sampleSize, init).cells, hash, width, key, DEPTH, row, i);
    }
  }

  lemma {:induction false} MoreHitsCountMore(few: Str -> bool, many: Str -> bool, sampleSize: nat, history: seq<Str>)
    requires forall k :: k in history && few(k) ==> many(k)
    ensures TallyAfter(few, sampleSize, history).size == TallyAfter(many, sampleSize, history).size
    ensures TallyAfter(few, sampleSize, history).count <= TallyAfter(many, sampleSize, history).count
  {
    if history != [] {
      var init := history[..|history| - 1];
      assert history == init + [history[|history| - 1]];
      MoreHitsCountMore(few, many, sampleSize, init);
    }
  }

  // ---------------------------------------------------------------- Counts by cycle

  function Capped(n: nat): nat {
    if n < COUNTER_MAX then n else COUNTER_MAX
  }

  /** How many additions make up a cycle: the last one of each sets off the aging pass. */
  function Period(sampleSize: nat): (p: nat)
    ensures p > 0
  {
    if sampleSize == 0 then 1 else sampleSize
  }

  lemma CycleBack(n: nat, period: nat)
    requires period > 0 && n > 0 && n % period == 0
    ensures n >= period && (n - period) % period == 0
  {
    var q := n / period;
    assert n - period == period * (q - 1) + 0;
    DivUnique(n - period, period, q - 1, 0);
  }

  lemma CycleOn(n: nat, period: nat, more: nat)
    requires period > 0 && n % period == 0 && more <= period
    ensures (n + more) % period == if more == period then 0 else more
  {
    var q := n / period;
    assert n == period * q;
    if more < period {
      DivUnique(n + more, period, q, more);
    } else {
      assert n + period == period * (q + 1) + 0;
      DivUnique(n + more, period, q + 1, 0);
    }
  }

  lemma CycleStart(n: nat, period: nat)
    requires period > 0
    ensures n % period <= n && (n - n % period) % period == 0
  {
    DivUnique(n - n % period, period, n / period, 0);
  }

  /** What complete cycles leave of the count: each adds its hits, caps and then halves. */
  function Carried(hits: Str -> bool, period: nat, past: seq<Str>): (n: nat)
    requires period > 0 && |past| % period == 0
    ensures 2 * n <= COUNTER_MAX
    decreases |past|
  {
    if past == [] then 0
    else
      CycleBack(|past|, period);
      var start := |past| - period;
      Capped(Carried(hits, period, past[..start]) + |Filter(hits, past[start..])|) / 2
  }

  /** The count after all complete cycles and the additions since. */
  function Count(hits: Str -> bool, sampleSize: nat, history: seq<Str>): nat {
    var period := Period(sampleSize);
    CycleStart(|history|, period);
    var start := |history| - |history| % period;
    Capped(Carried(hits, period, history[..start]) + |Filter(hits, history[start..])|)
  }

  function KeyCount(key: Str, sampleSize: nat, history: seq<Str>): nat {
    Count(IsKey(key), sampleSize, history)
  }

  /** A history of complete cycles and the additions since. */
  lemma CountAt(hits: Str -> bool, sampleSize: nat, past: seq<Str>, recent: seq<Str>)
    requires |past| % Period(sampleSize) == 0 && |recent| < Period(sampleSize)
    ensures |past + recent| % Period(sampleSize) == |recent|
    ensures Count(hits, sampleSize, past + recent) ==
              Capped(Carried(hits, Period(sampleSize), past) + |Filter(hits, recent)|)
  {
    hide Carried, Filter, Period;
    CycleOn(|past|, Period(sampleSize), |recent|);
    assert (past + recent)[|past|..] == recent && (past + recent)[..|past|] == past;
  }

  /** The same for a history that ends with a complete cycle. */
  lemma CountAtPass(hits: Str -> bool, sampleSize: nat, past: seq<Str>, recent: seq<Str>)
    requires |past| % Period(sampleSize) == 0 && |recent| == Period(sampleSize)
    ensures |past + recent| % Period(sampleSize) == 0
    ensures Count(hits, sampleSize, past + recent) ==
              Capped(Carried(hits, Period(sampleSize), past) + |Filter(hits, recent)|) / 2
  {
    hide Carried, Filter, Count, Period;
    CarriedOver(hits, Period(sampleSize), past, recent);
    CountAt(hits, sampleSize, past + recent, []);
    assert past + recent + [] == past + recent;
    NothingPasses(hits);
  }

  lemma NothingPasses(hits: Str -> bool)
    ensures Filter(hits, []) == []
  {
  }

  lemma CarriedOver(hits: Str -> bool, period: nat, past: seq<Str>, recent: seq<Str>)
    requires period > 0 && |past| % period == 0 && |recent| == period
    ensures |past + recent| % period == 0
    ensures Carried(hits, period, past + recent) ==
              Capped(Carried(hits, period, past) + |Filter(hits, recent)|) / 2
  {
    hide Filter;
    CycleOn(|past|, period, |recent|);
    assert (past + recent)[|past|..] == recent && (past + recent)[..|past|] == past;
  }

  /** The running tally, bumped at each hit and halved at each pass, is the count by cycles. */
  lemma {:induction false} TallyIsCount(hits: Str -> bool, sampleSize: nat, history: seq<Str>)
    ensures TallyAfter(hits, sampleSize, history) ==
              Tally(Count(hits, sampleSize, history), |history| % Period(sampleSize))
  {
    if history != [] {
      var init, last := history[..|history| - 1], history[|history| - 1];
      assert history == init + [last];
      TallyIsCount(hits, sampleSize, init);
      CountExtends(hits, sampleSize, init, last);
    }
  }

  lemma CountExtends(hits: Str -> bool, sampleSize: nat, init: seq<Str>, last: Str)
    ensures var period, count := Period(sampleSize), Count(hits, sampleSize, init);
            var bumped := Capped(count + if hits(last) then 1 else 0);
            && |init + [last]| % period == (if |init| % period + 1 == period then 0 else |init| % period + 1)
            && Count(hits, sampleSize, init + [last]) == if |init| % period + 1 == period then bumped / 2 else bumped
  {
    hide Count, Carried, Filter;
    CycleStart(|init|, Period(sampleSize));
    var start := |init| - |init| % Period(sampleSize);
    var past, recent := init[..start], init[start..];
    assert init == past + recent;
    FilterSnoc(hits, recent, last);
    assert init + [last] == past + (recent + [last]);
    CountAt(hits, sampleSize, past, recent);
    if |recent| + 1 == Period(sampleSize) {
      CountAtPass(hits, sampleSize, past, recent + [last]);
    } else {
      CountAt(hits, sampleSize, past, recent + [last]);
    }
  }

  /** Hits of one key are its occurrences. */
  lemma {:induction false} KeyHits(key: Str, keys: seq<Str>)
    ensures |Filter(IsKey(key), keys)| == multiset(keys)[key]
  {
    if keys != [] {
      var init, last := keys[..|keys| - 1], keys[|keys| - 1];
      assert keys == init + [last];
      KeyHits(key, init);
    }
  }

  /** From the end of a cycle on, occurrences add up again; the pass that ends the next cycle halves the capped sum. */
  lemma CountOverACycle(key: Str, sampleSize: nat, past: seq<Str>, recent: seq<Str>)
    requires |past| % Period(sampleSize) == 0 && |recent| <= Period(sampleSize)
    ensures var sum := KeyCount(key, sampleSize, past) + multiset(recent)[key];
            KeyCount(key, sampleSize, past + recent) ==
              if |recent| < Period(sampleSize) then Capped(sum) else Capped(sum) / 2
  {
    hide Count, Carried, Filter;
    assert past + [] == past;
    KeyHits(key, recent);
    KeyHits(key, []);
    CountAt(IsKey(key), sampleSize, past, []);
    if |recent| < Period(sampleSize) {
      CountAt(IsKey(key), sampleSize, past, recent);
    } else {
      CountAtPass(IsKey(key), sampleSize, past, recent);
    }
  }

  /** Before the first aging pass a key's count is its number of occurrences, capped. */
  lemma CountIsOccurrences(key: Str, sampleSize: nat, history: seq<Str>)
    requires |history| < sampleSize
    ensures KeyCount(key, sampleSize, history) == Capped(multiset(history)[key])
  {
    hide Count, Carried, Filter;
    var none: seq<Str> := [];
    assert none + history == history && none + none == none;
    NothingPasses(IsKey(key));
    NothingCarried(IsKey(key), Period(sampleSize));
    CountAt(IsKey(key), sampleSize, [], []);
    CountOverACycle(key, sampleSize, [], history);
  }

  lemma NothingCarried(hits: Str -> bool, period: nat)
    requires period > 0
    ensures Carried(hits, period, []) == 0
  {
  }

  /** Each cell counts exactly the additions that land in it. */
  lemma CellCountsItsOwn(hash: Str -> nat, width: nat, sampleSize: nat, history: seq<Str>, row: nat, i: nat)
    requires width > 0 && row < DEPTH && InRow(width, row, i) && i < DEPTH * width
    ensures After(hash, width, sampleSize, history).cells[i] == Count(Lands(hash, width, row, i), sampleSize, history)
  {
    CellTalliesItsOwn(hash, width, sampleSize, history, row, i);
    TallyIsCount(Lands(hash, width, row, i), sampleSize, history);
  }

  // ---------------------------------------------------------------- Estimates

  function RowCount(cells: seq<nat>, hash: Str -> nat, width: nat, row: nat, key: Str): nat
    requires width > 0 && |cells| == DEPTH * width && row < DEPTH
  {
    CellInRow(hash, width, row, key);
    cells[Cell(hash, width, row, key)]
  }

  /** The least of the first `n` rows' counts, and never above the cap. */
  function Estimated(cells: seq<nat>, hash: Str -> nat, width: nat, key: Str, n: nat): (e: nat)
    requires width > 0 && |cells| == DEPTH * width && n <= DEPTH
    ensures e <= COUNTER_MAX
    ensures forall row: nat :: row < n ==> e <= RowCount(cells, hash, width, row, key)
    ensures e == COUNTER_MAX || exists row: nat :: row < n && e == RowCount(cells, hash, width, row, key)
  {
    if n == 0 then COUNTER_MAX
    else
      var e := Estimated(cells, hash, width, key, n - 1);
      var c := RowCount(cells, hash, width, n - 1, key);
      if c < e then c else e
  }

  function Estimate(g: Grid, hash: Str -> nat, width: nat, key: Str): nat
    requires width > 0 && |g.cells| == DEPTH * width
  {
    Estimated(g.cells, hash, width, key, DEPTH)
  }

  lemma RowCountIs(hash: Str -> nat, width: nat, sampleSize: nat, history: seq<Str>, row: nat, key: Str)
    requires width > 0 && row < DEPTH
    ensures RowCount(After(hash, width, sampleSize, history).cells, hash, width, row, key)
         == TallyAfter(Lands(hash, width, row, Cell(hash, width, row, key)), sampleSize, history).count
  {
    CellInRow(hash, width, row, key);
    CellTalliesItsOwn(hash, width, sampleSize, history, row, Cell(hash, width, row, key));
  }

  /** An estimate is never below the key's own count. */
  lemma EstimateIsNeverLow(hash: Str -> nat, width: nat, sampleSize: nat, history: seq<Str>, key: Str)
    requires width > 0
    ensures KeyCount(key, sampleSize, history) <=
              Estimate(After(hash, width, sampleSize, history), hash, width, key) <= COUNTER_MAX
  {
    var g := After(hash, width, sampleSize, history);
    var e := Estimate(g, hash, width, key);
    TallyIsCount(IsKey(key), sampleSize, history);
    if e != COUNTER_MAX {
      var row: nat :| row < DEPTH && e == RowCount(g.cells, hash, width, row, key);
      hide Cell;
      RowCountIs(hash, width, sampleSize, history, row, key);
      MoreHitsCountMore(IsKey(key), Lands(hash, width, row, Cell(hash, width, row, key)), sampleSize, history);
    }
  }

  /** It is exact as soon as one row keeps the key apart from every other key added. */
  lemma EstimateIsExact(hash: Str -> nat, width: nat, sampleSize: nat, history: seq<Str>, key: Str, row: nat)
    requires width > 0 && row < DEPTH
    requires forall k :: k in history && k != key ==> Cell(hash, width, row, k) != Cell(hash, width, row, key)
    ensures Estimate(After(hash, width, sampleSize, history), hash, width, key) ==
                KeyCount(key, sampleSize, history)
  {
    TallyIsCount(IsKey(key), sampleSize, history);
    EstimateIsNeverLow(hash, width, sampleSize, history, key);
    hide Cell;
    RowCountIs(hash, width, sampleSize, history, row, key);
    MoreHitsCountMore(Lands(hash, width, row, Cell(hash, width, row, key)), IsKey(key), sampleSize, history);
  }

  /** No cell ever passes the cap. */
  lemma CellsStayCapped(hash: Str -> nat, width: nat, sampleSize: nat, history: seq<Str>, i: nat)
    requires width > 0 && i < DEPTH * width
    ensures After(hash, width, sampleSize, history).cells[i] <= COUNTER_MAX
  {
    var row := RowOf(width, i);
    CellTalliesItsOwn(hash, width, sampleSize, history, row, i);
  }

  ghost function RowOf(width: nat, i: nat): (row: nat)
    requires i < DEPTH * width
    ensures row < DEPTH && InRow(width, row, i)
  {
    if i < width then 0 else if i < 2 * width then 1 else if i < 3 * width then 2 else 3
  }

  // ---------------------------------------------------------------- The sketch

  class CountMin {
    const hash: Str -> nat
    const width: nat
    const sampleSize: nat
    const counters: array<nat>
    var size: nat
    ghost var history: seq<Str>

    ghost predicate Valid()
      reads this, counters
    {
      && width > 0 && counters.Length == DEPTH * width
      && Grid(counters[..], size) == After(hash, width, sampleSize, history)
    }

    /** At least one column per expected key, rounded up so that a mask picks the column. */
    constructor (capacity: int, hash: Str -> nat)
      ensures Valid() && fresh(counters) && history == [] && this.hash == hash
      ensures IsPow2(width) && width >= capacity && sampleSize == 10 * if capacity < 1 then 1 else capacity
    {
      var c := if capacity < 1 then 1 else capacity;
      NextPowerOfTwoIsLeast(c, 0);
      var w := NextPowerOfTwo(c);
      this.hash := hash;
      width := w;
      sampleSize := 10 * c;
      var cells := new nat[DEPTH * w](i => 0);
      counters := cells;
      size, history := 0, [];
      new;
      assert counters[..] == Empty(width).cells;
    }

    method Reset()
      requires counters.Length == DEPTH * width
      modifies this`size, counters
      ensures counters[..] == Halved(old(counters[..])) && size == 0
    {
      for i := 0 to counters.Length
        invariant forall k :: 0 <= k < counters.Length ==>
                      counters[k] == if k < i then old(counters[k]) / 2 else old(counters[k])
      {
        counters[i] := counters[i] / 2;
      }
      size := 0;
    }

    method Add(key: Str)
      requires Valid()
      modifies this, counters
      ensures Valid() && history == old(history) + [key]
    {
      ghost var before := Grid(counters[..], size);
      for row := 0 to DEPTH
        invariant size == before.size && history == old(history)
        invariant counters[..] == BumpedRows(before.cells, hash, width, key, row)
      {
        CellInRow(hash, width, row, key);
        hide Cell;
        var i := Cell(hash, width, row, key);
        if counters[i] < COUNTER_MAX { counters[i] := counters[i] + 1; }
      }
      size := size + 1;
      if size >= sampleSize { Reset(); }
      history := history + [key];
      assert history[..|history| - 1] == old(history);
    }

    method EstimateOf(key: Str) returns (e: nat)
      requires Valid()
      ensures e == Estimate(Grid(counters[..], size), hash, width, key)
      ensures KeyCount(key, sampleSize, history) <= e <= COUNTER_MAX
    {
      e := COUNTER_MAX;
      for row := 0 to DEPTH
        invariant e == Estimated(counters[..], hash, width, key, row)
      {
        CellInRow(hash, width, row, key);
        var c := counters[Cell(hash, width, row, key)];
        if c < e { e := c; }
      }
      EstimateIsNeverLow(hash, width, sampleSize, history, key);
    }
  }
}
