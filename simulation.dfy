/** The repeated-trial driver `ICSimulation` of question1Hashing.py: every round
    feeds one key set into every table (after resetting it), records each table's
    collision count under its size, and records the round's total. */
module Simulation {
  import opened Chaining
  import opened Wrappers

  function Sum(xs: seq<nat>): nat {
    if xs == [] then 0 else Sum(xs[..|xs| - 1]) + xs[|xs| - 1]
  }

  /** Every table size can take this round's keys. */
  predicate AllInsertable(sizes: seq<nat>, keys: seq<string>) {
    forall j :: 0 <= j < |sizes| ==> Insertable(sizes[j], keys)
  }

  /** The sum of the tables' collision counts after one round with `keys`. */
  function RoundTotal(sizes: seq<nat>, keys: seq<string>): (total: nat)
    requires AllInsertable(sizes, keys)
  {
    if sizes == [] then 0 else RoundTotal(sizes[..|sizes| - 1], keys) + Collisions(sizes[|sizes| - 1], keys)
  }

  /** `results[size]` of the `defaultdict(list)`: an absent size reads as the empty list. */
  function History(results: map<nat, seq<nat>>, size: nat): (h: seq<nat>)
    ensures size !in results ==> h == []
    ensures size in results ==> h == results[size]
  {
    if size in results then results[size] else []
  }

  /** `results[size].append(count)`: the list of `size` exists afterwards and ends with
      `count`; every other list is untouched. */
  function Append(results: map<nat, seq<nat>>, size: nat, count: nat): (r: map<nat, seq<nat>>)
  {
    results[size := History(results, size) + [count]]
  }

  /** The results after one round with `keys`: each table, in order, appends its count
      to the list of its size. The sizes with a list afterwards are those with one
      before and the sizes of the tables. */
  function RecordRound(results: map<nat, seq<nat>>, sizes: seq<nat>, keys: seq<string>): (r: map<nat, seq<nat>>)
    requires AllInsertable(sizes, keys)
  {
    if sizes == [] then results
    else
      var last := sizes[|sizes| - 1];
      Append(RecordRound(results, sizes[..|sizes| - 1], keys), last, Collisions(last, keys))
  }

  /** No table's count exceeds the round's total, and the total is below one
      collision per key per table. */
  lemma {:induction false} RoundTotalBounds(sizes: seq<nat>, keys: seq<string>)
    requires AllInsertable(sizes, keys)
    ensures forall j :: 0 <= j < |sizes| ==> Collisions(sizes[j], keys) <= RoundTotal(sizes, keys)
    ensures RoundTotal(sizes, keys) <= |sizes| * |keys|
  {
    if sizes != [] {
      var prev, last := sizes[..|sizes| - 1], sizes[|sizes| - 1];
      RoundTotalBounds(prev, keys);
      assert Collisions(last, keys) <= |keys| by {
        if keys == [] {
          assert Collisions(last, keys) == 0;
        }
      }
      forall j | 0 <= j < |sizes|
        ensures Collisions(sizes[j], keys) <= RoundTotal(sizes, keys)
      {
        if j < |prev| {
          assert sizes[j] == prev[j];
        }
      }
      MulSucc(|prev|, |keys|);
    }
  }

  /** Appending touches the list of `size` only; the list of `size` then exists. */
  lemma AppendHistory(results: map<nat, seq<nat>>, size: nat, count: nat, other: nat)
    ensures size in Append(results, size, count)
    ensures History(Append(results, size, count), other)
         == if other == size then History(results, size) + [count] else History(results, other)
  {
  }

  /** After a round, the sizes with a list are those that had one before and the
      sizes of the tables. */
  lemma {:induction false} RecordRoundKeys(results: map<nat, seq<nat>>, sizes: seq<nat>, keys: seq<string>)
    requires AllInsertable(sizes, keys)
    ensures forall size :: size in RecordRound(results, sizes, keys) <==> size in results || size in sizes
  {
    if sizes != [] {
      var prev := sizes[..|sizes| - 1];
      RecordRoundKeys(results, prev, keys);
      assert sizes == prev + [sizes[|sizes| - 1]];
    }
  }

  predicate AllRoundsInsertable(sizes: seq<nat>, roundKeys: seq<seq<string>>) {
    forall r :: 0 <= r < |roundKeys| ==> AllInsertable(sizes, roundKeys[r])
  }

  /** The results after the rounds with `roundKeys`, in order. Once a round has been
      played every table size has a list; no other size gains one. */
  function RecordRounds(results: map<nat, seq<nat>>, sizes: seq<nat>, roundKeys: seq<seq<string>>): (r: map<nat, seq<nat>>)
    requires AllRoundsInsertable(sizes, roundKeys)
  {
    if roundKeys == [] then results
    else RecordRound(RecordRounds(results, sizes, roundKeys[..|roundKeys| - 1]), sizes, roundKeys[|roundKeys| - 1])
  }

  /** Once a round has been played every table size has a list, and no other size
      gains one. */
  lemma {:induction false} RecordRoundsKeys(results: map<nat, seq<nat>>, sizes: seq<nat>, roundKeys: seq<seq<string>>)
    requires AllRoundsInsertable(sizes, roundKeys)
    ensures forall size :: size in RecordRounds(results, sizes, roundKeys)
                           <==> size in results || (roundKeys != [] && size in sizes)
  {
    if roundKeys != [] {
      var prev := roundKeys[..|roundKeys| - 1];
      RecordRoundsKeys(results, sizes, prev);
      RecordRoundKeys(RecordRounds(results, sizes, prev), sizes, roundKeys[|roundKeys| - 1]);
    }
  }

  /** The totals appended to `total_collisions_per_round`: round r's entry is the sum of
      that round's per-table counts. */
  function RoundTotals(sizes: seq<nat>, roundKeys: seq<seq<string>>): (totals: seq<nat>)
    requires AllRoundsInsertable(sizes, roundKeys)
    ensures |totals| == |roundKeys|
    ensures forall r :: 0 <= r < |roundKeys| ==> totals[r] == RoundTotal(sizes, roundKeys[r])
  {
    if roundKeys == [] then []
    else RoundTotals(sizes, roundKeys[..|roundKeys| - 1]) + [RoundTotal(sizes, roundKeys[|roundKeys| - 1])]
  }

  function Occurrences(sizes: seq<nat>, size: nat): nat {
    if sizes == [] then 0
    else Occurrences(sizes[..|sizes| - 1], size) + (if sizes[|sizes| - 1] == size then 1 else 0)
  }

  predicate Distinct(sizes: seq<nat>) {
    forall j, k :: 0 <= j < k < |sizes| ==> sizes[j] != sizes[k]
  }

  /** One round appends to the list of a size once per table of that size, and to no
      other list. */
  lemma {:induction false} RecordRoundLength(results: map<nat, seq<nat>>, sizes: seq<nat>, keys: seq<string>, size: nat)
    requires AllInsertable(sizes, keys)
    ensures |History(RecordRound(results, sizes, keys), size)| == |History(results, size)| + Occurrences(sizes, size)
  {
    if sizes != [] {
      RecordRoundLength(results, sizes[..|sizes| - 1], keys, size);
    }
  }

  /** After R rounds every list has grown by R times the number of tables of its size;
      with distinct sizes, each by exactly R. */
  lemma {:induction false} RecordRoundsLength(results: map<nat, seq<nat>>, sizes: seq<nat>, roundKeys: seq<seq<string>>, size: nat)
    requires AllRoundsInsertable(sizes, roundKeys)
    ensures |History(RecordRounds(results, sizes, roundKeys), size)|
         == |History(results, size)| + |roundKeys| * Occurrences(sizes, size)
  {
    if roundKeys != [] {
      var prev := roundKeys[..|roundKeys| - 1];
      RecordRoundsLength(results, sizes, prev, size);
      RecordRoundLength(RecordRounds(results, sizes, prev), sizes, roundKeys[|roundKeys| - 1], size);
      MulSucc(|prev|, Occurrences(sizes, size));
    }
  }

  lemma TakeOneMore<T>(s: seq<T>, i: nat)
    requires i < |s|
    ensures s[..i + 1] == s[..i] + [s[i]] && s[..i + 1][..i] == s[..i]
  {
  }

  lemma TakeAll<T>(s: seq<T>)
    ensures s[..|s|] == s
  {
  }

  /** Adding the next table to a round appends its count to its size's list and adds
      it to the round's total. */
  lemma RoundStep(results: map<nat, seq<nat>>, sizes: seq<nat>, keys: seq<string>, j: nat)
    requires AllInsertable(sizes, keys) && j < |sizes|
    ensures AllInsertable(sizes[..j], keys) && AllInsertable(sizes[..j + 1], keys)
    ensures RecordRound(results, sizes[..j + 1], keys)
         == Append(RecordRound(results, sizes[..j], keys), sizes[j], Collisions(sizes[j], keys))
    ensures RoundTotal(sizes[..j + 1], keys) == RoundTotal(sizes[..j], keys) + Collisions(sizes[j], keys)
  {
    TakeOneMore(sizes, j);
  }

  /** Adding the next round to a run records it after the earlier ones. */
  lemma RunStep(results: map<nat, seq<nat>>, sizes: seq<nat>, roundKeys: seq<seq<string>>, r: nat)
    requires AllRoundsInsertable(sizes, roundKeys) && r < |roundKeys|
    ensures AllRoundsInsertable(sizes, roundKeys[..r]) && AllRoundsInsertable(sizes, roundKeys[..r + 1])
    ensures RecordRounds(results, sizes, roundKeys[..r + 1])
         == RecordRound(RecordRounds(results, sizes, roundKeys[..r]), sizes, roundKeys[r])
    ensures RoundTotals(sizes, roundKeys[..r + 1]) == RoundTotals(sizes, roundKeys[..r]) + [RoundTotal(sizes, roundKeys[r])]
  {
    TakeOneMore(roundKeys, r);
  }

  lemma MulSucc(n: nat, o: nat)
    ensures (n + 1) * o == n * o + o
  {
  }

  /** With distinct sizes a round appends exactly that table's count of the round to
      each table's list and leaves every other list alone. */
  lemma {:induction false} RecordRoundDistinct(results: map<nat, seq<nat>>, sizes: seq<nat>, keys: seq<string>, size: nat)
    requires AllInsertable(sizes, keys) && Distinct(sizes)
    ensures forall j :: 0 <= j < |sizes| && sizes[j] == size ==>
      History(RecordRound(results, sizes, keys), size) == History(results, size) + [Collisions(size, keys)]
    ensures size !in sizes ==> History(RecordRound(results, sizes, keys), size) == History(results, size)
  {
    if sizes != [] {
      RecordRoundDistinct(results, sizes[..|sizes| - 1], keys, size);
    }
  }

  /** Starting from no results with distinct sizes, the list of each size holds one
      count per round, and entry r is that table's collision count for round r's keys
      alone. */
  lemma {:induction false} RecordRoundsDistinct(sizes: seq<nat>, roundKeys: seq<seq<string>>, j: nat)
    requires AllRoundsInsertable(sizes, roundKeys) && Distinct(sizes) && j < |sizes|
    ensures |History(RecordRounds(map[], sizes, roundKeys), sizes[j])| == |roundKeys|
    ensures forall r :: 0 <= r < |roundKeys| ==>
      History(RecordRounds(map[], sizes, roundKeys), sizes[j])[r] == Collisions(sizes[j], roundKeys[r])
  {
    if roundKeys != [] {
      var prev := roundKeys[..|roundKeys| - 1];
      RecordRoundsDistinct(sizes, prev, j);
      RecordRoundDistinct(RecordRounds(map[], sizes, prev), sizes, roundKeys[|roundKeys| - 1], sizes[j]);
    }
  }

  /** The average number of collisions per round and the collision rate in percent
      that the summary reports for one table. */
  datatype Stats = Stats(meanCollisions: real, collisionRate: real)

  /** The divisions of the summary that fail with `ZeroDivisionError`. */
  datatype SummaryError = NoRounds | NoKeys

  /** `avg_collisions = sum(history) / rounds` and `collision_rate = avg / ic_count * 100`,
      in exact arithmetic. */
  function Summarize(history: seq<nat>, rounds: nat, icCount: nat): (r: Result<Stats, SummaryError>)
    ensures rounds == 0 ==> r == Failure(NoRounds)
    ensures rounds > 0 && icCount == 0 ==> r == Failure(NoKeys)
    ensures r.Success? <==> rounds > 0 && icCount > 0
    ensures r.Success? ==> r.value.meanCollisions * (rounds as real) == Sum(history) as real
    ensures r.Success? ==> r.value.collisionRate * (icCount as real) == 100.0 * r.value.meanCollisions
  {
    if rounds == 0 then Failure(NoRounds)
    else
      var mean := (Sum(history) as real) / (rounds as real);
      if icCount == 0 then Failure(NoKeys)
      else Success(Stats(mean, mean / (icCount as real) * 100.0))
  }

  lemma {:induction false} SumBound(xs: seq<nat>, m: nat)
    requires forall i :: 0 <= i < |xs| ==> xs[i] <= m
    ensures Sum(xs) <= |xs| * m
  {
    if xs != [] {
      SumBound(xs[..|xs| - 1], m);
    }
  }

  /** A mean below `icCount` per round is a rate below 100 percent. */
  lemma RateBelowHundred(total: nat, rounds: nat, icCount: nat)
    requires rounds > 0 && icCount > 0 && total < rounds * icCount
    ensures var mean := (total as real) / (rounds as real);
      0.0 <= mean / (icCount as real) * 100.0 < 100.0
  {
    var t, r, m := total as real, rounds as real, icCount as real;
    assert t < r * m;
    QuotientBelow(t, r, m);
    QuotientBelow(t / r, m, 1.0);
  }

  lemma QuotientBelow(x: real, d: real, bound: real)
    requires x >= 0.0 && d > 0.0 && x < d * bound
    ensures 0.0 <= x / d < bound
  {
  }

  /** A table's history in a run is one count per round, each over `icCount` keys; its
      summary is then a collision rate in [0, 100): no round collides on every key. */
  lemma RateIsPercentage(size: nat, roundKeys: seq<seq<string>>, history: seq<nat>, icCount: nat)
    requires |roundKeys| > 0 && icCount > 0 && |history| == |roundKeys|
    requires forall r :: 0 <= r < |roundKeys| ==> |roundKeys[r]| == icCount && Insertable(size, roundKeys[r])
    requires forall r :: 0 <= r < |roundKeys| ==> history[r] == Collisions(size, roundKeys[r])
    ensures Summarize(history, |roundKeys|, icCount).Success?
    ensures 0.0 <= Summarize(history, |roundKeys|, icCount).value.collisionRate < 100.0
  {
    forall r | 0 <= r < |roundKeys| ensures history[r] <= icCount - 1 {
      CollisionBounds(size, roundKeys[r]);
    }
    SumBound(history, icCount - 1);
    var n, m := |roundKeys|, icCount;
    assert n * (m - 1) < n * m;
    RateBelowHundred(Sum(history), n, m);
  }

  /** `for ic in ic_numbers: table.insert(ic)`: the keys go into the table one by one,
      in order. */
  method InsertEach(table: HashTable, keys: seq<string>)
    requires table.Valid() && Insertable(table.size, keys)
    modifies table
    ensures table.Valid() && table.inserted == old(table.inserted) + keys
  {
    for i := 0 to |keys|
      invariant table.Valid() && table.inserted == old(table.inserted) + keys[..i]
    {
      TakeOneMore(keys, i);
      table.Insert(keys[i]);
    }
    TakeAll(keys);
  }

  /** One table's turn in a round: `table.reset()`, then every key inserted in order;
      the result is the table's `collisions` afterwards. */
  method PlayTable(table: HashTable, keys: seq<string>) returns (count: nat)
    requires Insertable(table.size, keys)
    modifies table
    ensures table.Valid() && table.inserted == keys
    ensures count == table.collisions == Collisions(table.size, keys)
  {
    table.Reset();
    InsertEach(table, keys);
    count := table.collisions;
  }

  /** The simulation: one hash table per configured size, the per-size collision
      histories and the per-round totals. `Repr` is the set of the tables. */
  class ICSimulation {
    const icCount: nat
    const rounds: nat
    const tables: seq<HashTable>
    var results: map<nat, seq<nat>>
    var totalCollisionsPerRound: seq<nat>
    ghost const Repr: set<HashTable>

    /** The sizes of the tables, in order. */
    const sizes: seq<nat>

    ghost predicate Valid()
      reads this, Repr
    {
      Wired() && forall j :: 0 <= j < |tables| ==> tables[j].Valid()
    }

    /** One distinct table per size, in order, all in `Repr`. Only constant fields are
        involved, so no update of the tables can break it. */
    ghost predicate Wired() {
      && |sizes| == |tables|
      && (forall j :: 0 <= j < |tables| ==> tables[j] in Repr && tables[j].size == sizes[j])
      && (forall j, k :: 0 <= j < k < |tables| ==> tables[j] != tables[k])
    }

    /** `ICSimulation(table_sizes, ic_count, rounds)`: a fresh table per size, in order,
        and empty histories. */
    constructor (tableSizes: seq<nat>, icCount: nat := 1000, rounds: nat := 10)
      ensures Valid() && fresh(Repr)
      ensures sizes == tableSizes && this.icCount == icCount && this.rounds == rounds
      ensures forall j :: 0 <= j < |tables| ==> tables[j].inserted == []
      ensures results == map[] && totalCollisionsPerRound == []
    {
      var ts: seq<HashTable> := [];
      for j := 0 to |tableSizes|
        invariant |ts| == j
        invariant forall k :: 0 <= k < j ==> fresh(ts[k]) && ts[k].Valid() && ts[k].size == tableSizes[k] && ts[k].inserted == []
        invariant forall k, l :: 0 <= k < l < j ==> ts[k] != ts[l]
      {
        var t := new HashTable(tableSizes[j]);
        ts := ts + [t];
      }
      this.icCount := icCount;
      this.rounds := rounds;
      tables := ts;
      sizes := tableSizes;
      Repr := set k | 0 <= k < |ts| :: ts[k];
      results := map[];
      totalCollisionsPerRound := [];
    }

    /** `run()`, with the generated identity-card numbers of round r given as
        `roundKeys[r]`. */
    method Run(roundKeys: seq<seq<string>>)
      requires Valid()
      requires |roundKeys| == rounds
      requires forall r :: 0 <= r < rounds ==> |roundKeys[r]| == icCount
      requires AllRoundsInsertable(sizes, roundKeys)
      modifies this, Repr
      ensures Valid()
      ensures results == RecordRounds(old(results), sizes, roundKeys)
      ensures totalCollisionsPerRound == old(totalCollisionsPerRound) + RoundTotals(sizes, roundKeys)
      ensures rounds > 0 ==> HoldAll(|tables|, roundKeys[rounds - 1])
    {
      for r := 0 to rounds
        invariant Valid()
        invariant results == RecordRounds(old(results), sizes, roundKeys[..r])
        invariant totalCollisionsPerRound == old(totalCollisionsPerRound) + RoundTotals(sizes, roundKeys[..r])
        invariant r > 0 ==> HoldAll(|tables|, roundKeys[r - 1])
      {
        RunStep(old(results), sizes, roundKeys, r);
        RunRound(roundKeys[r]);
      }
      TakeAll(roundKeys);
    }

    /** The first `n` tables hold exactly `keys`. */
    ghost predicate HoldAll(n: nat, keys: seq<string>)
      reads Repr
    {
      forall k :: 0 <= k < n && k < |tables| ==> tables[k] in Repr && tables[k].inserted == keys
    }

    /** The turn of table `j` in a round: it is reset and takes every key; the other
        tables keep their contents. */
    method PlayAt(j: nat, icNumbers: seq<string>) returns (count: nat)
      requires Valid() && j < |tables|
      requires Insertable(sizes[j], icNumbers) && HoldAll(j, icNumbers)
      modifies tables[j]
      ensures Valid()
      ensures count == Collisions(sizes[j], icNumbers) && tables[j].inserted == icNumbers
      ensures HoldAll(j + 1, icNumbers)
    {
      count := PlayTable(tables[j], icNumbers);
    }

    /** The body of one round of `run()` for the key set `icNumbers`: every table in
        turn is reset, takes all keys in order, and appends its count to the list of
        its size; then the sum of the counts is appended as the round's total. */
    method RunRound(icNumbers: seq<string>)
      requires Valid()
      requires AllInsertable(sizes, icNumbers)
      modifies this, Repr
      ensures Valid()
      ensures results == RecordRound(old(results), sizes, icNumbers)
      ensures totalCollisionsPerRound == old(totalCollisionsPerRound) + [RoundTotal(sizes, icNumbers)]
      ensures HoldAll(|tables|, icNumbers)
    {
      var recorded, roundTotal := results, 0;
      for j := 0 to |tables|
        modifies Repr
        invariant Valid()
        invariant recorded == RecordRound(results, sizes[..j], icNumbers)
        invariant roundTotal == RoundTotal(sizes[..j], icNumbers)
        invariant HoldAll(j, icNumbers)
      {
        var count := PlayAt(j, icNumbers);
        RoundStep(results, sizes, icNumbers, j);
        recorded := Append(recorded, sizes[j], count);
        roundTotal := roundTotal + count;
      }
      TakeAll(sizes);
      results := recorded;
      totalCollisionsPerRound := totalCollisionsPerRound + [roundTotal];
    }
  }
}
