/** Ticket-weighted sampling without replacement (drawWinnersWeighted), and
    drawWinners, which delegates to it.

    Each round draws a ticket number r in [1, total] for the tickets still in the
    remaining pool, walks the remaining pool in order accumulating ticket counts,
    and takes the first contestant whose running sum reaches r: the pool order
    cuts [1, total] into consecutive segments, one per contestant, as long as
    that contestant's ticket count. The winner is then removed by name. */
module WeightedDraw {
  import opened Seqs
  import opened Contestants
  import opened RandomSource

  datatype Option<T> = None | Some(value: T)

  /** Math.floor(u * total) + 1: the ticket number a round draws. A Math.random()
      value gives a ticket number in [1, total]; with no tickets at all it gives 1. */
  function TicketNumber(u: real, total: nat): (r: int)
    ensures 0.0 <= u < 1.0 && total == 0 ==> r == 1
    ensures 0.0 <= u < 1.0 && total > 0 ==> 1 <= r <= total
  {
    ScaledFloor(u, total) + 1
  }

  /** The first position at or after j whose running ticket sum reaches r. */
  function PickFrom(pool: seq<Contestant>, r: int, j: nat): (found: Option<nat>)
    requires j <= |pool|
    ensures found.Some? ==> j <= found.value < |pool| && r <= RunningSum(pool, found.value)
    ensures found.Some? ==> forall k :: j <= k < found.value ==> RunningSum(pool, k) < r
    ensures found.None? ==> forall k :: j <= k < |pool| ==> RunningSum(pool, k) < r
    decreases |pool| - j
  {
    if j == |pool| then None
    else if r <= RunningSum(pool, j) then Some(j)
    else PickFrom(pool, r, j + 1)
  }

  /** The position of the contestant holding ticket number r: the first one whose
      running ticket sum reaches r, or None when the whole pool's tickets fall short of r. */
  function PickIndex(pool: seq<Contestant>, r: int): (found: Option<nat>)
    ensures found.Some? ==> found.value < |pool| && r <= RunningSum(pool, found.value)
    ensures found.Some? ==> forall k :: 0 <= k < found.value ==> RunningSum(pool, k) < r
    ensures found.None? ==> forall k :: 0 <= k < |pool| ==> RunningSum(pool, k) < r
  {
    PickFrom(pool, r, 0)
  }

  /** For a ticket number r >= 1, the pick is position i exactly when r lies in i's
      segment (PrefixSum(i), PrefixSum(i + 1)]; so the segment holding r is unique. */
  lemma PickIndexSegment(pool: seq<Contestant>, r: int, i: nat)
    requires 1 <= r
    ensures PickIndex(pool, r) == Some(i) <==> i < |pool| && PrefixSum(pool, i) < r <= PrefixSum(pool, i + 1)
  {
    var found := PickIndex(pool, r);
    if found == Some(i) {
      if i == 0 {
        assert pool[..0] == [];
      } else {
        assert RunningSum(pool, i - 1) < r;
      }
    }
    if i < |pool| && PrefixSum(pool, i) < r <= PrefixSum(pool, i + 1) {
      assert RunningSum(pool, i) >= r;
      if found.Some? && found.value < i {
        PrefixSumMonotone(pool, found.value + 1, i);
      }
    }
  }

  /** A ticket number within [1, total] always finds a holder. */
  lemma PickIndexExists(pool: seq<Contestant>, r: int)
    requires 1 <= r <= TicketTotal(pool)
    ensures PickIndex(pool, r).Some?
  {
    assert pool != [];
    PrefixSumAll(pool);
    assert RunningSum(pool, |pool| - 1) >= r;
  }

  /** A contestant with no tickets is never picked by a ticket number r >= 1. */
  lemma PickedHoldsTickets(pool: seq<Contestant>, r: int)
    requires 1 <= r && PickIndex(pool, r).Some?
    ensures pool[PickIndex(pool, r).value].tickets > 0
  {
    var i := PickIndex(pool, r).value;
    PickIndexSegment(pool, r, i);
    PrefixSumStep(pool, i);
  }

  /** The winners of rounds i, i + 1, ..., count - 1, drawn from `remaining` with
      rand(i) as round i's Math.random() value. A round whose ticket number finds no
      holder (all remaining tickets are 0) adds nobody; an empty pool ends the draw. */
  function WeightedRounds(remaining: seq<Contestant>, rand: nat -> real, i: nat, count: int): (winners: seq<Contestant>)
    ensures forall k :: 0 <= k < |winners| ==> winners[k] in remaining
    decreases count - i
  {
    if i >= count || remaining == [] then []
    else
      var r := TicketNumber(rand(i), TicketTotal(remaining));
      match PickIndex(remaining, r)
      case None => WeightedRounds(remaining, rand, i + 1, count)
      case Some(k) => [remaining[k]] + WeightedRounds(RemoveName(remaining, remaining[k].name), rand, i + 1, count)
  }

  /** The result of drawWinnersWeighted(pool, count, excluded): the whole available pool
      when it is smaller than `count`, otherwise the winners of `count` rounds. */
  function WeightedWinners(pool: seq<Contestant>, count: int, excluded: seq<string>, rand: nat -> real): (winners: seq<Contestant>)
    ensures |Available(pool, excluded)| < count ==> winners == Available(pool, excluded)
    ensures forall c :: c in winners ==> c in pool && c.name !in excluded
    ensures count <= 0 ==> winners == []
  {
    var available := Available(pool, excluded);
    if |available| < count then available else WeightedRounds(available, rand, 0, count)
  }

  /** The scan of one round: walk the pool accumulating ticket counts and select the
      first contestant whose running sum reaches the ticket number r, if any. */
  method SelectByTicket(remainingPool: seq<Contestant>, r: int) returns (selectedWinner: Option<Contestant>)
    ensures selectedWinner.Some? <==> PickIndex(remainingPool, r).Some?
    ensures selectedWinner.Some? ==> selectedWinner.value == remainingPool[PickIndex(remainingPool, r).value]
  {
    ghost var pick := PickIndex(remainingPool, r);
    var currentSum := 0;
    selectedWinner := None;
    var j := 0;
    while j < |remainingPool|
      invariant 0 <= j <= |remainingPool|
      invariant currentSum == PrefixSum(remainingPool, j)
      invariant selectedWinner == None && PickFrom(remainingPool, r, j) == pick
    {
      PrefixSumStep(remainingPool, j);
      currentSum := currentSum + remainingPool[j].tickets;
      if r <= currentSum {
        selectedWinner := Some(remainingPool[j]);
        return;
      }
      j := j + 1;
    }
  }

  method DrawWinnersWeighted(pool: seq<Contestant>, count: int, excludeWinners: seq<string>, rand: nat -> real)
    returns (winners: seq<Contestant>)
    ensures winners == WeightedWinners(pool, count, excludeWinners, rand)
  {
    var availablePool := Available(pool, excludeWinners);
    if |availablePool| < count {
      return availablePool;
    }
    winners := [];
    var remainingPool := availablePool;
    var i: nat := 0;
    while i < count
      invariant winners + WeightedRounds(remainingPool, rand, i, count) == WeightedRounds(availablePool, rand, 0, count)
    {
      if remainingPool == [] {
        break;
      }
      var totalTickets := TicketTotal(remainingPool);
      var randomTicket := TicketNumber(rand(i), totalTickets);
      var selectedWinner := SelectByTicket(remainingPool, randomTicket);

      WeightedRoundsStep(winners, remainingPool, rand, i, count);
      if selectedWinner.Some? {
        winners := winners + [selectedWinner.value];
        remainingPool := RemoveName(remainingPool, selectedWinner.value.name);
      }
      i := i + 1;
    }
  }

  /** One round of the loop: a ticket number with a holder adds that holder to the
      winners so far and removes its name; one without a holder adds nobody. */
  lemma WeightedRoundsStep(winners: seq<Contestant>, remaining: seq<Contestant>, rand: nat -> real, i: nat, count: int)
    requires i < count && remaining != []
    ensures var pick := PickIndex(remaining, TicketNumber(rand(i), TicketTotal(remaining)));
      pick.Some? ==>
        (winners + [remaining[pick.value]]) + WeightedRounds(RemoveName(remaining, remaining[pick.value].name), rand, i + 1, count)
          == winners + WeightedRounds(remaining, rand, i, count)
    ensures var pick := PickIndex(remaining, TicketNumber(rand(i), TicketTotal(remaining)));
      pick.None? ==> WeightedRounds(remaining, rand, i + 1, count) == WeightedRounds(remaining, rand, i, count)
  {
    var pick := PickIndex(remaining, TicketNumber(rand(i), TicketTotal(remaining)));
    if pick.Some? {
      var w := remaining[pick.value];
      var later := WeightedRounds(RemoveName(remaining, w.name), rand, i + 1, count);
      assert WeightedRounds(remaining, rand, i, count) == [w] + later;
      assert (winners + [w]) + later == winners + ([w] + later);
    }
  }

  /** drawWinners delegates to the weighted draw. */
  method DrawWinners(pool: seq<Contestant>, count: int, excludeWinners: seq<string>, rand: nat -> real)
    returns (winners: seq<Contestant>)
    ensures winners == WeightedWinners(pool, count, excludeWinners, rand)
  {
    winners := DrawWinnersWeighted(pool, count, excludeWinners, rand);
  }

  /** There are never more winners than contestants, nor than rounds left. */
  lemma {:induction false} WeightedRoundsLength(remaining: seq<Contestant>, rand: nat -> real, i: nat, count: int)
    ensures |WeightedRounds(remaining, rand, i, count)| <= |remaining|
    ensures i <= count ==> |WeightedRounds(remaining, rand, i, count)| <= count - i
    decreases count - i
  {
    if i < count && remaining != [] {
      var r := TicketNumber(rand(i), TicketTotal(remaining));
      match PickIndex(remaining, r)
      case None =>
        WeightedRoundsLength(remaining, rand, i + 1, count);
      case Some(k) =>
        RemoveNameShrinks(remaining, k);
        WeightedRoundsLength(RemoveName(remaining, remaining[k].name), rand, i + 1, count);
    }
  }

  /** No name wins twice: each winner is removed by name before the next round. */
  lemma {:induction false} WeightedRoundsUniqueNames(remaining: seq<Contestant>, rand: nat -> real, i: nat, count: int)
    ensures UniqueNames(WeightedRounds(remaining, rand, i, count))
    decreases count - i
  {
    if i < count && remaining != [] {
      var r := TicketNumber(rand(i), TicketTotal(remaining));
      match PickIndex(remaining, r)
      case None =>
        WeightedRoundsUniqueNames(remaining, rand, i + 1, count);
      case Some(k) =>
        var w := remaining[k];
        var rest := RemoveName(remaining, w.name);
        var later := WeightedRounds(rest, rand, i + 1, count);
        WeightedRoundsUniqueNames(rest, rand, i + 1, count);
        PrependUniqueName(w, later);
    }
  }

  /** Given Math.random() values in [0, 1), every winner holds at least one ticket. */
  lemma {:induction false} WeightedRoundsPositive(remaining: seq<Contestant>, rand: nat -> real, i: nat, count: int)
    requires UnitInterval(rand)
    ensures forall c :: c in WeightedRounds(remaining, rand, i, count) ==> c.tickets > 0
    decreases count - i
  {
    if i < count && remaining != [] {
      var r := TicketNumber(rand(i), TicketTotal(remaining));
      match PickIndex(remaining, r)
      case None =>
        WeightedRoundsPositive(remaining, rand, i + 1, count);
      case Some(k) =>
        PickedHoldsTickets(remaining, r);
        WeightedRoundsPositive(RemoveName(remaining, remaining[k].name), rand, i + 1, count);
    }
  }

  /** When nobody holds a ticket, every round draws ticket number 1, finds no holder
      and is skipped: nobody wins. */
  lemma {:induction false} ZeroTicketsNoWinners(remaining: seq<Contestant>, rand: nat -> real, i: nat, count: int)
    requires UnitInterval(rand)
    requires forall k :: 0 <= k < |remaining| ==> remaining[k].tickets == 0
    ensures WeightedRounds(remaining, rand, i, count) == []
    decreases count - i
  {
    if i < count && remaining != [] {
      var r := TicketNumber(rand(i), TicketTotal(remaining));
      TicketTotalZero(remaining);
      if PickIndex(remaining, r).Some? {
        PickedHoldsTickets(remaining, r);
        assert false;
      }
      ZeroTicketsNoWinners(remaining, rand, i + 1, count);
    }
  }

  /** With distinct names, positive ticket counts and Math.random() values in [0, 1),
      every round has a winner: the rounds left produce exactly that many winners. */
  lemma {:induction false} WeightedRoundsCount(remaining: seq<Contestant>, rand: nat -> real, i: nat, count: int)
    requires UnitInterval(rand)
    requires UniqueNames(remaining)
    requires forall c :: c in remaining ==> c.tickets > 0
    requires i <= count <= i + |remaining|
    ensures |WeightedRounds(remaining, rand, i, count)| == count - i
    decreases count - i
  {
    if i < count {
      var total := TicketTotal(remaining);
      PositiveTicketsTotal(remaining);
      var r := TicketNumber(rand(i), total);
      PickIndexExists(remaining, r);
      var k := PickIndex(remaining, r).value;
      var rest := RemoveName(remaining, remaining[k].name);
      RemoveNameDeletesAt(remaining, k);
      RemoveNameKeepsUniqueNames(remaining, remaining[k].name);
      WeightedRoundsCount(rest, rand, i + 1, count);
    }
  }

  /** No duplicates: the winners' names are distinct whenever the available pool's
      are, and always when the available pool covers the request. */
  lemma WeightedWinnersDistinct(pool: seq<Contestant>, count: int, excluded: seq<string>, rand: nat -> real)
    requires UniqueNames(Available(pool, excluded)) || count <= |Available(pool, excluded)|
    ensures UniqueNames(WeightedWinners(pool, count, excluded, rand))
  {
    WeightedRoundsUniqueNames(Available(pool, excluded), rand, 0, count);
  }

  /** Never more winners than the available pool holds or than were requested. */
  lemma WeightedWinnersAtMost(pool: seq<Contestant>, count: int, excluded: seq<string>, rand: nat -> real)
    ensures |WeightedWinners(pool, count, excluded, rand)| <= |Available(pool, excluded)|
    ensures 0 <= count <= |Available(pool, excluded)| ==> |WeightedWinners(pool, count, excluded, rand)| <= count
  {
    WeightedRoundsLength(Available(pool, excluded), rand, 0, count);
  }

  /** Cardinality: when the available pool has distinct names and positive ticket
      counts, Math.random() values lie in [0, 1) and the available pool covers the
      request, there are exactly `count` winners. Excluded entries may break both. */
  lemma WeightedWinnersCardinality(pool: seq<Contestant>, count: int, excluded: seq<string>, rand: nat -> real)
    requires UnitInterval(rand)
    requires UniqueNames(Available(pool, excluded))
    requires forall c :: c in Available(pool, excluded) ==> c.tickets > 0
    requires 0 <= count <= |Available(pool, excluded)|
    ensures |WeightedWinners(pool, count, excluded, rand)| == count
  {
    WeightedRoundsCount(Available(pool, excluded), rand, 0, count);
  }

  /** Excluding a name that nobody in the pool has does not change the draw. */
  lemma WeightedWinnersForeignExclusion(pool: seq<Contestant>, count: int, excluded: seq<string>, name: string, rand: nat -> real)
    requires forall c :: c in pool ==> c.name != name
    ensures WeightedWinners(pool, count, excluded + [name], rand) == WeightedWinners(pool, count, excluded, rand)
  {
    AvailableIgnoresForeignName(pool, excluded, name);
  }

  /** Removal by name drops every entry sharing the winner's name: two entries named
      "A" with one ticket each and two winners requested yield a single winner,
      whichever Math.random() values in [0, 1) the draw sees. */
  lemma DuplicateNamesYieldFewer(rand: nat -> real)
    requires UnitInterval(rand)
    ensures
      var a := Contestant("A", "APAC", "S", 1);
      WeightedWinners([a, a], 2, [], rand) == [a]
  {
    var a := Contestant("A", "APAC", "S", 1);
    var pool := [a, a];
    FilterAll(pool, (c: Contestant) => c.name !in []);
    assert Available(pool, []) == pool;
    assert pool[..2] == pool && pool[..1] == [a] && [a][..0] == [];
    assert TicketTotal([a]) == 1;
    assert TicketTotal(pool) == 2;
    var r := TicketNumber(rand(0), TicketTotal(pool));
    PickIndexExists(pool, r);
    var k := PickIndex(pool, r).value;
    assert pool[k] == a;
    assert RemoveName(pool, "A") == [];
    assert WeightedRounds(pool, rand, 0, 2) == [a] + WeightedRounds([], rand, 1, 2);
  }
}
