/** Uniform sampling without replacement (drawWinnersUnweighted): each round picks
    a position of the remaining pool with Math.floor(u * length) and splices that
    contestant out, ignoring ticket counts. */
module UniformDraw {
  import opened Contestants
  import opened RandomSource

  /** The sequence with position k spliced out: `shuffled.splice(k, 1)` on a copy. */
  function DeleteAt(s: seq<Contestant>, k: nat): (r: seq<Contestant>)
    requires k < |s|
    ensures |r| == |s| - 1
    ensures multiset(r) + multiset{s[k]} == multiset(s)
  {
    assert s == s[..k] + [s[k]] + s[k + 1..];
    s[..k] + s[k + 1..]
  }

  /** The winners of rounds i, i + 1, ..., count - 1, drawn from `shuffled` with
      rand(i) as round i's Math.random() value. */
  function UniformRounds(shuffled: seq<Contestant>, rand: nat -> real, i: nat, count: int): (winners: seq<Contestant>)
    requires UnitInterval(rand)
    requires count - i <= |shuffled|
    ensures forall k :: 0 <= k < |winners| ==> winners[k] in shuffled
    decreases count - i
  {
    if i >= count then []
    else
      var k := ScaledFloor(rand(i), |shuffled|);
      [shuffled[k]] + UniformRounds(DeleteAt(shuffled, k), rand, i + 1, count)
  }

  /** The result of drawWinnersUnweighted(pool, count, excluded): the whole available
      pool when it is smaller than `count`, otherwise the winners of `count` rounds. */
  function UniformWinners(pool: seq<Contestant>, count: int, excluded: seq<string>, rand: nat -> real): (winners: seq<Contestant>)
    requires UnitInterval(rand)
    ensures |Available(pool, excluded)| < count ==> winners == Available(pool, excluded)
    ensures 0 <= count <= |Available(pool, excluded)| ==> |winners| == count
    ensures count <= 0 ==> winners == []
  {
    var available := Available(pool, excluded);
    if |available| < count then available
    else
      UniformRoundsCount(available, rand, 0, count);
      UniformRounds(available, rand, 0, count)
  }

  method DrawWinnersUnweighted(pool: seq<Contestant>, count: int, excludeWinners: seq<string>, rand: nat -> real)
    returns (winners: seq<Contestant>)
    requires UnitInterval(rand)
    ensures winners == UniformWinners(pool, count, excludeWinners, rand)
  {
    var availablePool := Available(pool, excludeWinners);
    if |availablePool| < count {
      return availablePool;
    }
    winners := [];
    var shuffled := availablePool;
    var i: nat := 0;
    ghost var target := UniformRounds(availablePool, rand, 0, count);
    while i < count
      invariant count - i <= |shuffled|
      invariant winners + UniformRounds(shuffled, rand, i, count) == target
    {
      var randomIndex := ScaledFloor(rand(i), |shuffled|);
      UniformRoundsStep(winners, shuffled, rand, i, count);
      winners := winners + [shuffled[randomIndex]];
      shuffled := DeleteAt(shuffled, randomIndex);
      i := i + 1;
    }
    assert UniformRounds(shuffled, rand, i, count) == [];
    assert winners == target;
  }

  /** One round of the loop: the winner of round i joins the winners so far, and
      the rounds after it are drawn from the pool with that winner spliced out. */
  lemma UniformRoundsStep(winners: seq<Contestant>, shuffled: seq<Contestant>, rand: nat -> real, i: nat, count: int)
    requires UnitInterval(rand)
    requires i < count && count - i <= |shuffled|
    ensures var k := ScaledFloor(rand(i), |shuffled|);
      0 <= k < |shuffled| &&
      (winners + [shuffled[k]]) + UniformRounds(DeleteAt(shuffled, k), rand, i + 1, count)
        == winners + UniformRounds(shuffled, rand, i, count)
  {
    var k := ScaledFloor(rand(i), |shuffled|);
    var later := UniformRounds(DeleteAt(shuffled, k), rand, i + 1, count);
    assert UniformRounds(shuffled, rand, i, count) == [shuffled[k]] + later;
    assert (winners + [shuffled[k]]) + later == winners + ([shuffled[k]] + later);
  }

  /** Every round has a winner: the rounds left produce exactly that many winners. */
  lemma {:induction false} UniformRoundsCount(shuffled: seq<Contestant>, rand: nat -> real, i: nat, count: int)
    requires UnitInterval(rand)
    requires count - i <= |shuffled|
    ensures i <= count ==> |UniformRounds(shuffled, rand, i, count)| == count - i
    decreases count - i
  {
    if i < count {
      var k := ScaledFloor(rand(i), |shuffled|);
      UniformRoundsCount(DeleteAt(shuffled, k), rand, i + 1, count);
    }
  }

  /** The winners are drawn from `shuffled` without replacement: no entry is taken
      more often than it occurs. */
  lemma {:induction false} UniformRoundsFromPool(shuffled: seq<Contestant>, rand: nat -> real, i: nat, count: int)
    requires UnitInterval(rand)
    requires count - i <= |shuffled|
    ensures multiset(UniformRounds(shuffled, rand, i, count)) <= multiset(shuffled)
    decreases count - i
  {
    if i < count {
      var k := ScaledFloor(rand(i), |shuffled|);
      UniformRoundsFromPool(DeleteAt(shuffled, k), rand, i + 1, count);
    }
  }

  /** Splicing one entry out of a list with distinct names keeps the names distinct,
      and no remaining entry shares the spliced entry's name. */
  lemma DeleteAtUniqueNames(s: seq<Contestant>, k: nat)
    requires UniqueNames(s) && k < |s|
    ensures UniqueNames(DeleteAt(s, k))
    ensures forall c :: c in DeleteAt(s, k) ==> c.name != s[k].name
  {
    RemoveNameDeletesAt(s, k);
    RemoveNameKeepsUniqueNames(s, s[k].name);
  }

  /** With distinct names in the pool, the winners' names are distinct. */
  lemma {:induction false} UniformRoundsUniqueNames(shuffled: seq<Contestant>, rand: nat -> real, i: nat, count: int)
    requires UnitInterval(rand)
    requires count - i <= |shuffled|
    requires UniqueNames(shuffled)
    ensures UniqueNames(UniformRounds(shuffled, rand, i, count))
    decreases count - i
  {
    if i < count {
      var k := ScaledFloor(rand(i), |shuffled|);
      var rest := DeleteAt(shuffled, k);
      var later := UniformRounds(rest, rand, i + 1, count);
      DeleteAtUniqueNames(shuffled, k);
      UniformRoundsUniqueNames(rest, rand, i + 1, count);
      UniformRoundsFromPool(rest, rand, i + 1, count);
      forall c | c in later ensures c.name != shuffled[k].name {
        assert c in multiset(later);
      }
      PrependUniqueName(shuffled[k], later);
    }
  }

  /** Exclusion respected, without replacement: the winners are taken from the
      available pool, each at most as often as it occurs there. */
  lemma UniformWinnersFromAvailable(pool: seq<Contestant>, count: int, excluded: seq<string>, rand: nat -> real)
    requires UnitInterval(rand)
    ensures multiset(UniformWinners(pool, count, excluded, rand)) <= multiset(Available(pool, excluded))
    ensures forall c :: c in UniformWinners(pool, count, excluded, rand) ==> c in pool && c.name !in excluded
  {
    if |Available(pool, excluded)| >= count {
      UniformRoundsFromPool(Available(pool, excluded), rand, 0, count);
    }
    var w := UniformWinners(pool, count, excluded, rand);
    forall c | c in w ensures c in Available(pool, excluded) {
      assert c in multiset(w);
    }
  }

  /** No duplicates: with distinct names in the available pool, the winners' names
      are distinct. */
  lemma UniformWinnersDistinct(pool: seq<Contestant>, count: int, excluded: seq<string>, rand: nat -> real)
    requires UnitInterval(rand)
    requires UniqueNames(Available(pool, excluded))
    ensures UniqueNames(UniformWinners(pool, count, excluded, rand))
  {
    if |Available(pool, excluded)| >= count {
      UniformRoundsUniqueNames(Available(pool, excluded), rand, 0, count);
    }
  }
}
