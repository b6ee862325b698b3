/** Contestant records and the pool operations the draw engine relies on: the
    department filter, the exclusion filter, removal by name and ticket sums. */
module Contestants {
  import opened Seqs

  /** One raffle entrant; `tickets` is the entrant's relative weight in a weighted draw. */
  datatype Contestant = Contestant(name: string, department: string, supervisor: string, tickets: nat)

  /** No two entries of `s` share a name. */
  predicate UniqueNames(s: seq<Contestant>) {
    forall i, j :: 0 <= i < j < |s| ==> s[i].name != s[j].name
  }

  /** The contestants of one department, in list order. */
  function ByDepartment(contestants: seq<Contestant>, department: string): (r: seq<Contestant>)
    ensures forall c :: c in r <==> c in contestants && c.department == department
    ensures IsSubsequence(r, contestants)
    ensures forall c :: multiset(r)[c] == if c.department == department then multiset(contestants)[c] else 0
  {
    FilterCounts(contestants, (c: Contestant) => c.department == department);
    Filter(contestants, (c: Contestant) => c.department == department)
  }

  /** The available pool: every contestant whose name is not listed in `excluded`, in pool order. */
  function Available(pool: seq<Contestant>, excluded: seq<string>): (r: seq<Contestant>)
    ensures forall c :: c in r <==> c in pool && c.name !in excluded
    ensures IsSubsequence(r, pool)
  {
    Filter(pool, (c: Contestant) => c.name !in excluded)
  }

  /** The pool with every entry named `name` dropped, in pool order. */
  function RemoveName(pool: seq<Contestant>, name: string): (r: seq<Contestant>)
    ensures forall c :: c in r <==> c in pool && c.name != name
    ensures IsSubsequence(r, pool)
  {
    Filter(pool, (c: Contestant) => c.name != name)
  }

  /** Putting a contestant whose name is new in front of a list with distinct names
      keeps the names distinct. */
  lemma PrependUniqueName(w: Contestant, later: seq<Contestant>)
    requires UniqueNames(later)
    requires forall c :: c in later ==> c.name != w.name
    ensures UniqueNames([w] + later)
  {
    var all := [w] + later;
    forall a, b | 0 <= a < b < |all| ensures all[a].name != all[b].name {
      if a == 0 {
        assert all[b] in later;
      } else {
        assert all[a] == later[a - 1] && all[b] == later[b - 1];
      }
    }
  }

  /** The available pool keeps every copy of an entry whose name is not excluded and
      no copy of an excluded one. */
  lemma AvailableCounts(pool: seq<Contestant>, excluded: seq<string>)
    ensures forall c :: multiset(Available(pool, excluded))[c] == if c.name !in excluded then multiset(pool)[c] else 0
  {
    FilterCounts(pool, (c: Contestant) => c.name !in excluded);
  }

  /** Removal by name keeps every copy of an entry with another name and no copy of
      an entry with that name. */
  lemma RemoveNameCounts(pool: seq<Contestant>, name: string)
    ensures forall c :: multiset(RemoveName(pool, name))[c] == if c.name != name then multiset(pool)[c] else 0
  {
    FilterCounts(pool, (c: Contestant) => c.name != name);
  }

  /** Keeping a subset of a list whose names are distinct keeps the names distinct. */
  lemma {:induction false} FilterKeepsUniqueNames(s: seq<Contestant>, keep: Contestant -> bool)
    requires UniqueNames(s)
    ensures UniqueNames(Filter(s, keep))
  {
    if s != [] {
      FilterKeepsUniqueNames(s[1..], keep);
      var rest := Filter(s[1..], keep);
      if keep(s[0]) {
        forall c | c in rest ensures c.name != s[0].name {
          var j :| 0 <= j < |s[1..]| && s[1..][j] == c;
          assert s[j + 1] == c;
        }
        var r := [s[0]] + rest;
        forall i, j | 0 <= i < j < |r| ensures r[i].name != r[j].name {
          if i == 0 {
            assert r[j] in rest;
          } else {
            assert r[i] == rest[i - 1] && r[j] == rest[j - 1];
          }
        }
      }
    }
  }

  /** The available pool of a pool with distinct names has distinct names. */
  lemma AvailableKeepsUniqueNames(pool: seq<Contestant>, excluded: seq<string>)
    requires UniqueNames(pool)
    ensures UniqueNames(Available(pool, excluded))
  {
    FilterKeepsUniqueNames(pool, (c: Contestant) => c.name !in excluded);
  }

  /** Listing a name that no pool member has as excluded changes nothing. */
  lemma AvailableIgnoresForeignName(pool: seq<Contestant>, excluded: seq<string>, name: string)
    requires forall c :: c in pool ==> c.name != name
    ensures Available(pool, excluded + [name]) == Available(pool, excluded)
  {
    FilterCongruent(pool, (c: Contestant) => c.name !in excluded + [name], (c: Contestant) => c.name !in excluded);
  }

  /** Removal by name from a list with distinct names leaves the names distinct. */
  lemma RemoveNameKeepsUniqueNames(pool: seq<Contestant>, name: string)
    requires UniqueNames(pool)
    ensures UniqueNames(RemoveName(pool, name))
  {
    FilterKeepsUniqueNames(pool, (c: Contestant) => c.name != name);
  }

  /** Removing the name of a pool member shrinks the pool. */
  lemma RemoveNameShrinks(pool: seq<Contestant>, k: nat)
    requires k < |pool|
    ensures |RemoveName(pool, pool[k].name)| < |pool|
  {
    FilterShrinks(pool, (c: Contestant) => c.name != pool[k].name, k);
  }

  /** Removing a name nobody in the pool has leaves the pool as it is. */
  lemma {:induction false} RemoveAbsentName(s: seq<Contestant>, name: string)
    requires forall c :: c in s ==> c.name != name
    ensures RemoveName(s, name) == s
  {
    if s != [] {
      RemoveAbsentName(s[1..], name);
      assert [s[0]] + s[1..] == s;
    }
  }

  /** Removal by name looks at the pool one entry at a time, front first. */
  lemma RemoveNameUnfold(s: seq<Contestant>, name: string)
    requires s != []
    ensures RemoveName(s, name) == (if s[0].name != name then [s[0]] else []) + RemoveName(s[1..], name)
  {
  }

  /** Dropping the head of a list with distinct names keeps the names distinct. */
  lemma UniqueNamesTail(s: seq<Contestant>)
    requires UniqueNames(s) && s != []
    ensures UniqueNames(s[1..])
  {
    var tail := s[1..];
    forall i, j | 0 <= i < j < |tail| ensures tail[i].name != tail[j].name {
      assert tail[i] == s[i + 1] && tail[j] == s[j + 1];
    }
  }

  /** With distinct names, removing the head's name deletes the head alone. */
  lemma RemoveNameDeletesHead(s: seq<Contestant>)
    requires UniqueNames(s) && s != []
    ensures RemoveName(s, s[0].name) == s[1..]
  {
    var name := s[0].name;
    RemoveNameUnfold(s, name);
    forall c | c in s[1..] ensures c.name != name {
      var j :| 0 <= j < |s[1..]| && s[1..][j] == c;
      assert s[j + 1] == c;
    }
    RemoveAbsentName(s[1..], name);
  }

  /** With distinct names, removing the name found at position k deletes exactly that entry. */
  lemma {:induction false} RemoveNameDeletesAt(s: seq<Contestant>, k: nat)
    requires UniqueNames(s) && k < |s|
    ensures RemoveName(s, s[k].name) == s[..k] + s[k + 1..]
  {
    if k == 0 {
      RemoveNameDeletesHead(s);
      assert s[..0] + s[1..] == s[1..];
    } else {
      var name, tail := s[k].name, s[1..];
      RemoveNameUnfold(s, name);
      UniqueNamesTail(s);
      assert tail[k - 1] == s[k];
      RemoveNameDeletesAt(tail, k - 1);
      assert s[0].name != name;
      DeleteBehindHead(s, k);
    }
  }

  /** Sum of the ticket counts, accumulated from the left as `reduce` does; no
      contestant holds more tickets than the whole pool. */
  function TicketTotal(s: seq<Contestant>): (total: nat)
    ensures forall k :: 0 <= k < |s| ==> s[k].tickets <= total
  {
    if s == [] then 0
    else
      var init := s[..|s| - 1];
      assert forall k :: 0 <= k < |init| ==> init[k] == s[k];
      TicketTotal(init) + s[|s| - 1].tickets
  }

  /** The total is zero exactly when nobody holds a ticket. */
  lemma {:induction false} TicketTotalZero(s: seq<Contestant>)
    ensures TicketTotal(s) == 0 <==> forall k :: 0 <= k < |s| ==> s[k].tickets == 0
  {
    if s != [] {
      var init := s[..|s| - 1];
      TicketTotalZero(init);
      assert forall k :: 0 <= k < |init| ==> init[k] == s[k];
    }
  }

  /** The tickets held by the first `i` contestants. */
  function PrefixSum(s: seq<Contestant>, i: nat): nat
    requires i <= |s|
  {
    TicketTotal(s[..i])
  }

  /** The running ticket sum once contestant k has been counted: `currentSum` just
      after the scan's step at position k, that is PrefixSum(s, k + 1). */
  function RunningSum(s: seq<Contestant>, k: nat): nat
    requires k < |s|
  {
    PrefixSum(s, k + 1)
  }

  /** Each contestant extends the running sum by its own ticket count. */
  lemma PrefixSumStep(s: seq<Contestant>, i: nat)
    requires i < |s|
    ensures PrefixSum(s, i + 1) == PrefixSum(s, i) + s[i].tickets
  {
    assert s[..i + 1][..i] == s[..i];
  }

  /** Running sums never decrease along the pool. */
  lemma {:induction false} PrefixSumMonotone(s: seq<Contestant>, i: nat, j: nat)
    requires i <= j <= |s|
    ensures PrefixSum(s, i) <= PrefixSum(s, j)
  {
    if i < j {
      PrefixSumMonotone(s, i, j - 1);
      PrefixSumStep(s, j - 1);
    }
  }

  /** The running sum over the whole pool is the pool's ticket total. */
  lemma PrefixSumAll(s: seq<Contestant>)
    ensures PrefixSum(s, |s|) == TicketTotal(s)
  {
    assert s[..|s|] == s;
  }

  /** When every contestant holds a ticket, the total is at least the number of contestants. */
  lemma {:induction false} PositiveTicketsTotal(s: seq<Contestant>)
    requires forall c :: c in s ==> c.tickets > 0
    ensures TicketTotal(s) >= |s|
  {
    if s != [] {
      var init := s[..|s| - 1];
      assert forall c :: c in init ==> c in s;
      PositiveTicketsTotal(init);
    }
  }
}
