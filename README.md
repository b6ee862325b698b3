# Raffle draw engine — a Dafny model

This project models the draw engine of a raffle dashboard (`src/utils/raffle.ts`).
Contestants hold ticket counts. A draw takes the contestant pool, a requested
number of winners and the names already drawn. It returns an ordered list of
winners. The model covers these operations:

- **drawWinnersWeighted** (`WeightedDraw.DrawWinnersWeighted`) is ticket-weighted
  sampling without replacement. It drops the excluded names. If fewer contestants
  remain than were requested, it returns that filtered pool as it is. Otherwise it
  runs `count` rounds. Each round draws a ticket number `r = floor(u * total) + 1`,
  where `total` is the ticket total of the remaining pool. It walks the remaining
  pool in order, adding up ticket counts, and takes the first contestant whose
  running sum reaches `r`. It then removes every entry with that contestant's name.
  An empty remaining pool ends the draw early. A round whose `r` finds no holder is
  skipped; this happens when every remaining ticket count is 0.
- **drawWinners** (`WeightedDraw.DrawWinners`) delegates to the weighted draw.
- **drawWinnersUnweighted** (`UniformDraw.DrawWinnersUnweighted`) does the same
  filtering and has the same shortfall rule. Each round picks position
  `floor(u * length)` of the remaining copy and splices it out.
- **getContestantsByDepartment** (`Contestants.ByDepartment`) is an
  order-preserving department filter.
- **exportToCSV**, its text-building part (`CsvExport.CsvContent`), writes a
  six-column header line and then one comma-joined line per winner, with lines
  joined by `'\n'`.

The draws are imperative methods with loops over local sequences, like the source.
Each method is proved equal to a recursive specification function
(`WeightedWinners`, `UniformWinners`). The properties are lemmas about those
functions. Sequences are values in Dafny, so the caller's pool is never changed.

Randomness is injected. Round `i` of a draw makes one `Math.random()` call, and
the model receives that value as `rand(i)` from a stream `rand: nat -> real`.
`UnitInterval(rand)` states that every value lies in `[0, 1)`. The weighted method
is defined for any stream. The uniform method requires `UnitInterval`: only a
value in `[0, 1)` makes `floor(u * length)` a position of the copy. A value of 1
or more would give an index at or past the end of the copy, where
`splice(...)[0]` is `undefined`.

The model keeps two behaviours of the code as written:

- A weighted round never picks a contestant with 0 tickets (`PickedHoldsTickets`,
  `WeightedRoundsPositive`). If the whole remaining pool holds 0 tickets, `r` is 1,
  no holder is found, and the round is skipped without a winner
  (`ZeroTicketsNoWinners`). The shortfall branch, which returns the available pool
  as it is, and the uniform draw, which ignores tickets, can still return a
  contestant with 0 tickets.
- Removal is by name. So two entries that share a name leave together, and the
  draw can return fewer winners than requested (`DuplicateNamesYieldFewer`).

Because of these, the exact-cardinality lemma for the weighted draw
(`WeightedWinnersCardinality`) takes positive ticket counts and distinct names in
the available pool as hypotheses. The draw itself checks neither: a contestant record may hold 0
tickets and may repeat a name, and every lemma without these hypotheses holds
for such pools too.

## Model

| member | source | states |
|---|---|---|
| `Seqs.Filter` | src/utils/raffle.ts:19 | The filtered list holds exactly the inputs that pass the test, as an in-order subsequence of the input, and is no longer than the input |
| `Seqs.FilterCounts` | src/utils/raffle.ts:19 | Filtering keeps every copy of a kept value and drops every copy of a rejected one |
| `Seqs.Join` | src/utils/raffle.ts:91-101 | Joining no parts gives the empty text; otherwise the text starts with the first part |
| `Seqs.SplitJoin` | src/utils/raffle.ts:91-101 | Splitting at the separator undoes `join` when no part contains the separator |
| `Contestants.ByDepartment` | src/utils/raffle.ts:10-12 | The result is exactly the contestants of the given department, in list order, each as often as it occurs in the list |
| `Contestants.Available` | src/utils/raffle.ts:19 | The available pool is exactly the pool members whose names are not excluded, in pool order |
| `Contestants.AvailableCounts` | src/utils/raffle.ts:19 | The available pool keeps every copy of an entry whose name is not excluded and no copy of one whose name is |
| `Contestants.AvailableKeepsUniqueNames` | src/utils/raffle.ts:19 | If the pool's names are distinct, so are the available pool's |
| `Contestants.AvailableIgnoresForeignName` | src/utils/raffle.ts:19 | Excluding a name that no pool member has leaves the available pool unchanged |
| `Contestants.RemoveName` | src/utils/raffle.ts:52 | The remaining pool after a removal is exactly the previous pool minus the entries with that name, in order |
| `Contestants.RemoveNameCounts` | src/utils/raffle.ts:52 | Removal keeps every copy of an entry with another name and no copy of an entry with that name |
| `Contestants.RemoveNameDeletesAt` | src/utils/raffle.ts:52 | With distinct names, removing the name at position k deletes exactly that one entry and keeps the order of the rest |
| `Contestants.RemoveNameKeepsUniqueNames` | src/utils/raffle.ts:52 | Removal keeps the names of a distinct-name pool distinct |
| `Contestants.RemoveNameShrinks` | src/utils/raffle.ts:52 | Removing a member's name always shrinks the remaining pool |
| `Contestants.PrependUniqueName` | src/utils/raffle.ts:49-52 | A winner whose name no later winner shares, put in front of winners with distinct names, keeps the names distinct |
| `Contestants.TicketTotal` | src/utils/raffle.ts:32 | No contestant holds more tickets than the pool's total |
| `Contestants.TicketTotalZero` | src/utils/raffle.ts:32 | The ticket total is 0 exactly when every contestant holds 0 tickets |
| `Contestants.PositiveTicketsTotal` | src/utils/raffle.ts:32 | If everyone holds a ticket, the total is at least the pool size |
| `Contestants.PrefixSumMonotone` | src/utils/raffle.ts:38-47 | Running ticket sums never decrease along the pool |
| `RandomSource.ScaledFloor` | src/utils/raffle.ts:82 | For u in [0, 1), `floor(u * n)` is a position in [0, n) when n > 0, and 0 when n is 0 |
| `WeightedDraw.TicketNumber` | src/utils/raffle.ts:35 | For u in [0, 1), the drawn ticket number lies in [1, total], and is 1 when the total is 0 |
| `WeightedDraw.PickFrom` | src/utils/raffle.ts:38-47 | The scan from position j returns the first position at or after j whose running sum reaches r, or none if no such position exists |
| `WeightedDraw.PickIndex` | src/utils/raffle.ts:38-47 | The pick is the first position whose running sum reaches r, or none if every running sum stays below r |
| `WeightedDraw.PickIndexSegment` | src/utils/raffle.ts:38-47 | For r >= 1, position i is picked if and only if PrefixSum(i) < r <= PrefixSum(i+1), so the pick is the unique segment that holds r |
| `WeightedDraw.PickIndexExists` | src/utils/raffle.ts:32-47 | A ticket number in [1, total] always has a holder |
| `WeightedDraw.PickedHoldsTickets` | src/utils/raffle.ts:41-46 | For r >= 1, the picked contestant holds at least one ticket |
| `WeightedDraw.SelectByTicket` | src/utils/raffle.ts:38-47 | The scan loop selects a contestant exactly when `PickIndex` finds a position, and then selects the contestant at that position |
| `WeightedDraw.WeightedRounds` | src/utils/raffle.ts:28-54 | Every winner of the rounds is a member of the remaining pool they start from |
| `WeightedDraw.WeightedWinners` | src/utils/raffle.ts:19-56 | A short available pool is returned unchanged, a count <= 0 gives no winners, and every winner is a pool member whose name is not excluded |
| `WeightedDraw.DrawWinnersWeighted` | src/utils/raffle.ts:14-57 | The loop, with its early exit on an empty pool and its skipped rounds, returns exactly `WeightedWinners` |
| `WeightedDraw.WeightedRoundsStep` | src/utils/raffle.ts:41-53 | One round either appends the picked contestant and continues on the pool without its name, or appends nobody and continues on the same pool |
| `WeightedDraw.DrawWinners` | src/utils/raffle.ts:58-65 | drawWinners returns exactly the weighted draw's result |
| `WeightedDraw.WeightedRoundsLength` | src/utils/raffle.ts:28-54 | There are never more winners than contestants or than rounds left |
| `WeightedDraw.WeightedRoundsUniqueNames` | src/utils/raffle.ts:49-53 | The winners' names are pairwise distinct, because each winner's name leaves the pool before the next round |
| `WeightedDraw.WeightedRoundsPositive` | src/utils/raffle.ts:35-47 | With random values in [0, 1), every winner holds at least one ticket |
| `WeightedDraw.ZeroTicketsNoWinners` | src/utils/raffle.ts:35-53 | If nobody holds a ticket, every round is skipped and nobody wins |
| `WeightedDraw.WeightedRoundsCount` | src/utils/raffle.ts:28-54 | With distinct names, positive tickets and random values in [0, 1), every round has a winner, so the rounds give exactly that many winners |
| `WeightedDraw.WeightedWinnersDistinct` | src/utils/raffle.ts:19-52 | The winners' names are distinct whenever the available pool's names are, and always when the available pool covers the request |
| `WeightedDraw.WeightedWinnersAtMost` | src/utils/raffle.ts:21-54 | There are never more winners than available contestants, nor more than requested when the pool covers the request |
| `WeightedDraw.WeightedWinnersCardinality` | src/utils/raffle.ts:28-54 | With distinct names and positive tickets in the available pool and random values in [0, 1), an available pool that covers a request of count >= 0 yields exactly count winners; excluded entries may repeat names or hold 0 tickets |
| `WeightedDraw.WeightedWinnersForeignExclusion` | src/utils/raffle.ts:19 | Excluding a name that no pool member has does not change the draw |
| `WeightedDraw.DuplicateNamesYieldFewer` | src/utils/raffle.ts:49-52 | Two entries named "A" with two winners requested yield one winner for every stream of random values in [0, 1), because removal by name drops both |
| `UniformDraw.DeleteAt` | src/utils/raffle.ts:83 | Splicing out one position removes exactly that element: one shorter, same multiset minus that element |
| `UniformDraw.UniformRounds` | src/utils/raffle.ts:81-84 | Every winner of the rounds is an entry of the copy they start from |
| `UniformDraw.UniformWinners` | src/utils/raffle.ts:72-86 | A short available pool is returned unchanged, a pool that covers a request of count >= 0 gives exactly count winners, and a count <= 0 gives no winners |
| `UniformDraw.DrawWinnersUnweighted` | src/utils/raffle.ts:67-87 | The loop returns exactly `UniformWinners` |
| `UniformDraw.UniformRoundsStep` | src/utils/raffle.ts:81-84 | One round appends the entry at `floor(u * length)`, a valid position, and continues on the copy with that entry spliced out |
| `UniformDraw.UniformRoundsCount` | src/utils/raffle.ts:81-84 | While the copy holds at least as many entries as rounds are left, every round has a winner, so the rounds give exactly that many winners |
| `UniformDraw.UniformRoundsFromPool` | src/utils/raffle.ts:81-84 | The winners are a sub-multiset of the pool: sampling is without replacement |
| `UniformDraw.DeleteAtUniqueNames` | src/utils/raffle.ts:83 | Splicing one entry out of a copy with distinct names keeps them distinct, and no remaining entry shares the spliced entry's name |
| `UniformDraw.UniformRoundsUniqueNames` | src/utils/raffle.ts:81-84 | With distinct names in the pool, the winners' names are distinct |
| `UniformDraw.UniformWinnersFromAvailable` | src/utils/raffle.ts:72-84 | The winners are a sub-multiset of the available pool, and each is a pool member whose name is not excluded |
| `UniformDraw.UniformWinnersDistinct` | src/utils/raffle.ts:72-84 | With distinct names in the available pool, the winners' names are distinct |
| `CsvExport.DrawTypeLabel` | src/utils/raffle.ts:98 | The label is "70% Discovery" if and only if the draw type is "discovery-70", and "80% Discovery" otherwise |
| `CsvExport.Decimal` | src/utils/raffle.ts:97 | The ticket column is a non-empty string of decimal digits with no leading zero |
| `CsvExport.DecimalRoundTrip` | src/utils/raffle.ts:97 | Reading the ticket column back gives the ticket count |
| `CsvExport.RowFields` | src/utils/raffle.ts:93-100 | A row has one field per header column |
| `CsvExport.Rows` | src/utils/raffle.ts:93-100 | There is one line per winner |
| `CsvExport.CsvContent` | src/utils/raffle.ts:90-101 | The content starts with the header line, and with no winners it is the header line alone |
| `CsvExport.CsvRowRoundTrip` | src/utils/raffle.ts:93-100 | A row of plain fields has no line break and splits at ',' back into name, department, supervisor, tickets, draw-type label and date; the ticket field parses back to the count |
| `CsvExport.CsvHeaderRoundTrip` | src/utils/raffle.ts:90-92 | The header line splits at ',' into the six column names |
| `CsvExport.PlainLine` | src/utils/raffle.ts:92-100 | A comma-joined line of fields free of ',' and '\n' holds no line break and splits at ',' back into its fields |
| `CsvExport.RowNoBreak` | src/utils/raffle.ts:93-100 | A winner whose name, department, supervisor and date hold no '\n' gets a row with no line break, whatever commas they hold |
| `CsvExport.CsvLines` | src/utils/raffle.ts:90-101 | When no winner's name, department, supervisor or date holds a '\n' (commas allowed), the content splits at '\n' into the header line followed by one line per winner, in winner order |
| `CsvExport.SplitLines` | src/utils/raffle.ts:91-101 | A first line followed by further lines, none holding '\n', joined with '\n' splits back into those lines |

## Left out

- `getAllContestants` (src/utils/raffle.ts:5-8) reads the bundled contestant JSON. `ByDepartment` takes the loaded contestant list as a parameter instead of a draw type.
- `Math.random()` (lines 35 and 82) is an injected stream of exact reals. Floating-point rounding of `Math.random() * n` is not modelled.
- The statistical claims are not modelled: weighted win frequencies converging to `tickets / total`, and the uniform variant being unbiased. They are about probability distributions, which this deterministic model does not express.
- Ticket counts are natural numbers. Negative or fractional ticket counts, which a JavaScript `number` allows, are not modelled.
- Contestants.TicketTotal: sums ticket counts exactly. JavaScript adds them as doubles, which round once a sum passes 2^53; the model does not capture that rounding.
- Contestants.PrefixSum: the running sum `currentSum` of the scan (line 42) is exact in the same way, with no rounding past 2^53.
- CsvExport.Decimal: writes every digit of the ticket count. JavaScript's number-to-string conversion switches to exponent notation from 10^21 (`1e+21`), which the model does not produce.
- `count` is an integer. A fractional count, which would run one extra round, is not modelled.
- `excludeWinners` has no default value here. Callers pass `[]` where the source's default would apply.
- Browser I/O in `exportToCSV` is not part of this model: the `Blob`, the object URL and the anchor download (lines 103-109). Only the text content is modelled.
- The draw date column is the text that `toLocaleDateString` would produce. It is taken as an opaque string, because its format depends on the locale.
- CSV quoting is absent in the source and in the model. The field round trips (`CsvRowRoundTrip`, `PlainLine`) assume that the name, department, supervisor and date contain no ',' and no line break. The line structure (`CsvLines`) only assumes that they contain no line break.
- src/utils/storage.ts is not part of this model. It covers `localStorage`, the remote store with its local fallback, and id generation.
- The React pages are not part of this model. This includes the caller in src/pages/Raffle.tsx, which clamps `count` to the eligible pool size before drawing.
