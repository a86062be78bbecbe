# MatchUP nomination ranking, modelled in Dafny

MatchUP is a small Streamlit page. It tallies crowd-submitted nominations of
"matching pairs" from a spreadsheet into a leaderboard of the most nominated
pairs. Each spreadsheet row names two people, with an ID and a display name
for each, plus a free-text reason. `procesar_ranking` (app.py) turns those rows
into a ranking:

- it trims the two IDs and the two names of each row;
- it orders the two `(id, name)` sides by ID;
- it builds the pair key `idLo-idHi` and the label `nameLo & nameHi`;
- it skips every row whose cells cannot be read;
- it counts the records per `(key, label)` group;
- it sorts the groups by count, most voted first.

The page then shows the total, the leader and its votes, a top-10 table whose
progress bars are scaled to the largest count, and a case-insensitive search
over the labels.

The project has four modules:

- `Wrappers` (wrappers.dfy): `Option`.
- `Text` (text.dfy): Python's `str.strip()`, Python's code-point order on
  strings (`LexLe`; Dafny's own `<` on sequences means "proper prefix", so it
  cannot be used), ASCII lower-casing and literal substring search.
- `PairRanking` (ranking.dfy): the row pass as a method with a loop
  (`ProcessRanking`), proved against the pure functions `ValidMatches`, `Group`
  and `SortByVotes`. The predicate `IsRankingOf` states what a ranking is, for
  any order of equally voted entries.
- `Dashboard` (dashboard.dfy): the leader metrics, the top-10 table, the bar
  bound and the search.

Two points of the behaviour are easy to get wrong:

- **Grouping.** An entry is not labelled by the first row seen for its key.
  The code groups on the pair `(Pareja_ID, Pareja)`, so two rows with the
  same IDs but differently spelled names become two entries. The model does
  the same.
- **Ties.** The order of entries with equal votes is open. The code uses
  pandas' default sort, which is not stable. The model's `SortByVotes` picks
  one order. Everything proved about it holds for any tie order, through
  `IsRankingOf` and `RankingUnique`.

## Model

| member | source | states |
|---|---|---|
| Text.SkipForward | app.py:87-90 | the forward scan of `strip()` passes only whitespace and stops at the first character that is not whitespace, or at the end |
| Text.SkipBackward | app.py:87-90 | the backward scan passes only whitespace and stops just after the last character that is not whitespace, never below where the forward scan stopped |
| Text.Strip | app.py:87-90 | `strip()` over the whitespace set `IsSpace`: the stripped text neither starts nor ends with whitespace |
| Text.StripShape | app.py:87-90 | the stripped text is an infix of the cell text with only whitespace before and after it |
| Text.StripOf | app.py:87-90 | text without whitespace at its ends, padded with any whitespace on either side, strips back to exactly that text |
| Text.StripPadded | app.py:87-90 | whitespace added on either side of a cell does not change its stripped text |
| Text.StripUnpadded | app.py:87-90 | text without whitespace at its ends is left as it is |
| Text.LexLeTotal | app.py:94 | `LexLe`, Python's `<=` on `str`: any two IDs are comparable under the code-point order used by `sorted` |
| Text.LexLeAntisymmetric | app.py:94 | two IDs each ≤ the other are equal |
| Text.LexLeTransitive | app.py:94 | the code-point order on IDs is transitive |
| Text.LexTrichotomy | app.py:94 | exactly one of `a < b`, `a == b`, `b < a` holds |
| Text.Lower | app.py:173 | case folding keeps the length, turns each ASCII capital into its small letter and leaves every other character alone |
| Text.ContainsAt | app.py:173 | `Contains`: the substring test holds exactly when the query occurs at some offset of the label |
| PairRanking.Extract | app.py:85-103 | a row yields a nomination exactly when all five cells (two IDs, two names, the reason) can be read; its sides are the stripped IDs and names, and the reason is kept unchanged |
| PairRanking.PaddingIgnored | app.py:87-90 | whitespace added around any of the IDs and names, each cell padded in its own way, does not change what a row yields |
| PairRanking.PaddedIdExample | app.py:87-96 | a row with ID " 1" yields the same nomination as the same row with ID "1", hence the same key |
| PairRanking.OrderedSorts | app.py:94 | `Ordered` is the stable two-element sort by ID: the first ID is ≤ the second, the result is the two sides in some order, and equal IDs keep row order |
| PairRanking.NormalizeKey | app.py:94-97 | `Normalize`: the key is the two IDs in code-point order joined by "-", the label is the names in that same order joined by " & " (equal IDs keep row order), and the reason is carried along |
| PairRanking.NormalizeSymmetric | app.py:94-97 | for distinct IDs, (A, B) and (B, A) give the identical key and label |
| PairRanking.KeyOfIdSet | app.py:94-96 | the key depends only on the unordered set of the two IDs |
| PairRanking.KeyCollision | app.py:96 | the key is not injective: IDs ("a-b", "c") and ("a", "b-c") give the same key |
| PairRanking.ValidMatches | app.py:84-105 | `match_data` holds at most one record per row; which records, in which order, is stated by `RecordsAreNormalisedValidRows` |
| PairRanking.RecordsAreNormalisedValidRows | app.py:84-105 | `match_data` holds, in row order, exactly one record per valid row: the normalised nomination of that row, and nothing for a skipped row |
| PairRanking.OnlyValid | app.py:84-105 | the valid rows are the rows whose extraction succeeds, each as many times as it occurs among the rows, in row order |
| PairRanking.ValidMatchesOfValidRows | app.py:84-105 | skipping a malformed row does not abort the pass: the records equal those of the valid rows alone, one per valid row |
| PairRanking.ProcessRanking | app.py:77-116 | the loop builds `match_data`, and the result is the grouped and sorted ranking: most voted first, each (key, label) group once with its record count, and votes summing to the number of valid rows |
| PairRanking.CountOfMember | app.py:113 | `Count`, the size of one group: a group has a nonzero count exactly when some record falls in it |
| PairRanking.VotesOfMember | app.py:113 | in a list with no repeated group, an entry's votes are the votes recorded for its group |
| PairRanking.TallyPairs | app.py:113 | `Tally`: counting one more record adds its group if it is new and keeps groups unique |
| PairRanking.TallyVotes | app.py:113 | counting one more record adds one vote to its own group and none to any other |
| PairRanking.TallyTotal | app.py:113 | counting one more record keeps every group's votes positive and adds one to the total |
| PairRanking.GroupPairs | app.py:113 | grouping lists each group of the records exactly once and no other group |
| PairRanking.GroupVotes | app.py:113 | each group's votes equal the number of its records |
| PairRanking.GroupTotal | app.py:113 | every group has at least one vote and the votes sum to the number of records |
| PairRanking.GroupFacts | app.py:113 | `Group`, the `groupby(...).size()` table: grouping gives each group of the records exactly once, with votes equal to its record count (at least 1), and the votes sum to the number of records |
| PairRanking.InsertPermutes | app.py:114 | `Insert`: inserting an entry adds it to the multiset of entries and its votes to the total |
| PairRanking.InsertOrdered | app.py:114 | inserting into a list sorted most voted first keeps it sorted |
| PairRanking.InsertDistinct | app.py:114 | inserting an entry of a new group keeps groups unique |
| PairRanking.SortFacts | app.py:114 | `SortByVotes`: sorting by votes gives a permutation, in non-increasing vote order, with the same total |
| PairRanking.SortDistinct | app.py:114 | sorting never repeats a group |
| PairRanking.Ranking | app.py:77-116 | the ranking holds exactly the groups of the valid rows' records, as a permutation, sorted most voted first |
| PairRanking.SortedGroupsRank | app.py:113-114 | grouping then sorting the records gives a ranking of them, whose votes sum to the number of records |
| PairRanking.RankingCorrect | app.py:77-116 | the ranking of the rows is a ranking of the valid rows' records, and its votes sum to the number of valid rows |
| PairRanking.RankingUnique | app.py:113-114 | two rankings of the same records hold the same entries, so only the order among equal vote counts is open |
| PairRanking.RankingIgnoresMalformed | app.py:84-105 | ranking all rows equals ranking only the valid rows |
| PairRanking.EmptyRanking | app.py:79-110 | the ranking is empty exactly when no row is valid, including an empty sheet; this is an empty result, not an error |
| PairRanking.RankingOfTwoAlike | app.py:84-114 | two valid rows in one group give a single entry with two votes |
| PairRanking.SymmetricRowsMerge | app.py:94-114 | rows (A, B) and (B, A) with distinct IDs merge into one entry with two votes, whatever their reasons |
| PairRanking.RankingOfThree | app.py:84-114 | rows whose records are two of one group and one of another give two entries, the pair with two votes first |
| PairRanking.ThreeRowsExample | app.py:77-116 | rows (1 Ana, 2 Beto), (2 Beto, 1 Ana), (3 Cara, 4 Dan) rank as [("1-2", "Ana & Beto", 2), ("3-4", "Cara & Dan", 1)] |
| Dashboard.MaxVotes | app.py:161 | the bar bound is at least every entry's votes and equals some entry's votes |
| Dashboard.LeaderIsMax | app.py:140-141 | in a ranking sorted most voted first, the first entry carries the largest vote count |
| Dashboard.LeaderCountsMost | app.py:140-141 | no group of the records has more records than the first entry of the ranking has votes |
| Dashboard.Summarize | app.py:135-161 | metrics exist exactly when the ranking is not empty; the total is the sum of votes, the leader and its votes come from the first entry, and the bar bound is the largest vote count: at least every entry's votes and equal to some entry's votes |
| Dashboard.MetricsOfRows | app.py:135-161 | on a sheet's ranking, metrics appear exactly when some row is valid; the total is the number of valid rows; the leader's votes equal the bar bound and no group has more nominations |
| Dashboard.Head | app.py:154 | `head(n)` returns the first min(n, length) entries |
| Dashboard.HeadHoldsMostVoted | app.py:154 | no entry left out of the table has more votes than one shown |
| Dashboard.TopTable | app.py:153-154 | the table is the first min(10, length) entries of the ranking, sorted most voted first |
| Dashboard.Filter | app.py:173 | `LabelMatches` applied to each entry: the entries kept are exactly those whose label contains the query case-insensitively, in their original order |
| Dashboard.Search | app.py:172-173 | an empty query shows nothing; otherwise exactly the matching entries, as a subsequence of the ranking |
| Dashboard.SearchOrdered | app.py:172-173 | search results keep the ranking's most-voted-first order |
| Dashboard.SearchIgnoresCase | app.py:173 | two queries that differ only in ASCII letter case find the same entries |
| Dashboard.SearchExample | app.py:172-173 | searching "ANA" among "Ana & Beto" and "Cara & Dan" finds only the first; "zz" finds nothing |

## Left out

- Page configuration, CSS, titles, link button, spinner, table and
  progress-column rendering, and messages (app.py:7-56, 118-132, 137-138,
  143-153, 155-160, 162-171, 174-189). These are
  UI. The projection of the table to the `Pareja` and `Votos` columns is
  rendering too.
- Reading the sheet through the Google Sheets connection, and its
  one-hour cache (app.py:71-75). This is network I/O with a library-managed
  cache. The rows arrive as a parameter.
- The top-level handler that shows a connection error (app.py:184-186). This
  is I/O error plumbing.
- Cell values are taken as the text `str()` makes of them, for example "nan"
  for a blank cell. Python's formatting of numbers and other cell types is not
  modelled.
- A cell read that raises is modelled per cell as `None`. Which pandas
  conditions raise (such as a missing column) is not modelled.
- `strip()` removes only the ASCII characters for which Python's `isspace()`
  holds. Python also strips non-ASCII whitespace.
- Search folds ASCII letters only and matches the query as literal text.
  `str.contains` treats the query as a regular expression by default and is
  case-insensitive in Unicode. Regular-expression metacharacters are not modelled.
- The order of entries with equal vote counts is not modelled. pandas' default
  sort is unstable, so the source leaves it open. `SortByVotes` fixes one
  order, and the lemmas are stated so that they hold for any order.
- The order in which groups are discovered is not modelled. pandas' `groupby`
  lists groups sorted by key, while `Group` lists them by first appearance.
  After the vote sort, this order can only affect ties, which are open anyway.
- The reason text ("Historia") is carried in each record but never aggregated,
  as in the source.
