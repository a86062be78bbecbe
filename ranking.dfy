/** The nomination-ranking transform of `procesar_ranking` in app.py:
    read and trim the four fields of every row, order the two sides of a
    nomination by ID, build the pair key and the display label, skip the rows
    whose cells cannot be read, count the nominations per (key, display) group
    and sort the groups by their count, most voted first. */
module PairRanking {
  import opened Wrappers
  import opened Text

  /** One spreadsheet row as the row pass reads it: for each of the five
      columns, the text `str()` makes of the cell (a blank cell reads as the
      text "nan"), or None when reading that cell raises. */
  datatype RawRow = RawRow(
    idA: Option<string>,    // column "ID Ella"
    nameA: Option<string>,  // column "Nombre Ella"
    idB: Option<string>,    // column "ID El"
    nameB: Option<string>,  // column "Nombre El"
    reason: Option<string>) // column "Porque harian buena pareja?"

  /** One nominated person: trimmed ID and trimmed display name. */
  datatype Side = Side(id: string, name: string)

  /** A row whose five cells could all be read. */
  datatype Nomination = Nomination(a: Side, b: Side, reason: string)

  /** A normalised nomination, one record of `match_data`: the pair key
      ("Pareja_ID"), the display label ("Pareja") and the reason text
      ("Historia"), which is carried along but never aggregated. */
  datatype Match = Match(key: string, display: string, reason: string) {
    function Pair(): (string, string) { (key, display) }
  }

  /** One line of the ranking: a (key, display) group and its vote count ("Votos"). */
  datatype Entry = Entry(key: string, display: string, votes: nat) {
    function Pair(): (string, string) { (key, display) }
  }

  // ---------------------------------------------------------------------
  // Reading one row

  /** The field reads of one loop iteration: a row yields a nomination
      exactly when every cell it reads can be read; IDs and names are
      stripped of surrounding whitespace, the reason is taken as it is. */
  function Extract(row: RawRow): (r: Option<Nomination>)
    ensures r.Some? <==>
      row.idA.Some? && row.idB.Some? && row.nameA.Some? && row.nameB.Some? && row.reason.Some?
    ensures r.Some? ==> r.value.a == Side(Strip(row.idA.value), Strip(row.nameA.value))
    ensures r.Some? ==> r.value.b == Side(Strip(row.idB.value), Strip(row.nameB.value))
    ensures r.Some? ==> r.value.reason == row.reason.value
  {
    if row.idA.None? || row.idB.None? || row.nameA.None? || row.nameB.None? || row.reason.None? then None
    else Some(Nomination(
      Side(Strip(row.idA.value), Strip(row.nameA.value)),
      Side(Strip(row.idB.value), Strip(row.nameB.value)),
      row.reason.value))
  }

  /** Whitespace put before and after a cell's text. */
  datatype Pad = Pad(before: string, after: string)

  predicate Blank(p: Pad) {
    AllSpace(p.before) && AllSpace(p.after)
  }

  function PadCell(p: Pad, cell: Option<string>): Option<string> {
    match cell
    case None => None
    case Some(s) => Some(p.before + s + p.after)
  }

  /** The same row with whitespace added around each ID and name, each cell
      padded in its own way. */
  function PadRow(row: RawRow, idA: Pad, nameA: Pad, idB: Pad, nameB: Pad): RawRow {
    RawRow(PadCell(idA, row.idA), PadCell(nameA, row.nameA),
           PadCell(idB, row.idB), PadCell(nameB, row.nameB), row.reason)
  }

  /** Whitespace around IDs and names does not change what a row yields. */
  lemma PaddingIgnored(row: RawRow, idA: Pad, nameA: Pad, idB: Pad, nameB: Pad)
    requires Blank(idA) && Blank(nameA) && Blank(idB) && Blank(nameB)
    ensures Extract(PadRow(row, idA, nameA, idB, nameB)) == Extract(row)
  {
    PadCellIgnored(idA, row.idA);
    PadCellIgnored(nameA, row.nameA);
    PadCellIgnored(idB, row.idB);
    PadCellIgnored(nameB, row.nameB);
  }

  lemma PadCellIgnored(p: Pad, cell: Option<string>)
    requires Blank(p)
    ensures PadCell(p, cell).Some? == cell.Some?
    ensures cell.Some? ==> Strip(PadCell(p, cell).value) == Strip(cell.value)
  {
    if cell.Some? {
      StripPadded(p.before, cell.value, p.after);
    }
  }

  /** A leading space on one ID alone changes nothing: " 1" and "1" give
      the same nomination, hence the same key. */
  lemma PaddedIdExample(reason: string)
    ensures Extract(PlainRow(" 1", "Ana", "2", "Beto", reason)) == Extract(PlainRow("1", "Ana", "2", "Beto", reason))
  {
    var none := Pad("", "");
    var row := PlainRow("1", "Ana", "2", "Beto", reason);
    assert " " + "1" + "" == " 1";
    assert forall s: string :: "" + s + "" == s;
    assert PadRow(row, Pad(" ", ""), none, none, none) == PlainRow(" 1", "Ana", "2", "Beto", reason);
    PaddingIgnored(row, Pad(" ", ""), none, none, none);
  }

  // ---------------------------------------------------------------------
  // Normalising one nomination

  /** `sorted([s1, s2], key=id)`: the sort is stable, so the second side
      comes first only when its ID is strictly smaller. */
  function Ordered(s1: Side, s2: Side): (Side, Side) {
    if LexLt(s2.id, s1.id) then (s2, s1) else (s1, s2)
  }

  /** `Ordered` is a stable sort of two sides: the first ID is at most the
      second, the result holds the same two sides, and equal IDs keep
      their order. */
  lemma OrderedSorts(s1: Side, s2: Side)
    ensures LexLe(Ordered(s1, s2).0.id, Ordered(s1, s2).1.id)
    ensures Ordered(s1, s2) == (s1, s2) || Ordered(s1, s2) == (s2, s1)
    ensures s1.id == s2.id ==> Ordered(s1, s2) == (s1, s2)
  {
    LexLeTotal(s1.id, s2.id);
  }

  /** The pair key is the two IDs in code-point order joined by "-"; the
      display is the two names in that same order joined by " & ". */
  function Normalize(n: Nomination): Match {
    var (lo, hi) := Ordered(n.a, n.b);
    Match(lo.id + "-" + hi.id, lo.name + " & " + hi.name, n.reason)
  }

  /** The key joins the smaller ID, "-" and the larger ID; the display joins
      the matching names with " & "; the reason is carried along. */
  lemma NormalizeKey(n: Nomination)
    ensures Normalize(n).reason == n.reason
    ensures
      || (LexLe(n.a.id, n.b.id) && Normalize(n).key == n.a.id + "-" + n.b.id && Normalize(n).display == n.a.name + " & " + n.b.name)
      || (LexLt(n.b.id, n.a.id) && Normalize(n).key == n.b.id + "-" + n.a.id && Normalize(n).display == n.b.name + " & " + n.a.name)
  {
    OrderedSorts(n.a, n.b);
  }

  function Swap(n: Nomination): Nomination {
    Nomination(n.b, n.a, n.reason)
  }

  /** For distinct IDs, (A, B) and (B, A) give the same key and the same
      label. */
  lemma NormalizeSymmetric(n: Nomination)
    requires n.a.id != n.b.id
    ensures Normalize(Swap(n)) == Normalize(n)
  {
    LexTrichotomy(n.a.id, n.b.id);
  }

  /** The key depends on the unordered set of IDs only, whatever the names. */
  lemma KeyOfIdSet(n1: Nomination, n2: Nomination)
    requires {n1.a.id, n1.b.id} == {n2.a.id, n2.b.id}
    ensures Normalize(n1).key == Normalize(n2).key
  {
    var x, y := n1.a.id, n1.b.id;
    assert x in {n2.a.id, n2.b.id} && y in {n2.a.id, n2.b.id};
    assert n2.a.id in {x, y} && n2.b.id in {x, y};
    LexTrichotomy(x, y);
    LexTrichotomy(n2.a.id, n2.b.id);
  }

  /** The "-" separator makes the key ambiguous: two different ID pairs can
      share a key. */
  lemma KeyCollision()
    ensures Normalize(Nomination(Side("a-b", "P"), Side("c", "Q"), "")).key
         == Normalize(Nomination(Side("a", "P"), Side("b-c", "Q"), "")).key
  {
    assert LexLt("a-b", "c");
    assert LexLt("a", "b-c");
    assert "a-b" + "-" + "c" == "a" + "-" + "b-c";
  }

  // ---------------------------------------------------------------------
  // The row pass

  /** The `match_data` list: one normalised record per row that yields a
      nomination, in row order. */
  function ValidMatches(rows: seq<RawRow>): (ms: seq<Match>)
    ensures |ms| <= |rows|
  {
    if rows == [] then [] else ValidMatches(rows[..|rows| - 1]) + RecordsOf(rows[|rows| - 1])
  }

  /** What one row adds to `match_data`: its normalised record, or nothing
      when it is skipped. */
  function RecordsOf(row: RawRow): seq<Match> {
    match Extract(row)
    case None => []
    case Some(n) => [Normalize(n)]
  }

  /** `a` is `b` with some elements left out, the others kept in order. */
  predicate IsSubsequence<T(==)>(a: seq<T>, b: seq<T>) {
    if a == [] then true
    else if b == [] then false
    else if a[0] == b[0] then IsSubsequence(a[1..], b[1..])
    else IsSubsequence(a, b[1..])
  }

  /** Appending one element to both sides keeps a subsequence. */
  lemma {:induction false} SubsequenceSnoc<T>(a: seq<T>, b: seq<T>, x: T)
    requires IsSubsequence(a, b)
    ensures IsSubsequence(a + [x], b + [x])
  {
    if a == [] {
      SubsequenceOfLast(b, x);
      assert a + [x] == [x];
    } else if a[0] == b[0] {
      SubsequenceSnoc(a[1..], b[1..], x);
      assert (a + [x])[1..] == a[1..] + [x];
      assert (b + [x])[1..] == b[1..] + [x];
    } else {
      SubsequenceSnoc(a, b[1..], x);
      assert (b + [x])[1..] == b[1..] + [x];
    }
  }

  lemma {:induction false} SubsequenceOfLast<T>(b: seq<T>, x: T)
    ensures IsSubsequence([x], b + [x])
  {
    if b != [] && b[0] != x {
      SubsequenceOfLast(b[1..], x);
      assert (b + [x])[1..] == b[1..] + [x];
    } else if b != [] {
      assert [x][1..] == [];
    } else {
      assert b + [x] == [x];
    }
  }

  /** Appending one element to the longer side keeps a subsequence. */
  lemma {:induction false} SubsequenceExtend<T>(a: seq<T>, b: seq<T>, x: T)
    requires IsSubsequence(a, b)
    ensures IsSubsequence(a, b + [x])
  {
    if a != [] {
      assert (b + [x])[1..] == b[1..] + [x];
      if a[0] == b[0] {
        SubsequenceExtend(a[1..], b[1..], x);
      } else {
        SubsequenceExtend(a, b[1..], x);
      }
    }
  }

  /** What a row adds to `OnlyValid`: itself when it is valid. */
  function Kept(row: RawRow): seq<RawRow> {
    if Extract(row).Some? then [row] else []
  }

  /** One step of `OnlyValid`: keeping the last row exactly when it is valid
      keeps the count of every row right. */
  lemma KeptCounts(v: seq<RawRow>, init: seq<RawRow>, last: RawRow)
    requires forall row :: multiset(v)[row] == if Extract(row).Some? then multiset(init)[row] else 0
    ensures forall row :: multiset(v + Kept(last))[row] == if Extract(row).Some? then multiset(init + [last])[row] else 0
  {
    assert multiset(v + Kept(last)) == multiset(v) + multiset(Kept(last));
    assert multiset(init + [last]) == multiset(init) + multiset{last};
  }

  /** One step of `OnlyValid` keeps the row order. */
  lemma KeptOrder(v: seq<RawRow>, init: seq<RawRow>, last: RawRow)
    requires IsSubsequence(v, init)
    ensures IsSubsequence(v + Kept(last), init + [last])
  {
    if Extract(last).Some? {
      SubsequenceSnoc(v, init, last);
    } else {
      assert v + Kept(last) == v;
      SubsequenceExtend(v, init, last);
    }
  }

  /** The rows that yield a nomination: each as often as it occurs among the
      rows, none of the others, in row order. */
  function OnlyValid(rows: seq<RawRow>): (r: seq<RawRow>)
    ensures forall row :: row in r <==> row in rows && Extract(row).Some?
    ensures forall row :: multiset(r)[row] == if Extract(row).Some? then multiset(rows)[row] else 0
    ensures IsSubsequence(r, rows)
  {
    if rows == [] then []
    else
      var init, last := rows[..|rows| - 1], rows[|rows| - 1];
      assert rows == init + [last];
      KeptCounts(OnlyValid(init), init, last);
      KeptOrder(OnlyValid(init), init, last);
      OnlyValid(init) + Kept(last)
  }

  /** `ms` is `vs` with every row replaced by its normalised nomination:
      the records a filter-then-map over the valid rows `vs` gives. */
  predicate RecordsOfValid(vs: seq<RawRow>, ms: seq<Match>) {
    |ms| == |vs| && forall k :: 0 <= k < |vs| ==> Extract(vs[k]).Some? && ms[k] == Normalize(Extract(vs[k]).value)
  }

  /** A valid row and its normalised record extend the filter-then-map. */
  lemma RecordsOfValidSnoc(v: seq<RawRow>, m: seq<Match>, row: RawRow)
    requires RecordsOfValid(v, m) && Extract(row).Some?
    ensures RecordsOfValid(v + [row], m + [Normalize(Extract(row).value)])
  {
    var vs, ms := v + [row], m + [Normalize(Extract(row).value)];
    forall k | 0 <= k < |vs|
      ensures Extract(vs[k]).Some? && ms[k] == Normalize(Extract(vs[k]).value)
    {
      if k < |v| {
        assert vs[k] == v[k] && ms[k] == m[k];
      }
    }
  }

  /** `match_data` holds, in row order, one normalised record per valid row
      and nothing else. */
  lemma {:induction false} RecordsAreNormalisedValidRows(rows: seq<RawRow>)
    ensures RecordsOfValid(OnlyValid(rows), ValidMatches(rows))
  {
    if rows != [] {
      var init, last := rows[..|rows| - 1], rows[|rows| - 1];
      RecordsAreNormalisedValidRows(init);
      var v, m := OnlyValid(init), ValidMatches(init);
      assert OnlyValid(rows) == v + Kept(last);
      assert ValidMatches(rows) == m + RecordsOf(last);
      if Extract(last).Some? {
        RecordsOfValidSnoc(v, m, last);
      } else {
        assert Kept(last) == [] && RecordsOf(last) == [];
        assert v + [] == v && m + [] == m;
      }
    }
  }

  /** The row pass drops exactly the malformed rows: it builds the same
      list from the valid rows alone, one record per valid row. */
  lemma {:induction false} ValidMatchesOfValidRows(rows: seq<RawRow>)
    ensures ValidMatches(OnlyValid(rows)) == ValidMatches(rows)
    ensures |ValidMatches(rows)| == |OnlyValid(rows)|
  {
    if rows != [] {
      var init, last := rows[..|rows| - 1], rows[|rows| - 1];
      ValidMatchesOfValidRows(init);
      match Extract(last)
      case None =>
        assert OnlyValid(rows) == OnlyValid(init);
        assert ValidMatches(rows) == ValidMatches(init);
      case Some(n) =>
        var v := OnlyValid(init) + [last];
        assert OnlyValid(rows) == v;
        assert v[..|v| - 1] == OnlyValid(init);
        assert ValidMatches(v) == ValidMatches(OnlyValid(init)) + [Normalize(n)];
        assert ValidMatches(rows) == ValidMatches(init) + [Normalize(n)];
    }
  }

  /** `procesar_ranking`: an empty sheet gives an empty ranking; otherwise
      every row is read, a row whose cells cannot all be read is skipped,
      and the records of the others are grouped and sorted. */
  method ProcessRanking(rows: seq<RawRow>) returns (ranking: seq<Entry>)
    ensures ranking == Ranking(rows)
    ensures IsRankingOf(ValidMatches(rows), ranking)
    ensures TotalVotes(ranking) == |OnlyValid(rows)|
  {
    if |rows| == 0 {
      RankingCorrect(rows);
      return [];
    }
    var matches: seq<Match> := [];
    var i := 0;
    while i < |rows|
      invariant 0 <= i <= |rows|
      invariant matches == ValidMatches(rows[..i])
    {
      var row := rows[i];
      assert rows[..i + 1][..i] == rows[..i];
      i := i + 1;
      var nomination := Extract(row);
      if nomination.None? {
        continue;
      }
      matches := matches + [Normalize(nomination.value)];
    }
    assert rows[..i] == rows;
    RankingCorrect(rows);
    if matches == [] {
      return [];
    }
    ranking := SortByVotes(Group(matches));
  }

  // ---------------------------------------------------------------------
  // Grouping: `groupby(['Pareja_ID', 'Pareja']).size()`

  /** How many records fall in group `p`. */
  function Count(ms: seq<Match>, p: (string, string)): nat {
    if ms == [] then 0
    else Count(ms[..|ms| - 1], p) + if ms[|ms| - 1].Pair() == p then 1 else 0
  }

  function MatchPairs(ms: seq<Match>): set<(string, string)> {
    set m | m in ms :: m.Pair()
  }

  function PairsOf(es: seq<Entry>): set<(string, string)> {
    set x | x in es :: x.Pair()
  }

  /** The votes an entry list gives group `p`: those of its first entry for
      `p`, or 0. */
  function VotesOf(es: seq<Entry>, p: (string, string)): nat {
    if es == [] then 0
    else if es[0].Pair() == p then es[0].votes
    else VotesOf(es[1..], p)
  }

  function TotalVotes(es: seq<Entry>): nat {
    if es == [] then 0 else es[0].votes + TotalVotes(es[1..])
  }

  /** No group appears twice. */
  predicate Distinct(es: seq<Entry>) {
    forall i, j :: 0 <= i < j < |es| ==> es[i].Pair() != es[j].Pair()
  }

  /** Counts one more record: its group's entry goes up by one, or a new
      entry with one vote is added at the end. */
  function Tally(es: seq<Entry>, m: Match): seq<Entry> {
    if es == [] then [Entry(m.key, m.display, 1)]
    else if es[0].Pair() == m.Pair() then [es[0].(votes := es[0].votes + 1)] + es[1..]
    else [es[0]] + Tally(es[1..], m)
  }

  /** The groups of a record list with their sizes, in order of first
      appearance. */
  function Group(ms: seq<Match>): seq<Entry> {
    if ms == [] then [] else Tally(Group(ms[..|ms| - 1]), ms[|ms| - 1])
  }

  lemma {:induction false} CountOfMember(ms: seq<Match>, p: (string, string))
    ensures Count(ms, p) > 0 <==> p in MatchPairs(ms)
  {
    if ms != [] {
      var init, last := ms[..|ms| - 1], ms[|ms| - 1];
      CountOfMember(init, p);
      assert ms == init + [last];
      assert MatchPairs(ms) == MatchPairs(init) + {last.Pair()};
    }
  }

  lemma PairsOfCons(x: Entry, t: seq<Entry>)
    ensures PairsOf([x] + t) == {x.Pair()} + PairsOf(t)
  {
    assert forall y :: y in [x] + t <==> y == x || y in t;
  }

  lemma DistinctCons(x: Entry, t: seq<Entry>)
    requires Distinct(t) && x.Pair() !in PairsOf(t)
    ensures Distinct([x] + t)
  {
    var s := [x] + t;
    forall i, j | 0 <= i < j < |s|
      ensures s[i].Pair() != s[j].Pair()
    {
      assert s[j] == t[j - 1];
      if i > 0 {
        assert s[i] == t[i - 1];
      } else {
        assert s[j] in t;
      }
    }
  }

  lemma DistinctTail(es: seq<Entry>)
    requires Distinct(es) && es != []
    ensures Distinct(es[1..]) && es[0].Pair() !in PairsOf(es[1..])
  {
    var rest := es[1..];
    forall y | y in rest
      ensures y.Pair() != es[0].Pair()
    {
      var k :| 0 <= k < |rest| && rest[k] == y;
      assert es[k + 1] == y;
    }
    forall i, j | 0 <= i < j < |rest|
      ensures rest[i].Pair() != rest[j].Pair()
    {
      assert rest[i] == es[i + 1] && rest[j] == es[j + 1];
    }
  }

  lemma {:induction false} VotesOfMember(es: seq<Entry>, x: Entry)
    requires Distinct(es) && x in es
    ensures VotesOf(es, x.Pair()) == x.votes
  {
    if es[0] != x {
      DistinctTail(es);
      assert x in es[1..];
      assert x.Pair() in PairsOf(es[1..]);
      VotesOfMember(es[1..], x);
    }
  }

  /** Counting one more record adds its group if it is new, and never
      repeats a group. */
  lemma {:induction false} TallyPairs(es: seq<Entry>, m: Match)
    requires Distinct(es)
    ensures Distinct(Tally(es, m))
    ensures PairsOf(Tally(es, m)) == PairsOf(es) + {m.Pair()}
  {
    var t := Tally(es, m);
    if es == [] {
      assert t == [Entry(m.key, m.display, 1)] + [];
      PairsOfCons(Entry(m.key, m.display, 1), []);
    } else {
      var e0, rest := es[0], es[1..];
      DistinctTail(es);
      PairsOfCons(e0, rest);
      assert es == [e0] + rest;
      if e0.Pair() == m.Pair() {
        var e1 := e0.(votes := e0.votes + 1);
        assert t == [e1] + rest;
        PairsOfCons(e1, rest);
        DistinctCons(e1, rest);
      } else {
        TallyPairs(rest, m);
        assert t == [e0] + Tally(rest, m);
        PairsOfCons(e0, Tally(rest, m));
        DistinctCons(e0, Tally(rest, m));
      }
    }
  }

  /** Counting one more record adds one vote to its group and to no other. */
  lemma {:induction false} TallyVotes(es: seq<Entry>, m: Match, p: (string, string))
    ensures VotesOf(Tally(es, m), p) == VotesOf(es, p) + if p == m.Pair() then 1 else 0
  {
    if es != [] && es[0].Pair() != m.Pair() {
      TallyVotes(es[1..], m, p);
      assert Tally(es, m)[1..] == Tally(es[1..], m);
    }
  }

  /** Counting one more record keeps every entry's votes positive and adds
      one to the total. */
  lemma {:induction false} TallyTotal(es: seq<Entry>, m: Match)
    ensures (forall x :: x in es ==> x.votes >= 1) ==> forall x :: x in Tally(es, m) ==> x.votes >= 1
    ensures TotalVotes(Tally(es, m)) == TotalVotes(es) + 1
  {
    if es != [] && es[0].Pair() != m.Pair() {
      TallyTotal(es[1..], m);
      var t := Tally(es, m);
      assert t[1..] == Tally(es[1..], m);
      assert forall x :: x in t ==> x == es[0] || x in t[1..];
      assert forall x :: x in es[1..] ==> x in es;
    } else if es != [] {
      var t := Tally(es, m);
      assert t[1..] == es[1..];
      assert forall x :: x in t ==> x == t[0] || x in es[1..];
      assert forall x :: x in es[1..] ==> x in es;
    }
  }

  lemma MatchPairsSnoc(ms: seq<Match>)
    requires ms != []
    ensures MatchPairs(ms) == MatchPairs(ms[..|ms| - 1]) + {ms[|ms| - 1].Pair()}
  {
    assert ms == ms[..|ms| - 1] + [ms[|ms| - 1]];
  }

  /** Grouping gives each group of the records exactly once. */
  lemma {:induction false} GroupPairs(ms: seq<Match>)
    ensures Distinct(Group(ms))
    ensures PairsOf(Group(ms)) == MatchPairs(ms)
  {
    if ms == [] {
      assert PairsOf([]) == {};
    } else {
      GroupPairs(ms[..|ms| - 1]);
      TallyPairs(Group(ms[..|ms| - 1]), ms[|ms| - 1]);
      MatchPairsSnoc(ms);
    }
  }

  /** Each group gets as many votes as it has records. */
  lemma {:induction false} GroupVotes(ms: seq<Match>, p: (string, string))
    ensures VotesOf(Group(ms), p) == Count(ms, p)
  {
    if ms != [] {
      GroupVotes(ms[..|ms| - 1], p);
      TallyVotes(Group(ms[..|ms| - 1]), ms[|ms| - 1], p);
    }
  }

  /** Every group has at least one vote, and the votes add up to the number
      of records. */
  lemma {:induction false} GroupTotal(ms: seq<Match>)
    ensures forall x :: x in Group(ms) ==> x.votes >= 1
    ensures TotalVotes(Group(ms)) == |ms|
  {
    if ms != [] {
      GroupTotal(ms[..|ms| - 1]);
      TallyTotal(Group(ms[..|ms| - 1]), ms[|ms| - 1]);
    }
  }

  /** Grouping gives one entry per group of the records, no group twice,
      each with as many votes as the group has records; the votes add up to
      the number of records. */
  lemma GroupFacts(ms: seq<Match>)
    ensures Distinct(Group(ms))
    ensures PairsOf(Group(ms)) == MatchPairs(ms)
    ensures forall x :: x in Group(ms) ==> x.votes >= 1
    ensures forall p :: VotesOf(Group(ms), p) == Count(ms, p)
    ensures TotalVotes(Group(ms)) == |ms|
  {
    GroupPairs(ms);
    GroupTotal(ms);
    forall p ensures VotesOf(Group(ms), p) == Count(ms, p) {
      GroupVotes(ms, p);
    }
  }

  // ---------------------------------------------------------------------
  // Sorting: `sort_values(by='Votos', ascending=False)`

  predicate NonIncreasing(es: seq<Entry>) {
    forall i, j :: 0 <= i < j < |es| ==> es[i].votes >= es[j].votes
  }

  function Insert(e: Entry, s: seq<Entry>): seq<Entry> {
    if s == [] || e.votes >= s[0].votes then [e] + s
    else [s[0]] + Insert(e, s[1..])
  }

  /** Orders the entries by votes, most voted first. Entries with equal
      votes come out in one fixed order; the source leaves that order open. */
  function SortByVotes(es: seq<Entry>): seq<Entry> {
    if es == [] then [] else Insert(es[0], SortByVotes(es[1..]))
  }

  lemma NonIncreasingCons(x: Entry, t: seq<Entry>)
    requires NonIncreasing(t)
    requires forall y :: y in t ==> x.votes >= y.votes
    ensures NonIncreasing([x] + t)
  {
    var s := [x] + t;
    forall i, j | 0 <= i < j < |s|
      ensures s[i].votes >= s[j].votes
    {
      assert s[j] == t[j - 1];
      if i > 0 {
        assert s[i] == t[i - 1];
      } else {
        assert s[j] in t;
      }
    }
  }

  lemma {:induction false} InsertPermutes(e: Entry, s: seq<Entry>)
    ensures multiset(Insert(e, s)) == multiset(s) + multiset{e}
    ensures TotalVotes(Insert(e, s)) == e.votes + TotalVotes(s)
  {
    if s != [] && e.votes < s[0].votes {
      assert s == [s[0]] + s[1..];
      InsertPermutes(e, s[1..]);
    }
  }

  /** The entries of `Insert(e, s)` are `e` and those of `s`. */
  lemma InsertMembers(e: Entry, s: seq<Entry>)
    ensures forall y :: y in Insert(e, s) <==> y == e || y in s
  {
    InsertPermutes(e, s);
    var t := Insert(e, s);
    forall y
      ensures y in t <==> y == e || y in s
    {
      assert y in t <==> y in multiset(t);
      assert y in s <==> y in multiset(s);
    }
  }

  lemma NonIncreasingTail(s: seq<Entry>)
    requires NonIncreasing(s) && s != []
    ensures NonIncreasing(s[1..])
    ensures forall y :: y in s ==> s[0].votes >= y.votes
  {
    var rest := s[1..];
    forall i, j | 0 <= i < j < |rest|
      ensures rest[i].votes >= rest[j].votes
    {
      assert rest[i] == s[i + 1] && rest[j] == s[j + 1];
    }
    forall y | y in s
      ensures s[0].votes >= y.votes
    {
      var k :| 0 <= k < |s| && s[k] == y;
    }
  }

  lemma {:induction false} InsertOrdered(e: Entry, s: seq<Entry>)
    requires NonIncreasing(s)
    ensures NonIncreasing(Insert(e, s))
  {
    if s == [] {
      NonIncreasingCons(e, s);
    } else if e.votes >= s[0].votes {
      NonIncreasingTail(s);
      NonIncreasingCons(e, s);
    } else {
      NonIncreasingTail(s);
      assert s == [s[0]] + s[1..];
      InsertOrdered(e, s[1..]);
      InsertMembers(e, s[1..]);
      NonIncreasingCons(s[0], Insert(e, s[1..]));
    }
  }

  lemma {:induction false} InsertDistinct(e: Entry, s: seq<Entry>)
    requires Distinct(s) && e.Pair() !in PairsOf(s)
    ensures Distinct(Insert(e, s))
  {
    if s == [] || e.votes >= s[0].votes {
      DistinctCons(e, s);
    } else {
      var s0, rest := s[0], s[1..];
      assert s == [s0] + rest;
      DistinctTail(s);
      PairsOfCons(s0, rest);
      InsertDistinct(e, rest);
      var t := Insert(e, rest);
      InsertMembers(e, rest);
      assert PairsOf(t) == PairsOf(rest) + {e.Pair()};
      DistinctCons(s0, t);
    }
  }

  /** Sorting keeps the entries (a permutation), hence their total, and puts
      them in non-increasing vote order. */
  lemma {:induction false} SortFacts(es: seq<Entry>)
    ensures multiset(SortByVotes(es)) == multiset(es)
    ensures NonIncreasing(SortByVotes(es))
    ensures TotalVotes(SortByVotes(es)) == TotalVotes(es)
  {
    if es != [] {
      var rest := es[1..];
      assert es == [es[0]] + rest;
      SortFacts(rest);
      InsertPermutes(es[0], SortByVotes(rest));
      InsertOrdered(es[0], SortByVotes(rest));
    }
  }

  /** Sorting never puts a group twice. */
  lemma {:induction false} SortDistinct(es: seq<Entry>)
    requires Distinct(es)
    ensures Distinct(SortByVotes(es))
  {
    if es != [] {
      var rest := es[1..];
      DistinctTail(es);
      SortDistinct(rest);
      SortFacts(rest);
      var sr := SortByVotes(rest);
      forall y
        ensures y in sr <==> y in rest
      {
        assert y in sr <==> y in multiset(sr);
        assert y in rest <==> y in multiset(rest);
      }
      assert PairsOf(sr) == PairsOf(rest);
      InsertDistinct(es[0], sr);
    }
  }

  // ---------------------------------------------------------------------
  // The ranking

  /** The value `procesar_ranking` returns, as a function of the rows. */
  function Ranking(rows: seq<RawRow>): (r: seq<Entry>)
    ensures multiset(r) == multiset(Group(ValidMatches(rows)))
    ensures NonIncreasing(r)
  {
    SortFacts(Group(ValidMatches(rows)));
    SortByVotes(Group(ValidMatches(rows)))
  }

  /** What makes `r` a ranking of the records `ms`: most voted first, each
      (key, display) group of the records exactly once, with as many votes as
      it has records, and no other entry. */
  ghost predicate IsRankingOf(ms: seq<Match>, r: seq<Entry>) {
    && NonIncreasing(r)
    && Distinct(r)
    && (forall x :: x in r ==> x.votes >= 1 && x.votes == Count(ms, x.Pair()))
    && (forall m :: m in ms ==> m.Pair() in PairsOf(r))
  }

  lemma SortedGroupsRank(ms: seq<Match>)
    ensures IsRankingOf(ms, SortByVotes(Group(ms)))
    ensures TotalVotes(SortByVotes(Group(ms))) == |ms|
  {
    var g := Group(ms);
    var r := SortByVotes(g);
    GroupFacts(ms);
    SortFacts(g);
    SortDistinct(g);
    forall x | x in r
      ensures x.votes >= 1 && x.votes == Count(ms, x.Pair())
    {
      assert x in multiset(r);
      assert x in g;
      VotesOfMember(g, x);
    }
    forall m | m in ms
      ensures m.Pair() in PairsOf(r)
    {
      assert m.Pair() in MatchPairs(ms);
      var y :| y in g && y.Pair() == m.Pair();
      assert y in multiset(g);
      assert y in r;
    }
  }

  /** The ranking of the rows is a ranking of the valid rows' records, and
      its votes add up to the number of valid rows. */
  lemma RankingCorrect(rows: seq<RawRow>)
    ensures IsRankingOf(ValidMatches(rows), Ranking(rows))
    ensures TotalVotes(Ranking(rows)) == |OnlyValid(rows)|
  {
    SortedGroupsRank(ValidMatches(rows));
    ValidMatchesOfValidRows(rows);
  }

  /** A ranking is determined by its records up to the order of entries
      with equal votes: any two rankings hold the same entries. */
  lemma RankingUnique(ms: seq<Match>, r1: seq<Entry>, r2: seq<Entry>)
    requires IsRankingOf(ms, r1) && IsRankingOf(ms, r2)
    ensures forall x :: x in r1 <==> x in r2
  {
    forall x | x in r1 ensures x in r2 {
      RankingEntryIn(ms, r1, r2, x);
    }
    forall x | x in r2 ensures x in r1 {
      RankingEntryIn(ms, r2, r1, x);
    }
  }

  lemma RankingEntryIn(ms: seq<Match>, r1: seq<Entry>, r2: seq<Entry>, x: Entry)
    requires IsRankingOf(ms, r1) && IsRankingOf(ms, r2) && x in r1
    ensures x in r2
  {
    CountOfMember(ms, x.Pair());
    var m :| m in ms && m.Pair() == x.Pair();
    assert x.Pair() in PairsOf(r2);
    var y :| y in r2 && y.Pair() == x.Pair();
    assert y == x;
  }

  /** Malformed rows are dropped without changing the result: ranking all
      rows equals ranking the valid rows alone. */
  lemma RankingIgnoresMalformed(rows: seq<RawRow>)
    ensures Ranking(OnlyValid(rows)) == Ranking(rows)
  {
    ValidMatchesOfValidRows(rows);
  }

  /** The ranking is empty exactly when no row is valid, so in particular
      for an empty sheet. */
  lemma EmptyRanking(rows: seq<RawRow>)
    ensures Ranking(rows) == [] <==> OnlyValid(rows) == []
  {
    RankingCorrect(rows);
    if OnlyValid(rows) == [] {
      ValidMatchesOfValidRows(rows);
      assert ValidMatches(rows) == [];
    }
  }

  lemma ValidMatchesSnoc(rows: seq<RawRow>, row: RawRow)
    ensures ValidMatches(rows + [row]) == ValidMatches(rows) + RecordsOf(row)
  {
    assert (rows + [row])[..|rows|] == rows;
  }

  lemma RecordOfValid(row: RawRow)
    requires Extract(row).Some?
    ensures RecordsOf(row) == [Normalize(Extract(row).value)]
  {
  }

  lemma ValidMatchesOfTwo(row1: RawRow, row2: RawRow)
    ensures ValidMatches([row1, row2]) == RecordsOf(row1) + RecordsOf(row2)
  {
    ValidMatchesSnoc([], row1);
    assert [] + [row1] == [row1];
    ValidMatchesSnoc([row1], row2);
    assert [row1] + [row2] == [row1, row2];
  }

  lemma GroupOfTwoAlike(m1: Match, m2: Match)
    requires m1.Pair() == m2.Pair()
    ensures Group([m1, m2]) == [Entry(m1.key, m1.display, 2)]
  {
    assert [m1, m2][..1] == [m1];
    assert [m1][..0] == [];
    assert Group([m1]) == [Entry(m1.key, m1.display, 1)];
  }

  /** Two valid rows that fall in the same group give a one-entry ranking
      with two votes. */
  lemma RankingOfTwoAlike(row1: RawRow, row2: RawRow)
    requires Extract(row1).Some? && Extract(row2).Some?
    requires Normalize(Extract(row1).value).Pair() == Normalize(Extract(row2).value).Pair()
    ensures Ranking([row1, row2]) == [Entry(Normalize(Extract(row1).value).key, Normalize(Extract(row1).value).display, 2)]
  {
    var m1, m2 := Normalize(Extract(row1).value), Normalize(Extract(row2).value);
    ValidMatchesOfTwo(row1, row2);
    RecordOfValid(row1);
    RecordOfValid(row2);
    assert ValidMatches([row1, row2]) == [m1, m2];
    GroupOfTwoAlike(m1, m2);
    var e := Entry(m1.key, m1.display, 2);
    assert SortByVotes([e]) == Insert(e, []);
  }

  /** A nomination of (A, B) and one of (B, A) with distinct IDs end up in
      one entry with two votes, whatever their reasons. */
  lemma SymmetricRowsMerge(row1: RawRow, row2: RawRow)
    requires Extract(row1).Some? && Extract(row2).Some?
    requires Extract(row1).value.a.id != Extract(row1).value.b.id
    requires Extract(row2).value.a == Extract(row1).value.b
    requires Extract(row2).value.b == Extract(row1).value.a
    ensures Ranking([row1, row2]) == [Entry(Normalize(Extract(row1).value).key, Normalize(Extract(row1).value).display, 2)]
  {
    var n1, n2 := Extract(row1).value, Extract(row2).value;
    NormalizeSymmetric(n1);
    assert n2 == Swap(n1).(reason := n2.reason);
    assert Normalize(n2).Pair() == Normalize(Swap(n1)).Pair();
    RankingOfTwoAlike(row1, row2);
  }

  function PlainRow(idA: string, nameA: string, idB: string, nameB: string, reason: string): RawRow {
    RawRow(Some(idA), Some(nameA), Some(idB), Some(nameB), Some(reason))
  }

  lemma PlainRowExtract(idA: string, nameA: string, idB: string, nameB: string, reason: string)
    requires idA != [] && Unpadded(idA)
    requires idB != [] && Unpadded(idB)
    requires nameA != [] && Unpadded(nameA)
    requires nameB != [] && Unpadded(nameB)
    ensures Extract(PlainRow(idA, nameA, idB, nameB, reason)) == Some(Nomination(Side(idA, nameA), Side(idB, nameB), reason))
  {
    StripUnpadded(idA); StripUnpadded(idB); StripUnpadded(nameA); StripUnpadded(nameB);
  }

  lemma ValidMatchesOfThree(r1: RawRow, r2: RawRow, r3: RawRow)
    ensures ValidMatches([r1, r2, r3]) == RecordsOf(r1) + RecordsOf(r2) + RecordsOf(r3)
  {
    ValidMatchesOfTwo(r1, r2);
    ValidMatchesSnoc([r1, r2], r3);
    assert [r1, r2] + [r3] == [r1, r2, r3];
  }

  /** Three rows whose records are two of one group and one of another give
      a two-entry ranking, the pair with two votes first. */
  lemma RankingOfThree(r1: RawRow, r2: RawRow, r3: RawRow, m1: Match, m2: Match, m3: Match)
    requires RecordsOf(r1) == [m1] && RecordsOf(r2) == [m2] && RecordsOf(r3) == [m3]
    requires m1.Pair() == m2.Pair() && m3.Pair() != m1.Pair()
    ensures Ranking([r1, r2, r3]) == [Entry(m1.key, m1.display, 2), Entry(m3.key, m3.display, 1)]
  {
    ValidMatchesOfThree(r1, r2, r3);
    assert [m1] + [m2] + [m3] == [m1, m2, m3];
    SortedGroupsOfThree(m1, m2, m3);
  }

  lemma SortedGroupsOfThree(m1: Match, m2: Match, m3: Match)
    requires m1.Pair() == m2.Pair() && m3.Pair() != m1.Pair()
    ensures SortByVotes(Group([m1, m2, m3])) == [Entry(m1.key, m1.display, 2), Entry(m3.key, m3.display, 1)]
  {
    GroupOfThree(m1, m2, m3);
    var e1, e2 := Entry(m1.key, m1.display, 2), Entry(m3.key, m3.display, 1);
    assert SortByVotes([e2]) == [e2];
    assert [e1, e2][1..] == [e2];
    assert SortByVotes([e1, e2]) == Insert(e1, [e2]);
  }

  lemma NormalizeExample(a: string, na: string, b: string, nb: string, reason: string)
    requires LexLt(a, b)
    ensures Normalize(Nomination(Side(a, na), Side(b, nb), reason)) == Match(a + "-" + b, na + " & " + nb, reason)
    ensures Normalize(Nomination(Side(b, nb), Side(a, na), reason)) == Match(a + "-" + b, na + " & " + nb, reason)
  {
    LexTrichotomy(a, b);
  }

  lemma ExampleRecord(a: string, na: string, b: string, nb: string, reason: string, key: string, display: string)
    requires a != [] && Unpadded(a)
    requires b != [] && Unpadded(b)
    requires na != [] && Unpadded(na)
    requires nb != [] && Unpadded(nb)
    requires LexLt(a, b) && key == a + "-" + b && display == na + " & " + nb
    ensures RecordsOf(PlainRow(a, na, b, nb, reason)) == [Match(key, display, reason)]
    ensures RecordsOf(PlainRow(b, nb, a, na, reason)) == [Match(key, display, reason)]
  {
    PlainRowExtract(a, na, b, nb, reason);
    PlainRowExtract(b, nb, a, na, reason);
    NormalizeExample(a, na, b, nb, reason);
  }

  lemma ExampleRecordsAlike()
    ensures RecordsOf(PlainRow("1", "Ana", "2", "Beto", "x")) == [Match("1-2", "Ana & Beto", "x")]
    ensures RecordsOf(PlainRow("2", "Beto", "1", "Ana", "y")) == [Match("1-2", "Ana & Beto", "y")]
  {
    assert LexLt("1", "2");
    assert "1" + "-" + "2" == "1-2";
    assert "Ana" + " & " + "Beto" == "Ana & Beto";
    ExampleRecord("1", "Ana", "2", "Beto", "x", "1-2", "Ana & Beto");
    ExampleRecord("1", "Ana", "2", "Beto", "y", "1-2", "Ana & Beto");
  }

  lemma ExampleRecordOther()
    ensures RecordsOf(PlainRow("3", "Cara", "4", "Dan", "z")) == [Match("3-4", "Cara & Dan", "z")]
  {
    assert LexLt("3", "4");
    assert "3" + "-" + "4" == "3-4";
    assert "Cara" + " & " + "Dan" == "Cara & Dan";
    ExampleRecord("3", "Cara", "4", "Dan", "z", "3-4", "Cara & Dan");
  }

  /** Three nominations, two of them of the same pair in opposite order. */
  lemma ThreeRowsExample()
    ensures Ranking([PlainRow("1", "Ana", "2", "Beto", "x"),
                     PlainRow("2", "Beto", "1", "Ana", "y"),
                     PlainRow("3", "Cara", "4", "Dan", "z")])
         == [Entry("1-2", "Ana & Beto", 2), Entry("3-4", "Cara & Dan", 1)]
  {
    ExampleRecordsAlike();
    ExampleRecordOther();
    assert "1-2"[0] != "3-4"[0];
    RankingOfThree(PlainRow("1", "Ana", "2", "Beto", "x"),
                   PlainRow("2", "Beto", "1", "Ana", "y"),
                   PlainRow("3", "Cara", "4", "Dan", "z"),
                   Match("1-2", "Ana & Beto", "x"), Match("1-2", "Ana & Beto", "y"), Match("3-4", "Cara & Dan", "z"));
  }

  lemma GroupOfThree(m1: Match, m2: Match, m3: Match)
    requires m1.Pair() == m2.Pair() && m3.Pair() != m1.Pair()
    ensures Group([m1, m2, m3]) == [Entry(m1.key, m1.display, 2), Entry(m3.key, m3.display, 1)]
  {
    GroupOfTwoAlike(m1, m2);
    var ms := [m1, m2, m3];
    assert ms[..2] == [m1, m2];
    var e := Entry(m1.key, m1.display, 2);
    assert Tally([e], m3) == [e] + Tally([], m3);
  }
}
