/** The three queries the page runs on the ranking: the leader metrics, the
    top-10 table with its popularity bars, and the name search. */
module Dashboard {
  import opened Wrappers
  import opened Text
  import opened PairRanking

  // ---------------------------------------------------------------------
  // Leader metrics

  /** `ranking['Votos'].max()`, the upper bound of the popularity bars; the
      page only asks for it when the ranking is not empty. */
  function MaxVotes(r: seq<Entry>): (m: nat)
    requires r != []
    ensures forall x :: x in r ==> x.votes <= m
    ensures exists x :: x in r && x.votes == m
  {
    if |r| == 1 then r[0].votes
    else
      var rest := MaxVotes(r[1..]);
      assert forall x :: x in r ==> x == r[0] || x in r[1..];
      if r[0].votes >= rest then r[0].votes else rest
  }

  /** In a ranking sorted most voted first, the first entry holds the
      largest vote count. */
  lemma LeaderIsMax(r: seq<Entry>)
    requires r != [] && NonIncreasing(r)
    ensures r[0].votes == MaxVotes(r)
  {
    var m := MaxVotes(r);
    var x :| x in r && x.votes == m;
    var k :| 0 <= k < |r| && r[k] == x;
    assert k == 0 || r[0].votes >= r[k].votes;
  }

  /** What the page shows above the table: the total of all votes, the
      leading pair's label and votes, and the bar bound. */
  datatype Metrics = Metrics(totalVotes: nat, leader: string, leaderVotes: nat, barMax: nat)

  /** The metrics of a ranking, or None for the "no votes yet" message. */
  function Summarize(r: seq<Entry>): (s: Option<Metrics>)
    ensures s.None? <==> r == []
    ensures s.Some? ==> s.value.totalVotes == TotalVotes(r)
    ensures s.Some? ==> Entry(r[0].key, s.value.leader, s.value.leaderVotes) == r[0]
    ensures s.Some? ==> forall x :: x in r ==> x.votes <= s.value.barMax
    ensures s.Some? ==> exists x :: x in r && x.votes == s.value.barMax
  {
    if r == [] then None
    else Some(Metrics(TotalVotes(r), r[0].display, r[0].votes, MaxVotes(r)))
  }

  /** On the ranking of a sheet: metrics are shown exactly when some row is
      valid; the total is the number of valid rows; the leader's votes are
      the bar bound and no group has more nominations. */
  lemma MetricsOfRows(rows: seq<RawRow>)
    ensures Summarize(Ranking(rows)).Some? <==> OnlyValid(rows) != []
    ensures Summarize(Ranking(rows)).Some? ==>
      var s := Summarize(Ranking(rows)).value;
      && s.totalVotes == |OnlyValid(rows)|
      && s.leaderVotes == s.barMax
      && forall m :: m in ValidMatches(rows) ==> Count(ValidMatches(rows), m.Pair()) <= s.leaderVotes
  {
    var r := Ranking(rows);
    RankingCorrect(rows);
    EmptyRanking(rows);
    if r != [] {
      LeaderIsMax(r);
      LeaderCountsMost(ValidMatches(rows), r);
    }
  }

  /** No group of the records has more of them than the first entry of a
      ranking of those records has votes. */
  lemma LeaderCountsMost(ms: seq<Match>, r: seq<Entry>)
    requires IsRankingOf(ms, r) && r != []
    ensures forall m :: m in ms ==> Count(ms, m.Pair()) <= r[0].votes
  {
    forall m | m in ms
      ensures Count(ms, m.Pair()) <= r[0].votes
    {
      var x :| x in r && x.Pair() == m.Pair();
      var k :| 0 <= k < |r| && r[k] == x;
      assert k == 0 || r[0].votes >= r[k].votes;
    }
  }

  // ---------------------------------------------------------------------
  // The ranking table

  /** How many entries the table shows. */
  const TableSize: nat := 10

  /** `ranking.head(n)`: the first n entries, or all of them when there are
      fewer. */
  function Head(r: seq<Entry>, n: nat): (t: seq<Entry>)
    ensures |t| == if |r| < n then |r| else n
    ensures t == r[..|t|]
  {
    if |r| < n then r else r[..n]
  }

  /** The table shows the most voted entries: none left out has more votes
      than one shown. */
  lemma HeadHoldsMostVoted(r: seq<Entry>, n: nat)
    requires NonIncreasing(r)
    ensures forall i, j :: 0 <= i < |Head(r, n)| <= j < |r| ==> Head(r, n)[i].votes >= r[j].votes
  {
    var t := Head(r, n);
    forall i, j | 0 <= i < |t| <= j < |r|
      ensures t[i].votes >= r[j].votes
    {
      assert t[i] == r[i];
    }
  }

  /** The table of the page: the first ten entries of the ranking. */
  function TopTable(rows: seq<RawRow>): (t: seq<Entry>)
    ensures |t| == if |Ranking(rows)| < TableSize then |Ranking(rows)| else TableSize
    ensures t == Ranking(rows)[..|t|]
    ensures NonIncreasing(t)
  {
    var r := Ranking(rows);
    var t := Head(r, TableSize);
    assert forall i, j :: 0 <= i < j < |t| ==> t[i] == r[i] && t[j] == r[j];
    t
  }

  // ---------------------------------------------------------------------
  // Search

  /** `str.contains(query, case=False)` on a label, taking the query as
      literal text and folding ASCII letters only. */
  predicate LabelMatches(display: string, query: string) {
    Contains(Lower(display), Lower(query))
  }

  /** The entries of `r` whose label matches, in ranking order. */
  function Filter(r: seq<Entry>, query: string): (res: seq<Entry>)
    ensures forall x :: x in res <==> x in r && LabelMatches(x.display, query)
    ensures IsSubsequence(res, r)
  {
    if r == [] then []
    else if LabelMatches(r[0].display, query) then [r[0]] + Filter(r[1..], query)
    else Filter(r[1..], query)
  }

  /** The search box: an empty query shows nothing (it is not "match all");
      otherwise the matching entries, in ranking order. */
  function Search(r: seq<Entry>, query: string): (res: seq<Entry>)
    ensures query == [] ==> res == []
    ensures forall x :: x in res <==> x in r && query != [] && LabelMatches(x.display, query)
    ensures IsSubsequence(res, r)
  {
    if query == [] then [] else Filter(r, query)
  }

  lemma {:induction false} SubsequenceMembers<T>(a: seq<T>, b: seq<T>)
    requires IsSubsequence(a, b)
    ensures forall x :: x in a ==> x in b
  {
    if a != [] {
      if a[0] == b[0] {
        SubsequenceMembers(a[1..], b[1..]);
        assert forall x :: x in a ==> x == a[0] || x in a[1..];
      } else {
        SubsequenceMembers(a, b[1..]);
      }
    }
  }

  lemma {:induction false} SubsequenceOrdered(a: seq<Entry>, b: seq<Entry>)
    requires IsSubsequence(a, b) && NonIncreasing(b)
    ensures NonIncreasing(a)
  {
    if a != [] {
      NonIncreasingTail(b);
      if a[0] == b[0] {
        SubsequenceOrdered(a[1..], b[1..]);
        SubsequenceMembers(a[1..], b[1..]);
        assert a == [a[0]] + a[1..];
        NonIncreasingCons(a[0], a[1..]);
      } else {
        SubsequenceOrdered(a, b[1..]);
      }
    }
  }

  /** Search results keep the ranking's order, most voted first. */
  lemma SearchOrdered(r: seq<Entry>, query: string)
    requires NonIncreasing(r)
    ensures NonIncreasing(Search(r, query))
  {
    SubsequenceOrdered(Search(r, query), r);
  }

  /** The search does not see letter case: two queries that fold to the same
      text find the same entries. */
  lemma {:induction false} FilterIgnoresCase(r: seq<Entry>, q1: string, q2: string)
    requires Lower(q1) == Lower(q2)
    ensures Filter(r, q1) == Filter(r, q2)
  {
    if r != [] {
      FilterIgnoresCase(r[1..], q1, q2);
    }
  }

  lemma SearchIgnoresCase(r: seq<Entry>, q1: string, q2: string)
    requires Lower(q1) == Lower(q2)
    ensures Search(r, q1) == Search(r, q2)
  {
    FilterIgnoresCase(r, q1, q2);
  }

  lemma {:induction false} TooShort(hay: string, needle: string)
    requires |hay| < |needle|
    ensures !Contains(hay, needle)
  {
    if hay != [] {
      TooShort(hay[1..], needle);
    }
  }

  lemma NotInAnaBeto()
    ensures !Contains("ana & beto", "zz")
  {
    var h := "ana & beto";
    TooShort(h[9..], "zz");
    var k := 9;
    while k > 0
      invariant 0 <= k <= 9
      invariant !Contains(h[k..], "zz")
    {
      k := k - 1;
      assert h[k..][1..] == h[k + 1..];
      Skip(h[k..], "zz", 0);
    }
  }

  lemma SearchOfTwo(e1: Entry, e2: Entry, query: string)
    requires query != []
    ensures Search([e1, e2], query) ==
      (if LabelMatches(e1.display, query) then [e1] else []) +
      (if LabelMatches(e2.display, query) then [e2] else [])
  {
    assert [e1, e2][1..] == [e2];
    assert [e2][1..] == [];
    assert Filter([e2], query) == if LabelMatches(e2.display, query) then [e2] else [];
    assert Filter([e1, e2], query) == (if LabelMatches(e1.display, query) then [e1] else []) + Filter([e2], query);
  }

  lemma LowerExamples()
    ensures Lower("ANA") == "ana" && Lower("zz") == "zz"
    ensures Lower("Ana & Beto") == "ana & beto" && Lower("Cara & Dan") == "cara & dan"
  {
  }

  /** Searching "ANA" finds "Ana & Beto" and not "Cara & Dan"; searching
      "zz" finds nothing. */
  lemma SearchExample()
    ensures Search([Entry("1-2", "Ana & Beto", 2), Entry("3-4", "Cara & Dan", 1)], "ANA")
         == [Entry("1-2", "Ana & Beto", 2)]
    ensures Search([Entry("1-2", "Ana & Beto", 2), Entry("3-4", "Cara & Dan", 1)], "zz") == []
  {
    var e1, e2 := Entry("1-2", "Ana & Beto", 2), Entry("3-4", "Cara & Dan", 1);
    LowerExamples();
    assert IsPrefix("ana", "ana & beto");
    assert LabelMatches(e1.display, "ANA");
    NotInCaraDan("ana");
    NotInCaraDan("zz");
    NotInAnaBeto();
    SearchOfTwo(e1, e2, "ANA");
    SearchOfTwo(e1, e2, "zz");
  }

  /** A mismatch at offset `k` means the needle does not start here. */
  lemma Skip(hay: string, needle: string, k: nat)
    requires k < |needle| && k < |hay| && hay[k] != needle[k]
    ensures Contains(hay, needle) == Contains(hay[1..], needle)
  {
    assert !IsPrefix(needle, hay) by {
      if |needle| <= |hay| {
        assert hay[..|needle|][k] == hay[k];
      }
    }
  }

  lemma NotInCaraDan(needle: string)
    requires needle == "ana" || needle == "zz"
    ensures !Contains("cara & dan", needle)
  {
    var h := "cara & dan";
    var n := |h| - |needle| + 1;
    TooShort(h[n..], needle);
    var k := n;
    while k > 0
      invariant 0 <= k <= n
      invariant !Contains(h[k..], needle)
    {
      k := k - 1;
      assert h[k..][1..] == h[k + 1..];
      if needle == "zz" || h[k] != 'a' {
        Skip(h[k..], needle, 0);
      } else if h[k + 1] != 'n' {
        Skip(h[k..], needle, 1);
      } else {
        Skip(h[k..], needle, 2);
      }
    }
  }
}
