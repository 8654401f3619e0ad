/**
 The Project Ideas page: badge colour mappings, badge capitalisation, the
 five summary statistics, and the in-place ranking of the ideas by net score
 (upvotes minus downvotes, highest first) with a stable sort.
 */
module ProjectIdeas {
  import opened AsciiText

  /** A project idea; the icon element is presentation and is not modelled. */
  datatype Idea = Idea(
    id: string,
    title: string,
    description: string,
    category: string,
    priority: string,
    complexity: string,
    upvotes: int,
    downvotes: int)

  // ---------------------------------------------------------------- badges

  const GrayClass := "bg-gray-100 text-gray-800"

  /** `getPriorityColor`: a class per known priority, gray for anything else. */
  function PriorityColor(priority: string): (r: string)
    ensures r == GrayClass <==> priority !in {"high", "medium", "low"}
  {
    match priority
    case "high" => "bg-red-100 text-red-800"
    case "medium" => "bg-yellow-100 text-yellow-800"
    case "low" => "bg-green-100 text-green-800"
    case _ => GrayClass
  }

  /** `getComplexityColor`: a class per known complexity, gray for anything else. */
  function ComplexityColor(complexity: string): (r: string)
    ensures r == GrayClass <==> complexity !in {"simple", "moderate", "complex"}
  {
    match complexity
    case "simple" => "bg-blue-100 text-blue-800"
    case "moderate" => "bg-purple-100 text-purple-800"
    case "complex" => "bg-orange-100 text-orange-800"
    case _ => GrayClass
  }

  /** The three priorities get three different colours. */
  lemma PriorityColorsDistinct()
    ensures PriorityColor("high") != PriorityColor("medium")
    ensures PriorityColor("medium") != PriorityColor("low") && PriorityColor("low") != PriorityColor("high")
  {
  }

  /** The three complexities get three different colours. */
  lemma ComplexityColorsDistinct()
    ensures ComplexityColor("simple") != ComplexityColor("moderate")
    ensures ComplexityColor("moderate") != ComplexityColor("complex") && ComplexityColor("complex") != ComplexityColor("simple")
  {
  }

  /** The priority badge text: the capitalised priority followed by " Priority". */
  function PriorityBadge(idea: Idea): (r: string)
    ensures |r| == |idea.priority| + |" Priority"|
    ensures r[|idea.priority|..] == " Priority"
    ensures Lower(r[..|idea.priority|]) == Lower(idea.priority)
    ensures idea.priority != [] ==> r[0] == UpperChar(idea.priority[0]) && r[1..|idea.priority|] == idea.priority[1..]
  {
    var c := Capitalize(idea.priority);
    CapitalizeKeepsLower(idea.priority);
    assert (c + " Priority")[..|idea.priority|] == c;
    c + " Priority"
  }

  /** The complexity badge text: the capitalised complexity followed by " Complexity". */
  function ComplexityBadge(idea: Idea): (r: string)
    ensures |r| == |idea.complexity| + |" Complexity"|
    ensures r[|idea.complexity|..] == " Complexity"
    ensures Lower(r[..|idea.complexity|]) == Lower(idea.complexity)
    ensures idea.complexity != [] ==> r[0] == UpperChar(idea.complexity[0]) && r[1..|idea.complexity|] == idea.complexity[1..]
  {
    var c := Capitalize(idea.complexity);
    CapitalizeKeepsLower(idea.complexity);
    assert (c + " Complexity")[..|idea.complexity|] == c;
    c + " Complexity"
  }

  /** The badge text upper-cases the first letter of the value and keeps the rest. */
  lemma {:induction false} BadgeText(idea: Idea)
    requires idea.priority != [] && idea.complexity != []
    ensures PriorityBadge(idea)[0] == UpperChar(idea.priority[0])
    ensures PriorityBadge(idea)[1..|idea.priority|] == idea.priority[1..]
    ensures ComplexityBadge(idea)[0] == UpperChar(idea.complexity[0])
    ensures ComplexityBadge(idea)[1..|idea.complexity|] == idea.complexity[1..]
    ensures Lower(PriorityBadge(idea)[..|idea.priority|]) == Lower(idea.priority)
    ensures Lower(ComplexityBadge(idea)[..|idea.complexity|]) == Lower(idea.complexity)
  {
    assert PriorityBadge(idea)[..|idea.priority|] == Capitalize(idea.priority);
    assert ComplexityBadge(idea)[..|idea.complexity|] == Capitalize(idea.complexity);
    CapitalizeKeepsLower(idea.priority);
    CapitalizeKeepsLower(idea.complexity);
  }

  lemma PriorityBadgeExamples()
    ensures Capitalize("high") == "High" && Capitalize("medium") == "Medium" && Capitalize("low") == "Low"
  {
    assert UpperChar('h') == 'H' && UpperChar('m') == 'M' && UpperChar('l') == 'L';
  }

  lemma ComplexityBadgeExamples()
    ensures Capitalize("simple") == "Simple" && Capitalize("moderate") == "Moderate"
    ensures Capitalize("complex") == "Complex"
  {
    assert UpperChar('s') == 'S' && UpperChar('m') == 'M' && UpperChar('c') == 'C';
  }

  // ------------------------------------------------------------ statistics

  /** `projectIdeas.filter(idea => idea.priority === 'high')`. */
  function HighPriority(s: seq<Idea>): (r: seq<Idea>)
    ensures |r| <= |s|
    ensures forall x :: x in r <==> x in s && x.priority == "high"
    ensures forall x :: multiset(r)[x] == if x.priority == "high" then multiset(s)[x] else 0
  {
    if s == [] then []
    else
      var prefix, last := s[..|s| - 1], s[|s| - 1];
      var init := HighPriority(prefix);
      assert s == prefix + [last];
      assert multiset(s) == multiset(prefix) + multiset{last};
      assert forall x :: x in s <==> x in prefix || x == last;
      if last.priority == "high" then
        assert multiset(init + [last]) == multiset(init) + multiset{last};
        init + [last]
      else
        init
  }

  /** `projectIdeas.filter(idea => idea.complexity === 'simple')`. */
  function SimpleProjects(s: seq<Idea>): (r: seq<Idea>)
    ensures |r| <= |s|
    ensures forall x :: x in r <==> x in s && x.complexity == "simple"
    ensures forall x :: multiset(r)[x] == if x.complexity == "simple" then multiset(s)[x] else 0
  {
    if s == [] then []
    else
      var prefix, last := s[..|s| - 1], s[|s| - 1];
      var init := SimpleProjects(prefix);
      assert s == prefix + [last];
      assert multiset(s) == multiset(prefix) + multiset{last};
      assert forall x :: x in s <==> x in prefix || x == last;
      if last.complexity == "simple" then
        assert multiset(init + [last]) == multiset(init) + multiset{last};
        init + [last]
      else
        init
  }

  /** `new Set(projectIdeas.map(idea => idea.category))`. */
  function Categories(s: seq<Idea>): (r: set<string>)
    ensures forall i :: 0 <= i < |s| ==> s[i].category in r
    ensures r == {} <==> s == []
  {
    var r := set x | x in s :: x.category;
    assert s != [] ==> s[0].category in r;
    r
  }

  /** `projectIdeas.reduce((sum, idea) => sum + idea.upvotes, 0)`, folded from the left. */
  function TotalVotes(s: seq<Idea>): (r: int)
    ensures (forall k :: 0 <= k < |s| ==> s[k].upvotes >= 0) ==> r >= 0
  {
    if s == [] then 0 else TotalVotes(s[..|s| - 1]) + s[|s| - 1].upvotes
  }

  /** The five counters of the statistics bar. */
  datatype Stats = Stats(totalIdeas: nat, highPriority: nat, categories: nat, simpleProjects: nat, totalVotes: int)

  function StatsOf(s: seq<Idea>): (st: Stats)
    ensures st.highPriority <= st.totalIdeas && st.simpleProjects <= st.totalIdeas
  {
    Stats(|s|, |HighPriority(s)|, |Categories(s)|, |SimpleProjects(s)|, TotalVotes(s))
  }

  /** There are never more categories than ideas, and at least one when there is an idea. */
  lemma {:induction false} CategoryBounds(s: seq<Idea>)
    ensures |Categories(s)| <= |s|
    ensures s != [] ==> |Categories(s)| >= 1
  {
    if s != [] {
      var init := s[..|s| - 1];
      CategoryBounds(init);
      CategoriesSnoc(s);
    }
  }

  /** Appending an idea adds its category to the set and nothing else. */
  lemma CategoriesSnoc(s: seq<Idea>)
    requires s != []
    ensures Categories(s) == Categories(s[..|s| - 1]) + {s[|s| - 1].category}
  {
    var init, last := s[..|s| - 1], s[|s| - 1];
    forall c | c in Categories(s) ensures c in Categories(init) + {last.category} {
      var x :| x in s && x.category == c;
      assert x in init || x == last;
    }
    forall c | c in Categories(init) + {last.category} ensures c in Categories(s) {
      if c != last.category {
        var x :| x in init && x.category == c;
        assert x in s;
      }
    }
  }


  /** Total Votes adds upvotes only: two lists that differ only in downvotes have the same total. */
  lemma {:induction false} TotalVotesIgnoresDownvotes(s: seq<Idea>, t: seq<Idea>)
    requires |s| == |t|
    requires forall i :: 0 <= i < |s| ==> s[i].(downvotes := 0) == t[i].(downvotes := 0)
    ensures TotalVotes(s) == TotalVotes(t)
  {
    if s != [] {
      TotalVotesIgnoresDownvotes(s[..|s| - 1], t[..|t| - 1]);
      assert s[|s| - 1].upvotes == s[|s| - 1].(downvotes := 0).upvotes;
    }
  }

  /** Total Votes is additive: the total of a concatenation is the sum of the totals. */
  lemma {:induction false} TotalVotesAppend(s: seq<Idea>, t: seq<Idea>)
    ensures TotalVotes(s + t) == TotalVotes(s) + TotalVotes(t)
    decreases |t|
  {
    if t == [] {
      assert s + t == s;
    } else {
      TotalVotesAppend(s, t[..|t| - 1]);
      assert (s + t)[..|s + t| - 1] == s + t[..|t| - 1];
    }
  }

  /** A single idea contributes exactly its upvotes. */
  lemma TotalVotesSingle(x: Idea)
    ensures TotalVotes([x]) == x.upvotes
  {
    assert [x][..0] == [];
  }

  /** With no negative upvote counts the total is at least every single idea's upvotes. */
  lemma {:induction false} TotalVotesBounds(s: seq<Idea>, i: int)
    requires forall k :: 0 <= k < |s| ==> s[k].upvotes >= 0
    requires 0 <= i < |s|
    ensures s[i].upvotes <= TotalVotes(s)
  {
    var init := s[..|s| - 1];
    if i < |s| - 1 {
      TotalVotesBounds(init, i);
    }
  }

  // -------------------------------------------------------------- ranking

  function NetScore(idea: Idea): int
  {
    idea.upvotes - idea.downvotes
  }

  /** The comparator `(a, b) => b.upvotes - b.downvotes - (a.upvotes - a.downvotes)`. */
  function Compare(a: Idea, b: Idea): (r: int)
    ensures r > 0 <==> NetScore(b) > NetScore(a)
    ensures r == 0 <==> NetScore(b) == NetScore(a)
  {
    NetScore(b) - NetScore(a)
  }

  /** Sorted with respect to the comparator: no pair is out of order. */
  predicate SortedByNet(s: seq<Idea>)
  {
    forall i, j :: 0 <= i < j < |s| ==> Compare(s[i], s[j]) <= 0
  }

  /** Inserts `x` after every element that the comparator does not place after it. */
  function InsertByNet(t: seq<Idea>, x: Idea): (r: seq<Idea>)
    ensures |r| == |t| + 1
  {
    if t == [] then [x]
    else if Compare(t[|t| - 1], x) > 0 then InsertByNet(t[..|t| - 1], x) + [t[|t| - 1]]
    else t + [x]
  }

  /** The stable sort by the comparator, as insertion of each element in turn. */
  function SortByNet(s: seq<Idea>): (r: seq<Idea>)
    ensures |r| == |s|
  {
    if s == [] then [] else InsertByNet(SortByNet(s[..|s| - 1]), s[|s| - 1])
  }

  /** The ideas with net score `k`, in their order. */
  function WithNet(s: seq<Idea>, k: int): seq<Idea>
  {
    if s == [] then []
    else WithNet(s[..|s| - 1], k) + (if NetScore(s[|s| - 1]) == k then [s[|s| - 1]] else [])
  }

  function Ids(s: seq<Idea>): seq<string>
  {
    if s == [] then [] else Ids(s[..|s| - 1]) + [s[|s| - 1].id]
  }

  lemma {:induction false} InsertKeepsSorted(t: seq<Idea>, x: Idea)
    requires SortedByNet(t)
    ensures |InsertByNet(t, x)| == |t| + 1
    ensures SortedByNet(InsertByNet(t, x))
    ensures forall y :: y in InsertByNet(t, x) <==> y in t || y == x
  {
    if t != [] && Compare(t[|t| - 1], x) > 0 {
      var init, last := t[..|t| - 1], t[|t| - 1];
      assert SortedByNet(init);
      InsertKeepsSorted(init, x);
      var r := InsertByNet(init, x);
      assert forall y :: y in t <==> y in init || y == last;
      assert forall i :: 0 <= i < |r| ==> Compare(r[i], last) <= 0 by {
        forall i | 0 <= i < |r| ensures Compare(r[i], last) <= 0 {
          assert r[i] in r;
        }
      }
    }
  }

  /** The ranking orders the ideas by net score, highest first. */
  lemma {:induction false} SortIsSorted(s: seq<Idea>)
    ensures |SortByNet(s)| == |s|
    ensures SortedByNet(SortByNet(s))
    ensures forall i, j :: 0 <= i < j < |s| ==> NetScore(SortByNet(s)[i]) >= NetScore(SortByNet(s)[j])
  {
    if s != [] {
      SortIsSorted(s[..|s| - 1]);
      InsertKeepsSorted(SortByNet(s[..|s| - 1]), s[|s| - 1]);
    }
  }

  /** Splitting off the last element of a sequence built by appending one. */
  lemma Snoc<T>(r: seq<T>, y: T)
    ensures (r + [y])[..|r|] == r && (r + [y])[|r|] == y
  {
  }

  lemma {:induction false} InsertMultiset(t: seq<Idea>, x: Idea)
    ensures multiset(InsertByNet(t, x)) == multiset(t) + multiset{x}
  {
    if t != [] && Compare(t[|t| - 1], x) > 0 {
      InsertMultiset(t[..|t| - 1], x);
      assert t == t[..|t| - 1] + [t[|t| - 1]];
    }
  }

  lemma {:induction false} InsertIds(t: seq<Idea>, x: Idea)
    ensures multiset(Ids(InsertByNet(t, x))) == multiset(Ids(t)) + multiset{x.id}
  {
    if t == [] {
      Snoc([], x);
    } else if Compare(t[|t| - 1], x) > 0 {
      InsertIds(t[..|t| - 1], x);
      Snoc(InsertByNet(t[..|t| - 1], x), t[|t| - 1]);
    } else {
      Snoc(t, x);
    }
  }

  lemma {:induction false} InsertWithNet(t: seq<Idea>, x: Idea, k: int)
    ensures WithNet(InsertByNet(t, x), k) == WithNet(t, k) + (if NetScore(x) == k then [x] else [])
  {
    if t == [] {
      Snoc([], x);
    } else if Compare(t[|t| - 1], x) > 0 {
      InsertWithNet(t[..|t| - 1], x, k);
      Snoc(InsertByNet(t[..|t| - 1], x), t[|t| - 1]);
    } else {
      Snoc(t, x);
    }
  }

  lemma {:induction false} InsertTotalVotes(t: seq<Idea>, x: Idea)
    ensures TotalVotes(InsertByNet(t, x)) == TotalVotes(t) + x.upvotes
  {
    if t == [] {
      Snoc([], x);
    } else if Compare(t[|t| - 1], x) > 0 {
      InsertTotalVotes(t[..|t| - 1], x);
      Snoc(InsertByNet(t[..|t| - 1], x), t[|t| - 1]);
    } else {
      Snoc(t, x);
    }
  }

  lemma {:induction false} InsertHighPriority(t: seq<Idea>, x: Idea)
    ensures |HighPriority(InsertByNet(t, x))| == |HighPriority(t)| + (if x.priority == "high" then 1 else 0)
  {
    if t == [] {
      Snoc([], x);
    } else if Compare(t[|t| - 1], x) > 0 {
      InsertHighPriority(t[..|t| - 1], x);
      Snoc(InsertByNet(t[..|t| - 1], x), t[|t| - 1]);
    } else {
      Snoc(t, x);
    }
  }

  lemma {:induction false} InsertSimpleProjects(t: seq<Idea>, x: Idea)
    ensures |SimpleProjects(InsertByNet(t, x))| == |SimpleProjects(t)| + (if x.complexity == "simple" then 1 else 0)
  {
    if t == [] {
      Snoc([], x);
    } else if Compare(t[|t| - 1], x) > 0 {
      InsertSimpleProjects(t[..|t| - 1], x);
      Snoc(InsertByNet(t[..|t| - 1], x), t[|t| - 1]);
    } else {
      Snoc(t, x);
    }
  }

  /** The ranking is a permutation: the same ideas, each as often as before. */
  lemma {:induction false} SortIsPermutation(s: seq<Idea>)
    ensures multiset(SortByNet(s)) == multiset(s)
  {
    if s != [] {
      var init, last := s[..|s| - 1], s[|s| - 1];
      SortIsPermutation(init);
      InsertMultiset(SortByNet(init), last);
      assert SortByNet(s) == InsertByNet(SortByNet(init), last);
      assert s == init + [last];
      assert multiset(s) == multiset(init) + multiset{last};
    }
  }

  /** Every id is present after the ranking exactly as often as before it. */
  lemma {:induction false} SortKeepsIds(s: seq<Idea>)
    ensures multiset(Ids(SortByNet(s))) == multiset(Ids(s))
  {
    if s != [] {
      var init, last := s[..|s| - 1], s[|s| - 1];
      SortKeepsIds(init);
      InsertIds(SortByNet(init), last);
    }
  }

  /** The ranking is stable: the ideas of each net score stay in their original order. */
  lemma {:induction false} SortIsStable(s: seq<Idea>, k: int)
    ensures WithNet(SortByNet(s), k) == WithNet(s, k)
  {
    if s != [] {
      SortIsStable(s[..|s| - 1], k);
      InsertWithNet(SortByNet(s[..|s| - 1]), s[|s| - 1], k);
    }
  }

  /** Reordering the ideas leaves every statistic as it was. */
  lemma SortKeepsStats(s: seq<Idea>)
    ensures StatsOf(SortByNet(s)) == StatsOf(s)
  {
    SortKeepsCounts(s);
    SortKeepsCategories(s);
  }

  lemma {:induction false} SortKeepsCounts(s: seq<Idea>)
    ensures |SortByNet(s)| == |s|
    ensures |HighPriority(SortByNet(s))| == |HighPriority(s)|
    ensures |SimpleProjects(SortByNet(s))| == |SimpleProjects(s)|
    ensures TotalVotes(SortByNet(s)) == TotalVotes(s)
  {
    if s != [] {
      var init, last := s[..|s| - 1], s[|s| - 1];
      SortKeepsCounts(init);
      InsertTotalVotes(SortByNet(init), last);
      InsertHighPriority(SortByNet(init), last);
      InsertSimpleProjects(SortByNet(init), last);
      SortIsSorted(s);
    }
  }

  lemma SortKeepsCategories(s: seq<Idea>)
    ensures Categories(SortByNet(s)) == Categories(s)
  {
    SortIsPermutation(s);
    assert forall x :: x in SortByNet(s) <==> x in s by {
      forall x ensures x in SortByNet(s) <==> x in s {
        assert x in SortByNet(s) <==> x in multiset(SortByNet(s));
      }
    }
  }

  /** The in-place sort of the page's state array, as an insertion sort. */
  method SortIdeas(a: array<Idea>)
    modifies a
    ensures a[..] == SortByNet(old(a[..]))
  {
    ghost var s := a[..];
    var i := 0;
    while i < a.Length
      invariant 0 <= i <= a.Length
      invariant a[..i] == SortByNet(s[..i])
      invariant a[i..] == s[i..]
    {
      InsertNext(a, i);
      assert s[..i + 1][..i] == s[..i];
      i := i + 1;
    }
    assert s[..a.Length] == s;
  }

  /** A sequence that agrees with `t` before `j`, holds `x` at `j` and `t` shifted by one after it. */
  lemma Placed(b: seq<Idea>, t: seq<Idea>, x: Idea, j: int)
    requires 0 <= j <= |t| && |b| == |t| + 1
    requires forall m :: 0 <= m < j ==> b[m] == t[m]
    requires b[j] == x
    requires forall m :: j < m < |b| ==> b[m] == t[m - 1]
    ensures b == t[..j] + [x] + t[j..]
  {
  }

  /**
   The inner loop of one insertion step: shifts right, by one place, the ideas
   of `a[..i]` that the comparator places after `x`, and returns the hole left.
   */
  method ShiftLarger(a: array<Idea>, i: int, x: Idea) returns (j: int)
    requires 0 <= i < a.Length
    modifies a
    ensures 0 <= j <= i
    ensures forall m :: 0 <= m < j ==> a[m] == old(a[m])
    ensures forall m :: j < m <= i ==> a[m] == old(a[m - 1])
    ensures forall m :: i < m < a.Length ==> a[m] == old(a[m])
    ensures forall m :: j <= m < i ==> Compare(old(a[m]), x) > 0
    ensures j == 0 || Compare(old(a[j - 1]), x) <= 0
  {
    j := i;
    while j > 0 && Compare(a[j - 1], x) > 0
      invariant 0 <= j <= i
      invariant forall m :: 0 <= m < j ==> a[m] == old(a[m])
      invariant forall m :: j < m <= i ==> a[m] == old(a[m - 1])
      invariant forall m :: i < m < a.Length ==> a[m] == old(a[m])
      invariant forall m :: j <= m < i ==> Compare(old(a[m]), x) > 0
    {
      a[j] := a[j - 1];
      j := j - 1;
    }
  }

  /** One step of the insertion sort: moves `a[i]` left into the sorted prefix `a[..i]`. */
  method InsertNext(a: array<Idea>, i: int)
    requires 0 <= i < a.Length
    modifies a
    ensures a[..i + 1] == InsertByNet(old(a[..i]), old(a[i]))
    ensures a[i + 1..] == old(a[i + 1..])
  {
    ghost var t := a[..i];
    var x := a[i];
    var j := ShiftLarger(a, i, x);
    a[j] := x;
    InsertAt(t, x, j);
    Placed(a[..i + 1], t, x, j);
  }

  lemma {:induction false} InsertAt(t: seq<Idea>, x: Idea, j: int)
    requires 0 <= j <= |t|
    requires forall m :: j <= m < |t| ==> Compare(t[m], x) > 0
    requires j == 0 || Compare(t[j - 1], x) <= 0
    ensures InsertByNet(t, x) == t[..j] + [x] + t[j..]
    decreases |t|
  {
    if j < |t| {
      var init, last := t[..|t| - 1], t[|t| - 1];
      assert Compare(last, x) > 0;
      assert InsertByNet(t, x) == InsertByNet(init, x) + [last];
      InsertAt(init, x, j);
      SplitAround(t, x, j);
    } else {
      assert t[..j] == t;
    }
  }

  /** Inserting `x` at `j < |t|` and then appending the last element of `t` is inserting into all of `t`. */
  lemma SplitAround(t: seq<Idea>, x: Idea, j: int)
    requires 0 <= j < |t|
    ensures t[..j] + [x] + t[j..] == t[..|t| - 1][..j] + [x] + t[..|t| - 1][j..] + [t[|t| - 1]]
  {
    var init := t[..|t| - 1];
    assert t[..j] == init[..j] by {
      forall m | 0 <= m < j ensures t[..j][m] == init[..j][m] {
        assert init[m] == t[m];
      }
    }
    assert t[j..] == init[j..] + [t[|t| - 1]] by {
      forall m | 0 <= m < |t| - j ensures t[j..][m] == (init[j..] + [t[|t| - 1]])[m] {
        if m < |t| - 1 - j {
          assert init[j + m] == t[j + m];
        }
      }
    }
  }
}
