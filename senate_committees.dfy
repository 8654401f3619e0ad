/**
 The Senate Committees page: it picks the Senate out of the legislative
 directory, takes its permanent committees (empty when absent) and filters
 them case-insensitively by a free-text search term matched against the
 committee name and the chairperson.
 */
module SenateCommittees {
  import opened AsciiText
  import opened Optional

  datatype Committee = Committee(committee: string, chairperson: string)

  /** One legislative-directory record, reduced to what the page reads. */
  datatype Chamber = Chamber(chamber: string, permanentCommittees: Option<seq<Committee>>)

  predicate IsSenate(r: Chamber)
  {
    Includes(r.chamber, "Senate")
  }

  /** `i` is the first index whose record is the Senate. */
  predicate FirstSenateAt(rs: seq<Chamber>, i: int)
  {
    0 <= i < |rs| && IsSenate(rs[i]) && forall j :: 0 <= j < i ==> !IsSenate(rs[j])
  }

  /** `legislativeData.find(item => item.chamber.includes('Senate'))`. */
  function FindSenate(rs: seq<Chamber>): (r: Option<Chamber>)
    ensures r.None? <==> forall i :: 0 <= i < |rs| ==> !IsSenate(rs[i])
    ensures r.Some? ==> exists i :: FirstSenateAt(rs, i) && rs[i] == r.value
  {
    if rs == [] then None
    else if IsSenate(rs[0]) then (assert FirstSenateAt(rs, 0); Some(rs[0]))
    else
      var r := FindSenate(rs[1..]);
      if r.Some? then
        var i :| FirstSenateAt(rs[1..], i) && rs[1..][i] == r.value;
        assert FirstSenateAt(rs, i + 1);
        r
      else
        r
  }

  /** `senateData?.permanent_committees || []`. */
  function CommitteeList(rs: seq<Chamber>): (r: seq<Committee>)
    ensures FindSenate(rs).None? ==> r == []
    ensures FindSenate(rs).Some? ==>
      r == match FindSenate(rs).value.permanentCommittees case None => [] case Some(cs) => cs
  {
    match FindSenate(rs)
    case None => []
    case Some(senate) =>
      match senate.permanentCommittees
      case None => []
      case Some(cs) => cs
  }

  /** The search predicate: the lower-cased term occurs in the lower-cased committee name or chairperson. */
  predicate Matches(c: Committee, query: string): (b: bool)
    ensures query == [] ==> b
  {
    assert query == [] ==> Includes(Lower(c.committee), Lower(query)) by {
      IncludesEmpty(Lower(c.committee));
    }
    Includes(Lower(c.committee), Lower(query)) || Includes(Lower(c.chairperson), Lower(query))
  }

  /** `committees.filter(...)` with the search predicate. */
  function Search(cs: seq<Committee>, query: string): (r: seq<Committee>)
    ensures |r| <= |cs|
    ensures forall c :: c in r <==> c in cs && Matches(c, query)
    ensures forall c :: multiset(r)[c] == if Matches(c, query) then multiset(cs)[c] else 0
  {
    if cs == [] then []
    else
      var rest := Search(cs[1..], query);
      assert multiset(cs) == multiset{cs[0]} + multiset(cs[1..]) by {
        assert cs == [cs[0]] + cs[1..];
      }
      assert forall c :: c in cs <==> c == cs[0] || c in cs[1..];
      if Matches(cs[0], query) then [cs[0]] + rest else rest
  }

  /** `r` is obtained from `s` by deleting elements, keeping the order of the rest. */
  ghost predicate IsSubsequence<T>(r: seq<T>, s: seq<T>)
    decreases |s|
  {
    if r == [] then true
    else if s == [] then false
    else if r[0] == s[0] then IsSubsequence(r[1..], s[1..])
    else IsSubsequence(r, s[1..])
  }

  /** What the page shows: the header count and the cards, or the empty state. */
  datatype PageView = PageView(headerCount: nat, cards: seq<Committee>)
  {
    predicate ShowsNoCommitteesFound() { cards == [] }
  }

  function View(rs: seq<Chamber>, query: string): (v: PageView)
    ensures v == PageView(|CommitteeList(rs)|, Search(CommitteeList(rs), query))
    ensures |v.cards| <= v.headerCount
    ensures v.ShowsNoCommitteesFound() <==> forall c :: c in CommitteeList(rs) ==> !Matches(c, query)
  {
    var committees := CommitteeList(rs);
    var cards := Search(committees, query);
    assert cards != [] ==> cards[0] in cards;
    PageView(|committees|, cards)
  }

  /** The search keeps the source order: its result is a subsequence of the committee list. */
  lemma {:induction false} SearchIsSubsequence(cs: seq<Committee>, query: string)
    ensures IsSubsequence(Search(cs, query), cs)
  {
    if cs != [] {
      SearchIsSubsequence(cs[1..], query);
      if !Matches(cs[0], query) {
        SubsequenceSkip(Search(cs[1..], query), cs);
      }
    }
  }

  /** A subsequence of the tail is a subsequence of the whole. */
  lemma {:induction false} SubsequenceSkip<T>(r: seq<T>, s: seq<T>)
    requires s != [] && IsSubsequence(r, s[1..])
    ensures IsSubsequence(r, s)
    decreases |s|, 0
  {
    if r != [] && r[0] == s[0] {
      if |s| > 1 {
        SubsequenceTail(r, s[1..]);
      }
    }
  }

  /** Dropping the head of a subsequence keeps it a subsequence. */
  lemma {:induction false} SubsequenceTail<T>(r: seq<T>, s: seq<T>)
    requires r != [] && IsSubsequence(r, s)
    ensures IsSubsequence(r[1..], s)
    decreases |s|, 1
  {
    if r[0] != s[0] {
      SubsequenceTail(r, s[1..]);
      SubsequenceSkip(r[1..], s);
    } else {
      SubsequenceSkip(r[1..], s);
    }
  }

  /** The empty search term keeps every committee, in order. */
  lemma {:induction false} SearchEmptyQuery(cs: seq<Committee>)
    ensures Search(cs, "") == cs
  {
    if cs != [] {
      IncludesEmpty(Lower(cs[0].committee));
      SearchEmptyQuery(cs[1..]);
    }
  }

  /** Only the lower-cased term matters: changing the case of its letters changes nothing. */
  lemma {:induction false} SearchIgnoresCase(cs: seq<Committee>, q1: string, q2: string)
    requires Lower(q1) == Lower(q2)
    ensures Search(cs, q1) == Search(cs, q2)
  {
    if cs != [] {
      SearchIgnoresCase(cs[1..], q1, q2);
    }
  }

  /** Searching with a term or with its lower-cased form gives the same result. */
  lemma SearchLowerQuery(cs: seq<Committee>, q: string)
    ensures Search(cs, q) == Search(cs, Lower(q))
  {
    LowerIdempotent(q);
    SearchIgnoresCase(cs, q, Lower(q));
  }

  /** A longer term that contains a shorter one can only narrow the result. */
  lemma {:induction false} SearchNarrows(cs: seq<Committee>, q: string, q': string)
    requires Includes(q', q)
    ensures IsSubsequence(Search(cs, q'), Search(cs, q))
  {
    if cs != [] {
      SearchNarrows(cs[1..], q, q');
      var c := cs[0];
      if Matches(c, q') {
        IncludesLower(q', q);
        if Includes(Lower(c.committee), Lower(q')) {
          IncludesTransitive(Lower(c.committee), Lower(q'), Lower(q));
        } else {
          IncludesTransitive(Lower(c.chairperson), Lower(q'), Lower(q));
        }
        assert Matches(c, q);
      } else if Matches(c, q) {
        SubsequenceSkip(Search(cs[1..], q'), Search(cs, q));
      }
    }
  }

  /** A string with no letter f in either case does not contain "fin" once lower-cased. */
  lemma NoFin(s: string)
    requires forall k :: 0 <= k < |s| ==> s[k] != 'f' && s[k] != 'F'
    ensures !Includes(Lower(s), "fin")
  {
    var t := Lower(s);
    forall i | 0 <= i && i + 3 <= |t|
      ensures !OccursAt(t, "fin", i)
    {
      assert t[i..i + 3][0] == t[i] == LowerChar(s[i]) != 'f';
    }
  }

  /** "Finance" matches the term "fin": its lower-cased name starts with it. */
  lemma FinanceMatchesFin()
    ensures Matches(Committee("Finance", "Juan Dela Cruz"), "fin")
  {
    assert Lower("fin") == "fin";
    StartsWithFin("Finance");
  }

  /** A string whose first three letters are "fin" in any case contains "fin" once lower-cased. */
  lemma StartsWithFin(s: string)
    requires |s| >= 3 && LowerChar(s[0]) == 'f' && LowerChar(s[1]) == 'i' && LowerChar(s[2]) == 'n'
    ensures Includes(Lower(s), "fin")
  {
    var t := Lower(s);
    assert t[..3] == "fin";
    assert OccursAt(t, "fin", 0);
  }

  /** Neither "Health" nor "Maria Santos" contains "fin" in any case. */
  lemma HealthMissesFin()
    ensures !Matches(Committee("Health", "Maria Santos"), "fin")
  {
    assert Lower("fin") == "fin";
    NoFin("Health");
    NoFin("Maria Santos");
  }

  /** The term "fin" keeps the Finance committee and drops the Health committee. */
  lemma SearchExample(finance: Committee, health: Committee, query: string)
    requires finance == Committee("Finance", "Juan Dela Cruz")
    requires health == Committee("Health", "Maria Santos")
    requires query == "fin"
    ensures Search([finance, health], query) == [finance]
  {
    var cs := [finance, health];
    FinanceMatchesFin();
    SearchMissesHealth(health, query);
    SearchStep(cs, query);
    assert cs[1..] == [health];
  }

  lemma SearchMissesHealth(health: Committee, query: string)
    requires health == Committee("Health", "Maria Santos")
    requires query == "fin"
    ensures Search([health], query) == []
  {
    HealthMissesFin();
    SearchStep([health], query);
  }

  /** One step of the filter: the head is kept exactly when it matches. */
  lemma SearchStep(cs: seq<Committee>, query: string)
    requires cs != []
    ensures Search(cs, query) == (if Matches(cs[0], query) then [cs[0]] else []) + Search(cs[1..], query)
  {
  }

  /** Without a Senate record there are no committees, so every search is empty. */
  lemma NoSenateNoResults(rs: seq<Chamber>, query: string)
    requires forall i :: 0 <= i < |rs| ==> !IsSenate(rs[i])
    ensures View(rs, query) == PageView(0, [])
  {
  }

  /** The header count is the size of the unfiltered list, whatever the search term. */
  lemma HeaderIgnoresQuery(rs: seq<Chamber>, q1: string, q2: string)
    ensures View(rs, q1).headerCount == View(rs, q2).headerCount == |CommitteeList(rs)|
  {
  }
}
