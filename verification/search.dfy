/** The filter panel: a search rebuilds the three hit dictionaries from the
    collated papers, the journal toggles decide which non-empty hit lists are
    shown, and the results text reports how many hits there were. */
module Search {
  import opened PyStr
  import opened Papers

  /** The match test of a search: the lowered query occurs in the lowered title
      or, as written, in the (not lowered) abstract. */
  predicate Hit(lowered: string, p: Paper) {
    Contains(Lower(p.title), lowered) || Contains(p.abstractText, lowered)
  }

  /** Reference definition of a hit dictionary: every paper the query hits, under
      its title. It is a sub-dictionary of the papers it was drawn from, keyed by
      title, and it holds a paper exactly when the query hits it. */
  function HitSet(lowered: string, papers: map<string, Paper>): (hits: map<string, Paper>)
    requires WellKeyed(papers)
    ensures WellKeyed(hits)
    ensures forall t :: t in hits <==> t in papers && Hit(lowered, papers[t])
    ensures forall t :: t in hits ==> hits[t] == papers[t]
    ensures |hits| <= |papers|
  {
    var hits := map t | t in papers && Hit(lowered, papers[t]) :: papers[t];
    SubsetSize(hits.Keys, papers.Keys);
    hits
  }

  lemma SubsetSize(a: set<string>, b: set<string>)
    requires a <= b
    ensures |a| <= |b|
  {
    assert b == a + (b - a);
  }

  /** One source's loop of `_search`: walks the keys of the papers and files every
      paper the lowered query hits under its own title. */
  method SearchSource(lowered: string, papers: map<string, Paper>) returns (hits: map<string, Paper>)
    requires WellKeyed(papers)
    ensures hits == HitSet(lowered, papers)
    ensures |hits| <= |papers|
  {
    hits := map[];
    var todo := papers.Keys;
    while todo != {}
      invariant todo <= papers.Keys
      invariant forall t :: t in hits <==> t in papers && t !in todo && Hit(lowered, papers[t])
      invariant forall t :: t in hits ==> hits[t] == papers[t]
      decreases |todo|
    {
      var key :| key in todo;
      var paper := papers[key];
      if Hit(lowered, paper) {
        hits := hits[paper.title := paper];
      }
      todo := todo - {key};
    }
  }

  /** An empty search box hits every paper: the empty string occurs in every title. */
  lemma EmptyQueryKeepsAll(papers: map<string, Paper>)
    requires WellKeyed(papers)
    ensures HitSet(Lower(""), papers) == papers
  {
    forall t | t in papers ensures Hit(Lower(""), papers[t]) {
      ContainsEmpty(Lower(papers[t].title));
    }
  }

  /** Titles are matched without regard to ASCII case: a query and its lower-case
      form give the same hits. */
  lemma QueryCaseIgnored(query: string, papers: map<string, Paper>)
    requires WellKeyed(papers)
    ensures HitSet(Lower(query), papers) == HitSet(Lower(Lower(query)), papers)
  {
    LowerIdempotent(query);
  }

  /** Refining a query narrows the hits: when the longer query contains the shorter
      one, every paper the longer one hits the shorter one hits too. */
  lemma RefinedQueryNarrows(short: string, long: string, papers: map<string, Paper>)
    requires WellKeyed(papers)
    requires Contains(Lower(long), Lower(short))
    ensures HitSet(Lower(long), papers).Keys <= HitSet(Lower(short), papers).Keys
  {
    forall t | t in HitSet(Lower(long), papers)
      ensures t in HitSet(Lower(short), papers)
    {
      var p := papers[t];
      if Contains(Lower(p.title), Lower(long)) {
        ContainsTrans(Lower(p.title), Lower(long), Lower(short));
      } else {
        ContainsTrans(p.abstractText, Lower(long), Lower(short));
      }
    }
  }

  /** The abstract is matched as written: a word with a capital letter, standing
      alone in an abstract, is not found by the same word typed in the search box,
      because only the query is lowered; standing alone in a title it is found. */
  lemma AbstractMatchIsCaseSensitive(w: string, i: nat)
    requires i < |w| && 'A' <= w[i] <= 'Z'
    ensures !Hit(Lower(w), Paper("", "", "", "", w))
    ensures Hit(Lower(w), Paper(w, "", "", "", ""))
  {
    var low := Lower(w);
    assert low[i] != w[i];
    ContainsByLength(Lower(""), low);
    ContainsByLength(w, low);
    ContainsByLength(low, low);
  }

  /** The filter panel's state. Toggles are the check buttons' integer variables
      (1 when ticked). */
  datatype Filters = Filters(
    searched: bool,
    prbHits: map<string, Paper>,
    natHits: map<string, Paper>,
    arxHits: map<string, Paper>,
    prbToggle: int,
    natToggle: int,
    arxToggle: int)

  /** The panel as built: nothing searched yet, no hits, every journal ticked. */
  function InitialFilters(): (f: Filters)
    ensures !f.searched && |f.prbHits| == |f.natHits| == |f.arxHits| == 0
    ensures f.prbToggle == f.natToggle == f.arxToggle == 1
  {
    Filters(false, map[], map[], map[], 1, 1, 1)
  }

  /** `_search`: marks the panel searched and rebuilds all three hit dictionaries
      from the collated papers with the lowered query; the toggles are untouched.
      Each journal's hits are then exactly its papers the query hits, filed under
      their titles, so the total is at most the number of papers. */
  function DoSearch(f: Filters, query: string, prbPapers: map<string, Paper>, natPapers: map<string, Paper>,
                    arxPapers: map<string, Paper>): (g: Filters)
    requires WellKeyed(prbPapers) && WellKeyed(natPapers) && WellKeyed(arxPapers)
    ensures g.searched
    ensures g.prbToggle == f.prbToggle && g.natToggle == f.natToggle && g.arxToggle == f.arxToggle
    ensures forall t :: t in g.prbHits <==> t in prbPapers && Hit(Lower(query), prbPapers[t])
    ensures forall t :: t in g.natHits <==> t in natPapers && Hit(Lower(query), natPapers[t])
    ensures forall t :: t in g.arxHits <==> t in arxPapers && Hit(Lower(query), arxPapers[t])
    ensures forall t :: t in g.prbHits ==> g.prbHits[t] == prbPapers[t]
    ensures forall t :: t in g.natHits ==> g.natHits[t] == natPapers[t]
    ensures forall t :: t in g.arxHits ==> g.arxHits[t] == arxPapers[t]
    ensures WellKeyed(g.prbHits) && WellKeyed(g.natHits) && WellKeyed(g.arxHits)
    ensures Total(g) <= |prbPapers| + |natPapers| + |arxPapers|
  {
    f.(searched := true,
       prbHits := HitSet(Lower(query), prbPapers),
       natHits := HitSet(Lower(query), natPapers),
       arxHits := HitSet(Lower(query), arxPapers))
  }

  /** A search forgets the previous one: the new state depends on the old one only
      through its toggles, and searching twice is searching once. */
  lemma SearchForgetsPrevious(f: Filters, f': Filters, q0: string, query: string,
                              prbPapers: map<string, Paper>, natPapers: map<string, Paper>, arxPapers: map<string, Paper>)
    requires WellKeyed(prbPapers) && WellKeyed(natPapers) && WellKeyed(arxPapers)
    requires f.prbToggle == f'.prbToggle && f.natToggle == f'.natToggle && f.arxToggle == f'.arxToggle
    ensures DoSearch(f, query, prbPapers, natPapers, arxPapers) == DoSearch(f', query, prbPapers, natPapers, arxPapers)
    ensures DoSearch(DoSearch(f, q0, prbPapers, natPapers, arxPapers), query, prbPapers, natPapers, arxPapers) == DoSearch(f, query, prbPapers, natPapers, arxPapers)
  {
  }

  /** A journal's hits are listed when there are any and its box is ticked. */
  predicate Shown(hits: map<string, Paper>, toggle: int) {
    |hits| > 0 && toggle == 1
  }

  /** The journals whose hit lists are shown, in the panel's fixed order. */
  function ShownSources(f: Filters): (r: seq<Source>)
    ensures PhysRevB in r <==> Shown(f.prbHits, f.prbToggle)
    ensures Nature in r <==> Shown(f.natHits, f.natToggle)
    ensures Arxiv in r <==> Shown(f.arxHits, f.arxToggle)
    ensures forall i, j :: 0 <= i < j < |r| ==> Rank(r[i]) < Rank(r[j])
  {
    (if Shown(f.prbHits, f.prbToggle) then [PhysRevB] else []) +
    (if Shown(f.natHits, f.natToggle) then [Nature] else []) +
    (if Shown(f.arxHits, f.arxToggle) then [Arxiv] else [])
  }

  /** The order the journals appear in. */
  function Rank(s: Source): nat {
    match s
    case PhysRevB => 0
    case Nature => 1
    case Arxiv => 2
  }

  /** The hits of one journal. */
  function HitsOf(f: Filters, s: Source): map<string, Paper> {
    match s
    case PhysRevB => f.prbHits
    case Nature => f.natHits
    case Arxiv => f.arxHits
  }

  /** The number of hits over all three journals. */
  function Total(f: Filters): nat {
    |f.prbHits| + |f.natHits| + |f.arxHits|
  }

  /** The papers listed on screen number at most the reported total, and the
      total does not drop when a journal is unticked. */
  lemma ShownWithinTotal(f: Filters)
    ensures ShownCount(f, ShownSources(f)) <= Total(f)
    ensures Total(f.(prbToggle := 0)) == Total(f) && Total(f.(natToggle := 0)) == Total(f)
      && Total(f.(arxToggle := 0)) == Total(f)
  {
    var first := if Shown(f.prbHits, f.prbToggle) then [PhysRevB] else [];
    var second := if Shown(f.natHits, f.natToggle) then [Nature] else [];
    var third := if Shown(f.arxHits, f.arxToggle) then [Arxiv] else [];
    ShownCountAppend(f, first + second, third);
    ShownCountAppend(f, first, second);
    ShownCountPart(f, PhysRevB, Shown(f.prbHits, f.prbToggle));
    ShownCountPart(f, Nature, Shown(f.natHits, f.natToggle));
    ShownCountPart(f, Arxiv, Shown(f.arxHits, f.arxToggle));
    assert ShownSources(f) == first + second + third;
  }

  /** A journal contributes its hits when shown and nothing otherwise. */
  lemma ShownCountPart(f: Filters, s: Source, shown: bool)
    ensures ShownCount(f, if shown then [s] else []) == if shown then |HitsOf(f, s)| else 0
  {
    if shown {
      assert [s][1..] == [];
    }
  }

  /** The number of papers listed for a list of journals. */
  function ShownCount(f: Filters, r: seq<Source>): nat
    decreases |r|
  {
    if |r| == 0 then 0 else |HitsOf(f, r[0])| + ShownCount(f, r[1..])
  }

  lemma {:induction false} ShownCountAppend(f: Filters, a: seq<Source>, b: seq<Source>)
    ensures ShownCount(f, a + b) == ShownCount(f, a) + ShownCount(f, b)
    decreases |a|
  {
    if |a| > 0 {
      assert (a + b)[1..] == a[1..] + b;
      ShownCountAppend(f, a[1..], b);
    } else {
      assert a + b == b;
    }
  }

  const Unsearched: string := "Search to see number of"
  const ResultsSuffix: string := " results"

  /** `_count_results`: the results text, `f'{num} results'`. It always reads
      "... results"; before any search it is the prompt, and after one its leading
      digits read back as the total number of hits. */
  function CountLabel(f: Filters): (text: string)
    ensures |text| > |ResultsSuffix|
    ensures text[|text| - |ResultsSuffix|..] == ResultsSuffix
    ensures !f.searched <==> text == "Search to see number of results"
    ensures f.searched ==>
      var digits := text[..|text| - |ResultsSuffix|];
      (forall i :: 0 <= i < |digits| ==> IsDigit(digits[i])) && ParseDecimal(digits) == Total(f)
  {
    if f.searched then
      var d := Decimal(Total(f));
      var text := d + ResultsSuffix;
      DecimalRoundTrip(Total(f));
      assert text[..|text| - |ResultsSuffix|] == d;
      assert text[0] != 'S' by { assert IsDigit(d[0]); }
      assert "Search to see number of results"[0] == 'S';
      text
    else
      Unsearched + ResultsSuffix
  }

  /** The count text depends on the hit lists only, never on the check buttons. */
  lemma CountIgnoresToggles(g: Filters)
    ensures CountLabel(g) == CountLabel(g.(prbToggle := 0, natToggle := 0, arxToggle := 0))
  {
    assert Total(g) == Total(g.(prbToggle := 0, natToggle := 0, arxToggle := 0));
  }

  /** The text after a search counts every hit of every journal, ticked or not. */
  lemma SearchCount(f: Filters, query: string, prbPapers: map<string, Paper>,
                    natPapers: map<string, Paper>, arxPapers: map<string, Paper>)
    requires WellKeyed(prbPapers) && WellKeyed(natPapers) && WellKeyed(arxPapers)
    ensures var g := DoSearch(f, query, prbPapers, natPapers, arxPapers);
      CountLabel(g) == CountLabel(g.(prbToggle := 0, natToggle := 0, arxToggle := 0))
    ensures CountLabel(DoSearch(f, "", prbPapers, natPapers, arxPapers)) == Decimal(|prbPapers| + |natPapers| + |arxPapers|) + ResultsSuffix
  {
    CountIgnoresToggles(DoSearch(f, query, prbPapers, natPapers, arxPapers));
    EmptySearchHitsAll(f, prbPapers, natPapers, arxPapers);
  }

  /** An empty search box puts every paper of every journal among the hits. */
  lemma EmptySearchHitsAll(f: Filters, prbPapers: map<string, Paper>, natPapers: map<string, Paper>,
                           arxPapers: map<string, Paper>)
    requires WellKeyed(prbPapers) && WellKeyed(natPapers) && WellKeyed(arxPapers)
    ensures var e := DoSearch(f, "", prbPapers, natPapers, arxPapers);
      e.prbHits == prbPapers && e.natHits == natPapers && e.arxHits == arxPapers
  {
    EmptyQueryKeepsAll(prbPapers);
    EmptyQueryKeepsAll(natPapers);
    EmptyQueryKeepsAll(arxPapers);
  }
}
