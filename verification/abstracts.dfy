/** Opening a paper's abstract: the abstract is fetched from the paper's page the
    first time and cached in the paper record; an empty abstract means "not
    fetched yet". The page itself is an input: `page(link)` stands for the text
    of every `<p>` element of the page at `link`. */
module Abstracts {
  import opened Results
  import opened PyStr
  import opened Papers
  import opened Search

  /** What opening an abstract yields: the text shown, the record with that text
      filed as its abstract, and the page requested (`None` when cached). */
  datatype Opened = Opened(shown: string, paper: Paper, request: Option<string>)

  /** How each journal's abstract is pulled out of the paper page's paragraphs:
      Physical Review B takes the first paragraph; Nature and arXiv have no rule,
      so the abstract variable is never bound. */
  function ExtractAbstract(src: Source, paragraphs: seq<string>): (r: Result<string>)
    ensures src == PhysRevB ==> (r.Ok? <==> |paragraphs| > 0)
    ensures src == PhysRevB && r.Ok? ==> r.value == paragraphs[0]
    ensures src == PhysRevB && r.Err? ==> r.error == IndexError
    ensures src != PhysRevB ==> r == Err(UnboundLocal)
  {
    match src
    case PhysRevB => if |paragraphs| == 0 then Err(IndexError) else Ok(paragraphs[0])
    case Nature => Err(UnboundLocal)
    case Arxiv => Err(UnboundLocal)
  }

  /** `_get_abstract` with the extraction rule chosen by the journal the paper was
      listed from. The cache: a fetched abstract is shown without a request; an
      unfetched one (empty abstract) costs exactly one request, for the paper's
      own link, and only its abstract changes in the record. For Physical
      Review B the outcome is the first paragraph of the page, or an index
      error when the page has none. */
  function OpenAbstract(src: Source, journal: map<string, Paper>, key: string,
                        page: string -> seq<string>): (r: Result<Opened>)
    requires key in journal
    ensures var p := journal[key];
      && (p.abstractText != "" ==> r == Ok(Opened(p.abstractText, p, None)))
      && (p.abstractText == "" && r.Ok? ==>
            && r.value.request == Some(p.link)
            && r.value.paper == p.(abstractText := r.value.shown))
      && (p.abstractText == "" && src == PhysRevB ==>
            && (r.Ok? <==> |page(p.link)| > 0)
            && (r.Ok? ==> r.value.shown == page(p.link)[0])
            && (r.Err? ==> r.error == IndexError))
      && (p.abstractText == "" && src != PhysRevB ==> r == Err(UnboundLocal))
  {
    var p := journal[key];
    if p.abstractText == "" then
      var text :- ExtractAbstract(src, page(p.link));
      Ok(Opened(text, p.(abstractText := text), Some(p.link)))
    else
      Ok(Opened(p.abstractText, p, None))
  }

  /** Files an opened record back under its key (`journal[paper]['abstract'] = abstract`). */
  function Store(journal: map<string, Paper>, key: string, o: Opened): (m: map<string, Paper>)
    requires key in journal
    ensures m.Keys == journal.Keys && m[key] == o.paper
    ensures forall t :: t in m && t != key ==> m[t] == journal[t]
  {
    journal[key := o.paper]
  }

  /** Filing an opened abstract keeps the dictionary keyed by title and changes
      nothing but that one record's abstract. */
  lemma StoreKeepsShape(src: Source, journal: map<string, Paper>, key: string,
                        page: string -> seq<string>)
    requires key in journal && WellKeyed(journal)
    requires OpenAbstract(src, journal, key, page).Ok?
    ensures var m := Store(journal, key, OpenAbstract(src, journal, key, page).value);
      && WellKeyed(m) && m.Keys == journal.Keys
      && (forall t :: t in m && t != key ==> m[t] == journal[t])
      && m[key] == journal[key].(abstractText := m[key].abstractText)
  {
  }

  /** Opening the same paper again after filing a non-empty abstract makes no
      request and shows the same text. */
  lemma SecondOpenIsCached(src: Source, journal: map<string, Paper>, key: string,
                           page: string -> seq<string>, page': string -> seq<string>)
    requires key in journal
    requires OpenAbstract(src, journal, key, page).Ok?
    requires OpenAbstract(src, journal, key, page).value.shown != ""
    ensures var o := OpenAbstract(src, journal, key, page).value;
      var again := OpenAbstract(src, Store(journal, key, o), key, page');
      again.Ok? && again.value.request.None? && again.value.shown == o.shown
  {
  }

  /** An empty abstract is indistinguishable from "not fetched yet": when the page's
      first paragraph is empty, the next opening requests the page again. */
  lemma EmptyAbstractIsRefetched(journal: map<string, Paper>, key: string,
                                 page: string -> seq<string>)
    requires key in journal && journal[key].abstractText == ""
    requires |page(journal[key].link)| > 0 && page(journal[key].link)[0] == ""
    ensures var o := OpenAbstract(PhysRevB, journal, key, page).value;
      OpenAbstract(PhysRevB, Store(journal, key, o), key, page).value.request == Some(journal[key].link)
  {
  }

  /** The function as written: the Physical Review B rule is chosen by comparing
      the dictionary the paper was listed from with the whole `prb_papers`
      dictionary, so it applies only when the two are equal; any other
      dictionary leaves the abstract unbound. */
  function OpenAbstractAsWritten(journal: map<string, Paper>, key: string,
                                 prbPapers: map<string, Paper>, page: string -> seq<string>): (r: Result<Opened>)
    requires key in journal
    ensures var p := journal[key];
      && (p.abstractText != "" ==> r == Ok(Opened(p.abstractText, p, None)))
      && (p.abstractText == "" && journal != prbPapers ==> r == Err(UnboundLocal))
      && (p.abstractText == "" && journal == prbPapers ==>
            && (r.Ok? <==> |page(p.link)| > 0)
            && (r.Ok? ==> r.value == Opened(page(p.link)[0], p.(abstractText := page(p.link)[0]), Some(p.link)))
            && (r.Err? ==> r.error == IndexError))
  {
    var p := journal[key];
    if p.abstractText == "" then
      if journal == prbPapers then
        var paragraphs := page(p.link);
        if |paragraphs| == 0 then Err(IndexError)
        else Ok(Opened(paragraphs[0], p.(abstractText := paragraphs[0]), Some(p.link)))
      else Err(UnboundLocal)
    else
      Ok(Opened(p.abstractText, p, None))
  }

  /** Listed from the whole Physical Review B dictionary, the code as written and
      the corrected rule agree. */
  lemma AsWrittenAgreesOnFullListing(key: string, prbPapers: map<string, Paper>,
                                     page: string -> seq<string>)
    requires key in prbPapers
    ensures OpenAbstractAsWritten(prbPapers, key, prbPapers, page) ==
            OpenAbstract(PhysRevB, prbPapers, key, page)
  {
  }

  const Graphene: Paper := Paper("Graphene", "A. Author", "https://journals.aps.org/a", "", "")
  const Other: Paper := Paper("Other", "B. Author", "https://journals.aps.org/b", "", "")

  /** The query "graphene" hits the paper titled "Graphene". */
  lemma GrapheneIsHit()
    ensures Hit(Lower("graphene"), Graphene)
  {
    var q := Lower("graphene");
    assert q == "graphene";
    assert Lower(Graphene.title) == q;
    assert StartsWith(Lower(Graphene.title)[0..], q);
    ContainsIff(Lower(Graphene.title), q);
  }

  /** The query "graphene" misses the paper titled "Other", whose abstract is empty. */
  lemma OtherIsMissed()
    ensures !Hit(Lower("graphene"), Other)
  {
    var q := Lower("graphene");
    assert |Lower(Other.title)| < |q|;
    ContainsIff(Lower(Other.title), q);
    ContainsIff(Other.abstractText, q);
  }

  /** The query "graphene" hits the first of the two papers and not the second. */
  lemma GrapheneHits()
    ensures HitSet(Lower("graphene"), map[Graphene.title := Graphene, Other.title := Other]) ==
            map[Graphene.title := Graphene]
  {
    var prb := map[Graphene.title := Graphene, Other.title := Other];
    GrapheneIsHit();
    OtherIsMissed();
    var hits := HitSet(Lower("graphene"), prb);
    assert hits.Keys == {Graphene.title};
  }

  /** After searching "graphene" over two Physical Review B papers, the hit list
      holds one of them; opening its abstract from that list fails with an
      unbound local under the code as written, while the corrected rule fetches
      the first paragraph. */
  lemma FilteredListingLosesAbstract()
    ensures var prb := map[Graphene.title := Graphene, Other.title := Other];
      var hits := map[Graphene.title := Graphene];
      var page := (link: string) => ["An abstract."];
      && HitSet(Lower("graphene"), prb) == hits
      && OpenAbstractAsWritten(hits, Graphene.title, prb, page) == Err(UnboundLocal)
      && OpenAbstract(PhysRevB, hits, Graphene.title, page) ==
         Ok(Opened("An abstract.", Graphene.(abstractText := "An abstract."), Some(Graphene.link)))
  {
    var prb := map[Graphene.title := Graphene, Other.title := Other];
    GrapheneHits();
    var hits := map[Graphene.title := Graphene];
    assert Other.title in prb && Other.title !in hits;
  }

  /** The intended behaviour, which the corrected rule has: a Physical Review B
      paper's abstract opens the same way from any sub-dictionary of
      `prb_papers`, such as a search's hit list. */
  lemma SameOutcomeFromAnyView(view: map<string, Paper>, prbPapers: map<string, Paper>, key: string,
                               page: string -> seq<string>)
    requires key in view && key in prbPapers && view[key] == prbPapers[key]
    ensures OpenAbstract(PhysRevB, view, key, page) == OpenAbstract(PhysRevB, prbPapers, key, page)
    ensures prbPapers[key].abstractText == "" && |page(prbPapers[key].link)| > 0 ==>
      OpenAbstract(PhysRevB, view, key, page).Ok?
  {
  }
}
