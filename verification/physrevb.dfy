/** Physical Review B: the title elements of the "recent" listing are filtered to
    the plain `<h5 class="title">` ones, and the k-th kept title is paired by
    position with the k-th author line, pub-info line and link. */
module PhysRevB {
  import opened PyStr
  import opened Papers

  /** The exact tag signature a title element must show to be kept. */
  const TitleMarker: string := "<h5 class=\"title\">"

  /** The host the listing's relative links are resolved against. */
  const Host: string := "https://journals.aps.org"

  /** An `h5.title` element as extracted from the page: its markup (`str(item)`),
      its text (`item.text`) and the `href` of its anchor. */
  datatype TitleFragment = TitleFragment(markup: string, text: string, href: string)

  /** The filter of the listing: only elements whose markup carries the exact signature. */
  predicate IsPlainTitle(f: TitleFragment) {
    Contains(f.markup, TitleMarker)
  }

  /** The title elements that pass the filter, in page order. */
  function Kept(titles: seq<TitleFragment>): (r: seq<TitleFragment>)
    ensures |r| <= |titles|
    ensures forall k :: 0 <= k < |r| ==> IsPlainTitle(r[k])
    decreases |titles|
  {
    if |titles| == 0 then []
    else
      var init := titles[..|titles| - 1];
      var last := titles[|titles| - 1];
      assert titles == init + [last];
      Kept(init) + (if IsPlainTitle(last) then [last] else [])
  }

  /** The filter keeps exactly the plain title elements. */
  lemma {:induction false} KeptMembers(titles: seq<TitleFragment>)
    ensures forall f :: f in Kept(titles) <==> f in titles && IsPlainTitle(f)
    decreases |titles|
  {
    if |titles| > 0 {
      var init := titles[..|titles| - 1];
      KeptMembers(init);
      assert titles == init + [titles[|titles| - 1]];
    }
  }

  /** The filter works element by element and keeps the page order: filtering two
      stretches of the listing one after the other is filtering the whole. */
  lemma {:induction false} KeptAppend(a: seq<TitleFragment>, b: seq<TitleFragment>)
    ensures Kept(a + b) == Kept(a) + Kept(b)
    decreases |b|
  {
    if |b| == 0 {
      assert a + b == a;
    } else {
      var init := b[..|b| - 1];
      var last := b[|b| - 1];
      assert (a + b)[..|a + b| - 1] == a + init;
      assert (a + b)[|a + b| - 1] == last;
      KeptAppend(a, init);
    }
  }

  /** Filtering a prefix of the listing gives a prefix of the filtered listing. */
  lemma {:induction false} KeptPrefix(titles: seq<TitleFragment>, n: nat)
    requires n <= |titles|
    ensures Kept(titles[..n]) <= Kept(titles)
    decreases |titles| - n
  {
    if n < |titles| {
      var m := n + 1;
      assert titles[..m][..n] == titles[..n];
      assert titles[..m][..|titles[..m]| - 1] == titles[..n];
      KeptPrefix(titles, m);
    } else {
      assert titles[..n] == titles;
    }
  }

  /** The links list: the `href` of every kept title, in order. */
  function KeptLinks(titles: seq<TitleFragment>): (links: seq<string>)
    ensures |links| == |Kept(titles)|
    ensures forall k :: 0 <= k < |links| ==> links[k] == Kept(titles)[k].href
  {
    var kept := Kept(titles);
    seq(|kept|, k requires 0 <= k < |kept| => kept[k].href)
  }

  /** The record the k-th kept title makes with the k-th author, link and pub-info entries. */
  function PairAt(kept: seq<TitleFragment>, authors: seq<string>, pubinfo: seq<string>, k: nat): Paper
    requires k < |kept| && k < |authors| && k < |pubinfo|
  {
    NewPaper(kept[k].text, authors[k], Host + kept[k].href, pubinfo[k])
  }

  /** The records of the listing, one per kept title, paired by position. */
  function PairKept(kept: seq<TitleFragment>, authors: seq<string>, pubinfo: seq<string>): (recs: seq<Paper>)
    requires |kept| <= |authors| && |kept| <= |pubinfo|
    ensures |recs| == |kept|
  {
    seq(|kept|, k requires 0 <= k < |kept| => PairAt(kept, authors, pubinfo, k))
  }

  /** Reference definition of `prb_papers`: the positional records collated by title. */
  function PhysRevBPapers(titles: seq<TitleFragment>, authors: seq<string>, pubinfo: seq<string>): map<string, Paper>
    requires |Kept(titles)| <= |authors| && |Kept(titles)| <= |pubinfo|
  {
    Collate(PairKept(Kept(titles), authors, pubinfo))
  }

  /** The collation loop of the listing: walks every title element, and for each
      kept one files a record under its text built from the entries at the
      running index, which advances only on kept elements. The author and
      pub-info lists are indexed without a bounds check, so they must be at
      least as long as the filtered title list. */
  method CollatePhysRevB(titles: seq<TitleFragment>, authors: seq<string>, pubinfo: seq<string>)
    returns (papers: map<string, Paper>)
    requires |Kept(titles)| <= |authors| && |Kept(titles)| <= |pubinfo|
    ensures papers == PhysRevBPapers(titles, authors, pubinfo)
  {
    var links := KeptLinks(titles);
    papers := map[];
    var inx := 0;
    for n := 0 to |titles|
      invariant LoopState(titles, authors, pubinfo, n, inx, papers)
    {
      papers, inx := FileTitle(titles, authors, pubinfo, links, n, inx, papers);
    }
    LoopDone(titles, authors, pubinfo, inx, papers);
  }

  /** The body of the collation loop for the title element at `n`. */
  method FileTitle(titles: seq<TitleFragment>, authors: seq<string>, pubinfo: seq<string>, links: seq<string>,
                   n: nat, inx: nat, papers: map<string, Paper>)
    returns (papers': map<string, Paper>, inx': nat)
    requires n < |titles| && links == KeptLinks(titles)
    requires LoopState(titles, authors, pubinfo, n, inx, papers)
    ensures LoopState(titles, authors, pubinfo, n + 1, inx', papers')
  {
    var item := titles[n];
    if IsPlainTitle(item) {
      LoopKept(titles, authors, pubinfo, n, inx, papers);
      var paper := NewPaper(item.text, authors[inx], Host + links[inx], pubinfo[inx]);
      papers' := papers[item.text := paper];
      inx' := inx + 1;
    } else {
      LoopSkipped(titles, authors, pubinfo, n, inx, papers);
      papers', inx' := papers, inx;
    }
  }

  /** What the loop keeps after its first `n` title elements: the running index
      counts the kept elements so far, which are the first `inx` of the filtered
      list, and the dictionary collates the records paired with them. */
  ghost predicate LoopState(titles: seq<TitleFragment>, authors: seq<string>, pubinfo: seq<string>,
                            n: nat, inx: nat, papers: map<string, Paper>)
  {
    && |Kept(titles)| <= |authors| && |Kept(titles)| <= |pubinfo|
    && n <= |titles|
    && inx == |Kept(titles[..n])| <= |Kept(titles)|
    && Kept(titles[..n]) == Kept(titles)[..inx]
    && papers == Collate(PairKept(Kept(titles)[..inx], authors, pubinfo))
  }

  /** A kept element is the next entry of the filtered list, its link is the next
      link, and filing its record keeps the loop state. */
  lemma LoopKept(titles: seq<TitleFragment>, authors: seq<string>, pubinfo: seq<string>,
                 n: nat, inx: nat, papers: map<string, Paper>)
    requires n < |titles| && IsPlainTitle(titles[n])
    requires LoopState(titles, authors, pubinfo, n, inx, papers)
    ensures var f := titles[n];
      var links := KeptLinks(titles);
      && inx < |links| && inx < |authors| && inx < |pubinfo|
      && links[inx] == f.href
      && LoopState(titles, authors, pubinfo, n + 1, inx + 1,
                   papers[f.text := NewPaper(f.text, authors[inx], Host + links[inx], pubinfo[inx])])
  {
    var all := Kept(titles);
    var f := titles[n];
    KeptStep(titles, n);
    KeptPrefix(titles, n + 1);
    assert inx < |all| && all[inx] == f by {
      assert Kept(titles[..n + 1]) == all[..inx] + [f];
      assert Kept(titles[..n + 1]) <= all;
    }
    assert all[..inx + 1] == all[..inx] + [f];
    PairKeptSnoc(all[..inx], f, authors, pubinfo);
    CollateSnoc(PairKept(all[..inx], authors, pubinfo), NewPaper(f.text, authors[inx], Host + f.href, pubinfo[inx]));
  }

  /** Any other element leaves the loop state as it is. */
  lemma LoopSkipped(titles: seq<TitleFragment>, authors: seq<string>, pubinfo: seq<string>,
                    n: nat, inx: nat, papers: map<string, Paper>)
    requires n < |titles| && !IsPlainTitle(titles[n])
    requires LoopState(titles, authors, pubinfo, n, inx, papers)
    ensures LoopState(titles, authors, pubinfo, n + 1, inx, papers)
  {
    KeptStep(titles, n);
  }

  /** After the last title element the loop state is the reference dictionary. */
  lemma LoopDone(titles: seq<TitleFragment>, authors: seq<string>, pubinfo: seq<string>,
                 inx: nat, papers: map<string, Paper>)
    requires LoopState(titles, authors, pubinfo, |titles|, inx, papers)
    ensures papers == PhysRevBPapers(titles, authors, pubinfo)
  {
    assert titles[..|titles|] == titles;
    assert Kept(titles)[..inx] == Kept(titles);
  }

  /** The listing's dictionary is keyed by title, holds at most one record per
      title element, and no abstract has been fetched yet. */
  lemma PhysRevBShape(titles: seq<TitleFragment>, authors: seq<string>, pubinfo: seq<string>)
    requires |Kept(titles)| <= |authors| && |Kept(titles)| <= |pubinfo|
    ensures var papers := PhysRevBPapers(titles, authors, pubinfo);
      && WellKeyed(papers) && |papers| <= |titles|
      && forall t :: t in papers ==> papers[t].abstractText == ""
  {
    CollateUnfetched(PairKept(Kept(titles), authors, pubinfo));
  }

  /** One more title element extends the filtered list by that element exactly when it is kept. */
  lemma KeptStep(titles: seq<TitleFragment>, n: nat)
    requires n < |titles|
    ensures Kept(titles[..n + 1]) == Kept(titles[..n]) + (if IsPlainTitle(titles[n]) then [titles[n]] else [])
  {
    assert titles[..n + 1][..n] == titles[..n];
  }

  /** Pairing one more kept title appends one record. */
  lemma PairKeptSnoc(kept: seq<TitleFragment>, f: TitleFragment, authors: seq<string>, pubinfo: seq<string>)
    requires |kept| < |authors| && |kept| < |pubinfo|
    ensures PairKept(kept + [f], authors, pubinfo) ==
      PairKept(kept, authors, pubinfo) + [NewPaper(f.text, authors[|kept|], Host + f.href, pubinfo[|kept|])]
  {
    var k2 := kept + [f];
    assert forall k :: 0 <= k < |kept| ==> k2[k] == kept[k];
  }

  /** A paper is listed exactly when some kept title element carries its title. */
  lemma PhysRevBKeys(titles: seq<TitleFragment>, authors: seq<string>, pubinfo: seq<string>, t: string)
    requires |Kept(titles)| <= |authors| && |Kept(titles)| <= |pubinfo|
    ensures t in PhysRevBPapers(titles, authors, pubinfo) <==>
      exists n :: 0 <= n < |titles| && IsPlainTitle(titles[n]) && titles[n].text == t
  {
    var kept := Kept(titles);
    var recs := PairKept(kept, authors, pubinfo);
    assert PhysRevBPapers(titles, authors, pubinfo).Keys == Titles(recs);
    if t in Titles(recs) {
      var i :| 0 <= i < |recs| && recs[i].title == t;
      assert kept[i].text == t;
      KeptFrom(titles, i);
    }
    if exists n :: 0 <= n < |titles| && IsPlainTitle(titles[n]) && titles[n].text == t {
      var n :| 0 <= n < |titles| && IsPlainTitle(titles[n]) && titles[n].text == t;
      KeptHas(titles, n);
      var i :| 0 <= i < |kept| && kept[i] == titles[n];
      assert recs[i].title == t;
    }
  }

  /** Every kept element is a plain title element of the listing. */
  lemma KeptFrom(titles: seq<TitleFragment>, i: nat)
    requires i < |Kept(titles)|
    ensures exists n :: 0 <= n < |titles| && titles[n] == Kept(titles)[i] && IsPlainTitle(titles[n])
  {
    KeptMembers(titles);
    assert Kept(titles)[i] in Kept(titles);
  }

  /** Every plain title element of the listing is kept. */
  lemma KeptHas(titles: seq<TitleFragment>, n: nat)
    requires n < |titles| && IsPlainTitle(titles[n])
    ensures exists i :: 0 <= i < |Kept(titles)| && Kept(titles)[i] == titles[n]
  {
    KeptMembers(titles);
    assert titles[n] in titles;
    assert titles[n] in Kept(titles);
  }

  /** Positional pairing: the record filed under the k-th kept title (when no later
      kept title repeats it) holds the k-th author and pub-info entries and that
      element's own link behind the journal host. */
  lemma PhysRevBPairing(titles: seq<TitleFragment>, authors: seq<string>, pubinfo: seq<string>, k: nat)
    requires |Kept(titles)| <= |authors| && |Kept(titles)| <= |pubinfo|
    requires k < |Kept(titles)|
    requires forall j :: k < j < |Kept(titles)| ==> Kept(titles)[j].text != Kept(titles)[k].text
    ensures var f := Kept(titles)[k];
      && f.text in PhysRevBPapers(titles, authors, pubinfo)
      && PhysRevBPapers(titles, authors, pubinfo)[f.text] == Paper(f.text, authors[k], Host + f.href, pubinfo[k], "")
  {
    var recs := PairKept(Kept(titles), authors, pubinfo);
    assert recs[k].title in Titles(recs);
    assert IsLastWith(recs, k, recs[k].title);
    CollateLastWins(recs, k);
  }
}
