/** The paper record every source produces, and the title-keyed dictionaries
    (`prb_papers`, `nat_papers`, `arx_papers`) they are collated into. */
module Papers {

  /** One of the three listings the scraper reads. */
  datatype Source = PhysRevB | Nature | Arxiv

  /** The per-paper dictionary `{'title', 'authors', 'link', 'pubinfo', 'abstract'}`. */
  datatype Paper = Paper(title: string, authors: string, link: string, pubinfo: string, abstractText: string)

  /** A record fresh from a listing: its abstract has not been fetched yet. */
  function NewPaper(title: string, authors: string, link: string, pubinfo: string): Paper {
    Paper(title, authors, link, pubinfo, "")
  }

  /** Every record is filed under its own title. */
  predicate WellKeyed(m: map<string, Paper>) {
    forall t :: t in m ==> m[t].title == t
  }

  /** The titles carried by a list of records. */
  function Titles(recs: seq<Paper>): set<string> {
    set i | 0 <= i < |recs| :: recs[i].title
  }

  /** Python's `papers[title] = {...}` applied to the records in order:
      a repeated title overwrites the earlier record. */
  function Collate(recs: seq<Paper>): (m: map<string, Paper>)
    ensures WellKeyed(m)
    ensures m.Keys == Titles(recs)
    ensures |m| <= |recs|
    decreases |recs|
  {
    if |recs| == 0 then map[]
    else
      var init := recs[..|recs| - 1];
      var last := recs[|recs| - 1];
      var m0 := Collate(init);
      TitlesLast(recs);
      UpdateSize(m0, last.title, last);
      m0[last.title := last]
  }

  /** The titles of a list of records: those before the last, and the last one's. */
  lemma TitlesLast(recs: seq<Paper>)
    requires |recs| > 0
    ensures Titles(recs) == Titles(recs[..|recs| - 1]) + {recs[|recs| - 1].title}
  {
    TitlesSnoc(recs[..|recs| - 1], recs[|recs| - 1]);
    assert recs[..|recs| - 1] + [recs[|recs| - 1]] == recs;
  }

  lemma TitlesSnoc(recs: seq<Paper>, p: Paper)
    ensures Titles(recs + [p]) == Titles(recs) + {p.title}
  {
    var r := recs + [p];
    assert forall i :: 0 <= i < |recs| ==> r[i] == recs[i];
    assert r[|recs|] == p;
  }

  /** Collating one more record files it under its title over whatever was there. */
  lemma CollateSnoc(recs: seq<Paper>, p: Paper)
    ensures Collate(recs + [p]) == Collate(recs)[p.title := p]
  {
    assert (recs + [p])[..|recs|] == recs;
  }

  /** Filing one more record grows a dictionary by at most one entry. */
  lemma UpdateSize(m: map<string, Paper>, k: string, v: Paper)
    ensures |m[k := v]| <= |m| + 1
  {
    var m' := m[k := v];
    assert m'.Keys == m.Keys + {k};
    if k in m {
      assert m'.Keys == m.Keys;
    }
  }

  /** The index of the last record carrying `title`, if any. */
  predicate IsLastWith(recs: seq<Paper>, i: int, title: string) {
    0 <= i < |recs| && recs[i].title == title &&
    forall j :: i < j < |recs| ==> recs[j].title != title
  }

  /** Last write wins: the record filed under a title is the last one in the input carrying it. */
  lemma {:induction false} CollateLastWins(recs: seq<Paper>, i: int)
    requires 0 <= i < |recs| && IsLastWith(recs, i, recs[i].title)
    ensures Collate(recs)[recs[i].title] == recs[i]
    decreases |recs|
  {
    if i < |recs| - 1 {
      var init := recs[..|recs| - 1];
      assert IsLastWith(init, i, init[i].title);
      CollateLastWins(init, i);
    }
  }

  /** Every record filed by a collation is one of its input records. */
  lemma {:induction false} CollateValues(recs: seq<Paper>, t: string)
    requires t in Collate(recs)
    ensures exists i :: 0 <= i < |recs| && Collate(recs)[t] == recs[i]
    decreases |recs|
  {
    var init := recs[..|recs| - 1];
    if recs[|recs| - 1].title != t {
      CollateValues(init, t);
      var i :| 0 <= i < |init| && Collate(init)[t] == init[i];
      assert recs[i] == init[i];
    }
  }

  /** Collating records that all start unfetched yields only unfetched abstracts. */
  lemma CollateUnfetched(recs: seq<Paper>)
    requires forall i :: 0 <= i < |recs| ==> recs[i].abstractText == ""
    ensures forall t :: t in Collate(recs) ==> Collate(recs)[t].abstractText == ""
  {
    forall t | t in Collate(recs)
      ensures Collate(recs)[t].abstractText == ""
    {
      CollateValues(recs, t);
    }
  }
}
