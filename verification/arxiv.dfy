/** arXiv: the "new submissions" listing of cond-mat. Each title block, author
    block and abstract-link anchor is turned into a record by slicing its text. */
module Arxiv {
  import opened Results
  import opened PyStr
  import opened Papers

  /** The marker the author block's text starts its name list after. */
  const AuthorsMarker: string := "\nAuthors:\n"
  /** The separator between names in the author block's text. */
  const NameSeparator: string := ", \n"
  /** The abstract page every link points into. */
  const AbsPrefix: string := "https://arxiv.org/abs/"
  /** The suffix every pub-info line carries (a space, an en dash, a space, "Recent"). */
  const RecentSuffix: string := " \U{2013} Recent"

  /** An anchor element of the page: its markup (`str(item)`) and its text. */
  datatype Anchor = Anchor(markup: string, text: string)

  /** The anchors kept as abstract links: markup pointing into `/abs` and mentioning "Abstract". */
  predicate IsAbstractLink(a: Anchor) {
    Contains(a.markup, "href=\"/abs") && Contains(a.markup, "Abstract")
  }

  /** The texts of the abstract-link anchors, in page order (`arx_pubinfo`). */
  function AbstractLinkTexts(anchors: seq<Anchor>): (r: seq<string>)
    ensures |r| <= |anchors|
    ensures forall k :: 0 <= k < |r| ==> IsLinkText(anchors, r[k])
    decreases |anchors|
  {
    if |anchors| == 0 then []
    else
      var rest := AbstractLinkTexts(anchors[1..]);
      LinkTextsOfTail(anchors, rest);
      if IsAbstractLink(anchors[0]) then
        assert IsLinkText(anchors, anchors[0].text);
        [anchors[0].text] + rest
      else rest
  }

  /** The link texts are exactly the texts of the abstract-link anchors. */
  lemma {:induction false} AbstractLinkTextsMembers(anchors: seq<Anchor>)
    ensures forall t :: t in AbstractLinkTexts(anchors) <==> IsLinkText(anchors, t)
    decreases |anchors|
  {
    if |anchors| > 0 {
      AbstractLinkTextsMembers(anchors[1..]);
      forall t | IsLinkText(anchors, t)
        ensures t in AbstractLinkTexts(anchors)
      {
        var n :| 0 <= n < |anchors| && IsAbstractLink(anchors[n]) && anchors[n].text == t;
        if n > 0 {
          assert anchors[1..][n - 1] == anchors[n];
          assert IsLinkText(anchors[1..], t);
        }
      }
    }
  }

  /** The filter works anchor by anchor and keeps the page order: filtering two
      stretches of anchors one after the other is filtering the whole. */
  lemma {:induction false} AbstractLinkTextsAppend(a: seq<Anchor>, b: seq<Anchor>)
    ensures AbstractLinkTexts(a + b) == AbstractLinkTexts(a) + AbstractLinkTexts(b)
    decreases |a|
  {
    if |a| == 0 {
      assert a + b == b;
    } else {
      assert (a + b)[0] == a[0];
      assert (a + b)[1..] == a[1..] + b;
      AbstractLinkTextsAppend(a[1..], b);
    }
  }

  /** `t` is the text of one of the abstract-link anchors. */
  predicate IsLinkText(anchors: seq<Anchor>, t: string) {
    exists n :: 0 <= n < |anchors| && IsAbstractLink(anchors[n]) && anchors[n].text == t
  }

  /** Texts of abstract links among the anchors after the first are texts of
      abstract links among all of them. */
  lemma LinkTextsOfTail(anchors: seq<Anchor>, rest: seq<string>)
    requires |anchors| > 0
    requires forall k :: 0 <= k < |rest| ==> IsLinkText(anchors[1..], rest[k])
    ensures forall k :: 0 <= k < |rest| ==> IsLinkText(anchors, rest[k])
  {
    forall k | 0 <= k < |rest|
      ensures IsLinkText(anchors, rest[k])
    {
      var n :| 0 <= n < |anchors[1..]| && IsAbstractLink(anchors[1..][n]) && anchors[1..][n].text == rest[k];
      assert anchors[1..][n] == anchors[n + 1];
    }
  }

  /** The title: the text after the first space, up to the first newline after it.
      A title block without a space raises `IndexError`. */
  function ArxivTitle(text: string): (r: Result<string>)
    ensures r.Ok? <==> Contains(text, " ")
    ensures r.Err? ==> r.error == IndexError
    ensures r.Ok? ==>
      var skip := |Head(text, " ")| + 1;
      && skip <= |text| && text[skip - 1] == ' '
      && StartsWith(text[skip..], r.value)
      && !Contains(r.value, "\n")
      && (skip + |r.value| == |text| || StartsWith(text[skip + |r.value|..], "\n"))
  {
    var rest :- AfterFirst(text, " ");
    var title := Head(rest, "\n");
    var skip := |Head(text, " ")| + 1;
    assert text[skip..] == rest;
    assert rest[|title|..] == text[skip + |title|..];
    Ok(title)
  }

  /** The author names: the text after the first "Authors:" line, split on the name
      separator, with the last name cut at its first newline. An author block
      without the marker raises `IndexError`. */
  function AuthorNames(text: string): (r: Result<seq<string>>)
    ensures r.Ok? <==> Contains(text, AuthorsMarker)
    ensures r.Err? ==> r.error == IndexError
    ensures r.Ok? ==> |r.value| == CountOcc(AfterFirst(text, AuthorsMarker).value, NameSeparator) + 1
    ensures r.Ok? ==> forall k :: 0 <= k < |r.value| ==> !Contains(r.value[k], NameSeparator)
    ensures r.Ok? ==> !Contains(r.value[|r.value| - 1], "\n")
  {
    var after :- AfterFirst(text, AuthorsMarker);
    var parts := Split(after, NameSeparator);
    SplitCount(after, NameSeparator);
    var last := Head(parts[|parts| - 1], "\n");
    PrefixKeepsAbsence(parts[|parts| - 1], last, NameSeparator);
    Ok(parts[..|parts| - 1] + [last])
  }

  /** The names cover the author text: joined back with the separator they give
      the text after the marker up to the newline that ended the last name. */
  lemma AuthorNamesCover(text: string)
    requires Contains(text, AuthorsMarker)
    ensures var after := AfterFirst(text, AuthorsMarker).value;
      var joined := Join(AuthorNames(text).value, NameSeparator);
      && StartsWith(after, joined)
      && (joined == after || StartsWith(after[|joined|..], "\n"))
  {
    var after := AfterFirst(text, AuthorsMarker).value;
    var parts := Split(after, NameSeparator);
    var last := Head(parts[|parts| - 1], "\n");
    assert AuthorNames(text).value == parts[..|parts| - 1] + [last];
    SplitJoin(after, NameSeparator);
    JoinCutLast(parts, NameSeparator, last);
  }

  /** The text added for the name at position `i` of `n`: the first name bare,
      the last (when not also the first) after ", and ", any other after ", ". */
  function NamePiece(names: seq<string>, i: nat): string
    requires i < |names|
  {
    if i == 0 then names[i]
    else if i == |names| - 1 then ", and " + names[i]
    else ", " + names[i]
  }

  /** The author-joining loop, one name per step from position `i` on. */
  function JoinFrom(names: seq<string>, i: nat, acc: string): string
    requires i <= |names|
    decreases |names| - i
  {
    if i == |names| then acc else JoinFrom(names, i + 1, acc + NamePiece(names, i))
  }

  /** The authors string of a record, as the loop builds it from the empty string. */
  function JoinAuthors(names: seq<string>): (r: string)
    ensures r == OxfordJoin(names)
  {
    JoinAuthorsIsOxford(names);
    JoinFrom(names, 0, "")
  }

  /** Reference form of the author list: the names but the last joined by ", ",
      then ", and " and the last name; a single name stands alone. */
  function OxfordJoin(names: seq<string>): string {
    if |names| == 0 then ""
    else if |names| == 1 then names[0]
    else Join(names[..|names| - 1], ", ") + ", and " + names[|names| - 1]
  }

  /** The loop builds exactly the reference author list, for any number of names. */
  lemma JoinAuthorsIsOxford(names: seq<string>)
    ensures JoinFrom(names, 0, "") == OxfordJoin(names)
  {
    var n := |names|;
    if n >= 1 {
      assert JoinFrom(names, 0, "") == JoinFrom(names, 1, "" + NamePiece(names, 0));
      assert "" + names[0] == names[0];
    }
    if n >= 2 {
      assert names[..1] == [names[0]];
      JoinFromMiddle(names, 1, Join(names[..1], ", "));
    }
  }

  /** From any position past the first name, with the names so far joined by ", ",
      the loop finishes with the reference list. */
  lemma {:induction false} JoinFromMiddle(names: seq<string>, i: nat, acc: string)
    requires 1 <= i < |names|
    requires acc == Join(names[..i], ", ")
    ensures JoinFrom(names, i, acc) == OxfordJoin(names)
    decreases |names| - i
  {
    if i == |names| - 1 {
      JoinLastName(names, acc);
    } else {
      JoinMiddleName(names, i, acc);
      JoinFromMiddle(names, i + 1, acc + NamePiece(names, i));
    }
  }

  /** The step for the last name closes the reference list. */
  lemma JoinLastName(names: seq<string>, acc: string)
    requires |names| >= 2
    requires acc == Join(names[..|names| - 1], ", ")
    ensures JoinFrom(names, |names| - 1, acc) == OxfordJoin(names)
  {
    var n := |names|;
    assert JoinFrom(names, n - 1, acc) == acc + NamePiece(names, n - 1);
  }

  /** The step for a middle name extends the names joined so far by one. */
  lemma JoinMiddleName(names: seq<string>, i: nat, acc: string)
    requires 1 <= i < |names| - 1
    requires acc == Join(names[..i], ", ")
    ensures JoinFrom(names, i, acc) == JoinFrom(names, i + 1, acc + NamePiece(names, i))
    ensures acc + NamePiece(names, i) == Join(names[..i + 1], ", ")
  {
    assert names[..i + 1] == names[..i] + [names[i]];
    JoinSnoc(names[..i], names[i], ", ");
  }

  /** Two names keep the comma before "and": the result is "a, and b". */
  lemma TwoAuthors(a: string, b: string)
    ensures JoinAuthors([a, b]) == a + ", and " + b
  {
    assert [a, b][..1] == [a];
  }

  /** The link: the abstract page of the identifier between the first and second
      ':' of the anchor text. An anchor text without ':' raises `IndexError`. */
  function ArxivLink(anchorText: string): (r: Result<string>)
    ensures r.Ok? <==> Contains(anchorText, ":")
    ensures r.Err? ==> r.error == IndexError
    ensures r.Ok? ==> StartsWith(r.value, AbsPrefix)
    ensures r.Ok? ==>
      var id := r.value[|AbsPrefix|..];
      && !Contains(id, ":")
      && IsHead(AfterFirst(anchorText, ":").value, ":", id)
  {
    ContainsCount(anchorText, ":");
    var id :- SplitAt(anchorText, ":", 1);
    IdIsSecondField(anchorText);
    assert (AbsPrefix + id)[|AbsPrefix|..] == id;
    Ok(AbsPrefix + id)
  }

  /** The second ':'-separated field is the text after the first ':' up to the next one. */
  lemma IdIsSecondField(s: string)
    requires Contains(s, ":")
    ensures SplitAt(s, ":", 1) == Ok(Head(AfterFirst(s, ":").value, ":"))
  {
    SplitAtNext(s, ":", 0);
  }

  /** One listing entry turned into a record; the first slicing that fails decides
      the error. A record starts with no abstract and carries the anchor text with
      the listing suffix as its pub-info. */
  function ArxivRecord(titleText: string, authorsText: string, anchorText: string): (r: Result<Paper>)
    ensures r.Ok? ==> r.value.abstractText == "" && r.value.pubinfo == anchorText + RecentSuffix
  {
    var title :- ArxivTitle(titleText);
    var names :- AuthorNames(authorsText);
    var link :- ArxivLink(anchorText);
    Ok(NewPaper(title, JoinAuthors(names), link, anchorText + RecentSuffix))
  }

  /** An entry yields a record exactly when all three slicings succeed, and the
      record holds the sliced title, the reference author list and the
      abstract-page link. */
  lemma ArxivRecordSpec(titleText: string, authorsText: string, anchorText: string)
    ensures var r := ArxivRecord(titleText, authorsText, anchorText);
      && (r.Ok? <==> Contains(titleText, " ") && Contains(authorsText, AuthorsMarker) && Contains(anchorText, ":"))
      && (r.Ok? ==>
        && r.value.title == ArxivTitle(titleText).value
        && r.value.authors == OxfordJoin(AuthorNames(authorsText).value)
        && r.value.link == ArxivLink(anchorText).value)
  {
  }

  /** The records of entries `i..` of three parallel lists, each entry turned into a
      record by `record`, or the error of the first entry that fails. */
  function RecordsWith(titles: seq<string>, authors: seq<string>, pubinfo: seq<string>, i: nat,
                       record: (string, string, string) -> Result<Paper>): (r: Result<seq<Paper>>)
    requires i <= |titles| <= |authors| && |titles| <= |pubinfo|
    ensures r.Ok? <==> forall k :: i <= k < |titles| ==> record(titles[k], authors[k], pubinfo[k]).Ok?
    ensures r.Ok? ==> |r.value| == |titles| - i
    ensures r.Ok? ==> forall k :: 0 <= k < |r.value| ==> Ok(r.value[k]) == record(titles[i + k], authors[i + k], pubinfo[i + k])
    decreases |titles| - i
  {
    if i == |titles| then Ok([])
    else
      var head := record(titles[i], authors[i], pubinfo[i]);
      var tail := RecordsWith(titles, authors, pubinfo, i + 1, record);
      if head.Err? then Err(head.error)
      else if tail.Err? then Err(tail.error)
      else
        var recs := [head.value] + tail.value;
        assert forall k :: 1 <= k < |recs| ==> recs[k] == tail.value[k - 1];
        Ok(recs)
  }

  /** The records of listing entries `i..`, or the error of the first entry that fails. */
  function ArxivRecords(titles: seq<string>, authors: seq<string>, pubinfo: seq<string>, i: nat): (r: Result<seq<Paper>>)
    requires i <= |titles| <= |authors| && |titles| <= |pubinfo|
    ensures r.Ok? <==> forall k :: i <= k < |titles| ==> ArxivRecord(titles[k], authors[k], pubinfo[k]).Ok?
    ensures r.Ok? ==> |r.value| == |titles| - i
    ensures r.Ok? ==> forall k :: 0 <= k < |r.value| ==> Ok(r.value[k]) == ArxivRecord(titles[i + k], authors[i + k], pubinfo[i + k])
  {
    RecordsWith(titles, authors, pubinfo, i, ArxivRecord)
  }

  /** The titles the listing's title blocks slice to. */
  function TitleSet(titles: seq<string>): set<string> {
    set k | 0 <= k < |titles| && ArxivTitle(titles[k]).Ok? :: ArxivTitle(titles[k]).value
  }

  /** `arx_papers`: every entry of the listing collated by title. The author and
      abstract-link lists are indexed without a bounds check, so they must be at
      least as long as the title list. */
  function ArxivPapers(titles: seq<string>, authors: seq<string>, anchors: seq<Anchor>): (r: Result<map<string, Paper>>)
    requires |titles| <= |authors| && |titles| <= |AbstractLinkTexts(anchors)|
    ensures r.Ok? <==> forall k :: 0 <= k < |titles| ==>
      ArxivRecord(titles[k], authors[k], AbstractLinkTexts(anchors)[k]).Ok?
    ensures r.Ok? ==> WellKeyed(r.value) && |r.value| <= |titles|
    ensures r.Ok? ==> r.value.Keys == TitleSet(titles)
    ensures r.Ok? ==> forall t :: t in r.value ==>
      && r.value[t].abstractText == ""
      && StartsWith(r.value[t].link, AbsPrefix)
      && exists k :: 0 <= k < |titles| && r.value[t].pubinfo == AbstractLinkTexts(anchors)[k] + RecentSuffix
  {
    var pubinfo := AbstractLinkTexts(anchors);
    var recs :- ArxivRecords(titles, authors, pubinfo, 0);
    var m := Collate(recs);
    ArxivKeys(titles, authors, pubinfo, recs);
    forall t | t in m
      ensures m[t].abstractText == "" && StartsWith(m[t].link, AbsPrefix)
      ensures exists k :: 0 <= k < |titles| && m[t].pubinfo == pubinfo[k] + RecentSuffix
    {
      CollateValues(recs, t);
      var k :| 0 <= k < |recs| && m[t] == recs[k];
      ArxivRecordSpec(titles[k], authors[k], pubinfo[k]);
    }
    Ok(m)
  }

  /** The records of a whole listing carry exactly the sliced titles. */
  lemma ArxivKeys(titles: seq<string>, authors: seq<string>, pubinfo: seq<string>, recs: seq<Paper>)
    requires |titles| <= |authors| && |titles| <= |pubinfo|
    requires ArxivRecords(titles, authors, pubinfo, 0) == Ok(recs)
    ensures Titles(recs) == TitleSet(titles)
  {
    forall k | 0 <= k < |titles|
      ensures ArxivTitle(titles[k]).Ok? && recs[k].title == ArxivTitle(titles[k]).value
    {
      ArxivRecordSpec(titles[k], authors[k], pubinfo[k]);
    }
  }

  /** Pairing: the record filed under the title of entry `k`, when no later entry
      slices to the same title, is the record made from the `k`-th title block,
      the `k`-th author block and the `k`-th abstract link. */
  lemma ArxivPairing(titles: seq<string>, authors: seq<string>, anchors: seq<Anchor>, k: nat)
    requires |titles| <= |authors| && |titles| <= |AbstractLinkTexts(anchors)|
    requires ArxivPapers(titles, authors, anchors).Ok?
    requires k < |titles|
    requires forall j :: k < j < |titles| ==> ArxivTitle(titles[j]) != ArxivTitle(titles[k])
    ensures var m := ArxivPapers(titles, authors, anchors).value;
      var rec := ArxivRecord(titles[k], authors[k], AbstractLinkTexts(anchors)[k]);
      rec.Ok? && rec.value.title in m && m[rec.value.title] == rec.value
  {
    var pubinfo := AbstractLinkTexts(anchors);
    var recs := ArxivRecords(titles, authors, pubinfo, 0).value;
    assert ArxivPapers(titles, authors, anchors) == Ok(Collate(recs));
    ArxivLast(titles, authors, pubinfo, recs, k);
    CollateLastWins(recs, k);
  }

  /** Entry `k` is the last entry slicing to its title, so its record is the last with that title. */
  lemma ArxivLast(titles: seq<string>, authors: seq<string>, pubinfo: seq<string>, recs: seq<Paper>, k: nat)
    requires |titles| <= |authors| && |titles| <= |pubinfo|
    requires ArxivRecords(titles, authors, pubinfo, 0) == Ok(recs)
    requires k < |titles|
    requires forall j :: k < j < |titles| ==> ArxivTitle(titles[j]) != ArxivTitle(titles[k])
    ensures IsLastWith(recs, k, recs[k].title)
  {
    ArxivRecordSpec(titles[k], authors[k], pubinfo[k]);
    forall j | k < j < |recs|
      ensures recs[j].title != recs[k].title
    {
      ArxivRecordSpec(titles[j], authors[j], pubinfo[j]);
    }
  }
}
