/** Nature: the condensed-matter search results. Titles and links come from the
    article anchors; author and publication text comes from a flat list of info
    items, which a matching loop walks while consuming the titles in order. */
module Nature {
  import opened Results
  import opened PyStr
  import opened Papers

  /** The info item that ends an author run. */
  const Sentinel: string := "Opens in a new window"
  /** The separator in front of the publication date. */
  const DateSeparator: string := " | "
  /** The rights notice that ends the journal name ("Rights" and a no-break space). */
  const RightsMarker: string := "Rights\U{00A0}"
  /** The text between the journal name and the date (an en dash between spaces). */
  const PublishedInfix: string := " \U{2013} Published "

  /** An anchor of a results page: markup (`str(item)`), text and `href`. */
  datatype Anchor = Anchor(markup: string, text: string, href: string)
  /** A list item of a results page: markup and text. */
  datatype Item = Item(markup: string, text: string)
  /** One results page as extracted from its markup. */
  datatype Page = Page(anchors: seq<Anchor>, items: seq<Item>)

  /** The anchors that point at an article, in page order. */
  function Articles(anchors: seq<Anchor>): (r: seq<Anchor>)
    ensures |r| <= |anchors|
    ensures forall k :: 0 <= k < |r| ==> Contains(r[k].markup, "nature.com/articles")
    decreases |anchors|
  {
    if |anchors| == 0 then []
    else (if Contains(anchors[0].markup, "nature.com/articles") then [anchors[0]] else []) + Articles(anchors[1..])
  }

  /** The texts of the list items whose markup mentions "author", in page order. */
  function InfoTexts(items: seq<Item>): (r: seq<string>)
    ensures |r| <= |items|
    decreases |items|
  {
    if |items| == 0 then []
    else (if Contains(items[0].markup, "author") then [items[0].text] else []) + InfoTexts(items[1..])
  }

  /** The filter keeps exactly the anchors pointing at an article. */
  lemma {:induction false} ArticlesMembers(anchors: seq<Anchor>)
    ensures forall a :: a in Articles(anchors) <==> a in anchors && Contains(a.markup, "nature.com/articles")
    decreases |anchors|
  {
    if |anchors| > 0 {
      ArticlesMembers(anchors[1..]);
      assert anchors == [anchors[0]] + anchors[1..];
    }
  }

  /** The article filter works anchor by anchor and keeps the page order. */
  lemma {:induction false} ArticlesAppend(a: seq<Anchor>, b: seq<Anchor>)
    ensures Articles(a + b) == Articles(a) + Articles(b)
    decreases |a|
  {
    if |a| == 0 {
      assert a + b == b;
    } else {
      assert (a + b)[0] == a[0];
      assert (a + b)[1..] == a[1..] + b;
      ArticlesAppend(a[1..], b);
    }
  }

  /** `t` is the text of a list item whose markup mentions "author". */
  predicate IsInfoText(items: seq<Item>, t: string) {
    exists n :: 0 <= n < |items| && Contains(items[n].markup, "author") && items[n].text == t
  }

  /** The info texts are exactly the texts of the items mentioning "author". */
  lemma {:induction false} InfoTextsMembers(items: seq<Item>)
    ensures forall t :: t in InfoTexts(items) <==> IsInfoText(items, t)
    decreases |items|
  {
    if |items| > 0 {
      InfoTextsMembers(items[1..]);
      forall t | IsInfoText(items[1..], t)
        ensures IsInfoText(items, t)
      {
        var n :| 0 <= n < |items[1..]| && Contains(items[1..][n].markup, "author") && items[1..][n].text == t;
        assert items[1..][n] == items[n + 1];
      }
      forall t | IsInfoText(items, t)
        ensures t in InfoTexts(items)
      {
        var n :| 0 <= n < |items| && Contains(items[n].markup, "author") && items[n].text == t;
        if n > 0 {
          assert items[1..][n - 1] == items[n];
          assert IsInfoText(items[1..], t);
        }
      }
    }
  }

  /** The info filter works item by item and keeps the page order. */
  lemma {:induction false} InfoTextsAppend(a: seq<Item>, b: seq<Item>)
    ensures InfoTexts(a + b) == InfoTexts(a) + InfoTexts(b)
    decreases |a|
  {
    if |a| == 0 {
      assert a + b == b;
    } else {
      var head := if Contains(a[0].markup, "author") then [a[0].text] else [];
      assert (a + b)[0] == a[0];
      assert (a + b)[1..] == a[1..] + b;
      InfoTextsAppend(a[1..], b);
      calc {
        InfoTexts(a + b);
        head + InfoTexts(a[1..] + b);
        head + (InfoTexts(a[1..]) + InfoTexts(b));
        (head + InfoTexts(a[1..])) + InfoTexts(b);
      }
    }
  }

  /** Where the author scan stopped and what it gathered. */
  datatype Scan = Scan(authors: string, stop: nat)

  /** The author scan from item `k` on with `acc` gathered so far: stop at an item
      holding the sentinel, or right after the item that brings the index to six
      before the end; reading past the last item raises `IndexError`. */
  function ScanAuthors(info: seq<string>, k: nat, acc: string): (r: Result<Scan>)
    ensures r.Err? ==> r.error == IndexError && |info| - 6 <= k
    ensures r.Ok? ==>
      var e := r.value.stop;
      && k <= e <= |info|
      && (forall m :: k <= m < e ==> !Contains(info[m], Sentinel))
      && ((e < |info| && Contains(info[e], Sentinel)) || (k < e == |info| - 6))
    decreases |info| - k
  {
    if k >= |info| then Err(IndexError)
    else if Contains(info[k], Sentinel) then Ok(Scan(acc, k))
    else if k + 1 == |info| - 6 then Ok(Scan(acc + info[k], k + 1))
    else ScanAuthors(info, k + 1, acc + info[k])
  }

  /** The scan fails exactly when it starts within six items of the end and no
      later item holds the sentinel. Otherwise it gathers, after `acc`, the items
      from `k` up to where it stopped, none of which holds the sentinel, and it
      stopped at an item holding the sentinel or right after bringing the index
      to six before the end. */
  lemma ScanAuthorsSpec(info: seq<string>, k: nat, acc: string)
    ensures var r := ScanAuthors(info, k, acc);
      r.Err? <==> |info| - 6 <= k && forall m :: k <= m < |info| ==> !Contains(info[m], Sentinel)
    ensures var r := ScanAuthors(info, k, acc);
      r.Err? ==> r.error == IndexError
    ensures var r := ScanAuthors(info, k, acc);
      r.Ok? ==>
        var e := r.value.stop;
        && k <= e <= |info|
        && r.value.authors == acc + Concat(info[k..e])
        && (forall m :: k <= m < e ==> !Contains(info[m], Sentinel))
        && ((e < |info| && Contains(info[e], Sentinel)) || (k < e == |info| - 6))
  {
    ScanAuthorsFails(info, k, acc);
    ScanAuthorsGathers(info, k, acc);
  }

  /** When the author scan fails, and why. */
  lemma {:induction false} ScanAuthorsFails(info: seq<string>, k: nat, acc: string)
    ensures var r := ScanAuthors(info, k, acc);
      r.Err? <==> |info| - 6 <= k && forall m :: k <= m < |info| ==> !Contains(info[m], Sentinel)
    ensures ScanAuthors(info, k, acc).Err? ==> ScanAuthors(info, k, acc).error == IndexError
    decreases |info| - k
  {
    if k < |info| && !Contains(info[k], Sentinel) && k + 1 != |info| - 6 {
      ScanAuthorsFails(info, k + 1, acc + info[k]);
    }
  }

  /** What a successful author scan gathers and where it stops. */
  lemma {:induction false} ScanAuthorsGathers(info: seq<string>, k: nat, acc: string)
    ensures var r := ScanAuthors(info, k, acc);
      r.Ok? ==>
        var e := r.value.stop;
        && k <= e <= |info|
        && r.value.authors == acc + Concat(info[k..e])
        && (forall m :: k <= m < e ==> !Contains(info[m], Sentinel))
        && ((e < |info| && Contains(info[e], Sentinel)) || (k < e == |info| - 6))
    decreases |info| - k
  {
    if k >= |info| {
    } else if Contains(info[k], Sentinel) {
      assert info[k..k] == [];
    } else if k + 1 == |info| - 6 {
      assert info[k..k + 1] == [info[k]];
      assert Concat([info[k]]) == info[k] + Concat([]);
    } else {
      ScanAuthorsGathers(info, k + 1, acc + info[k]);
      var r := ScanAuthors(info, k + 1, acc + info[k]);
      if r.Ok? {
        GatheredStep(info, k, acc, r.value.stop);
      }
    }
  }

  /** Gathering one more item in front: what the scan from `k + 1` gathered after
      `acc + info[k]` is what a scan from `k` gathers after `acc`. */
  lemma GatheredStep(info: seq<string>, k: nat, acc: string, e: nat)
    requires k < e <= |info|
    ensures (acc + info[k]) + Concat(info[k + 1..e]) == acc + Concat(info[k..e])
  {
    assert info[k..e] == [info[k]] + info[k + 1..e];
  }

  /** The inner `while` loop of the matching loop: gathers the author items after
      the matched item `i`. */
  method AccumulateAuthors(info: seq<string>, i: nat) returns (r: Result<Scan>)
    requires i < |info|
    ensures r == ScanAuthors(info, i + 1, "")
  {
    var k := i + 1;
    var authors := "";
    while k < |info|
      invariant i + 1 <= k <= |info|
      invariant ScanAuthors(info, i + 1, "") == ScanAuthors(info, k, authors)
      decreases |info| - k
    {
      if Contains(info[k], Sentinel) {
        return Ok(Scan(authors, k));
      }
      authors := authors + info[k];
      k := k + 1;
      if k == |info| - 6 {
        return Ok(Scan(authors, k));
      }
    }
    return Err(IndexError);
  }

  /** The pub-info of a matched item: the text between the first and second
      occurrences of the author text, up to the rights notice, then the infix,
      then the second " | " field up to the title. A missing field raises
      `IndexError`; an empty title or author text raises `ValueError`. */
  function NaturePubInfo(item: string, title: string, authors: string): (r: Result<string>)
    ensures r.Ok? ==> title != "" && authors != ""
    ensures r.Ok? ==> 0 < CountOcc(item, DateSeparator) && 0 < CountOcc(item, authors)
    ensures title == "" && 0 < CountOcc(item, DateSeparator) ==> r == Err(EmptySeparator)
    ensures title != "" && authors == "" && 0 < CountOcc(item, DateSeparator) ==> r == Err(EmptySeparator)
  {
    var dateField :- SplitAt(item, DateSeparator, 1);
    var date :- SplitAt(dateField, title, 0);
    var branchField :- SplitAt(item, authors, 1);
    var branch := Head(branchField, RightsMarker);
    Ok(branch + PublishedInfix + date)
  }

  /** The pub-info exists exactly when the title and author text are non-empty and
      the item holds both " | " and the author text. It is then the journal name,
      the infix and the date, where the journal name is the text after the first
      occurrence of the author text, cut at the next occurrence of the author text
      and then at the rights notice, and the date is the text after the first
      " | ", cut at the next " | " and then at the title. */
  lemma NaturePubInfoSpec(item: string, title: string, authors: string)
    ensures var r := NaturePubInfo(item, title, authors);
      r.Ok? <==> title != "" && authors != "" && Contains(item, DateSeparator) && Contains(item, authors)
    ensures var r := NaturePubInfo(item, title, authors);
      r.Ok? ==>
        var branchField := Head(AfterFirst(item, authors).value, authors);
        var dateField := Head(AfterFirst(item, DateSeparator).value, DateSeparator);
        r.value == Head(branchField, RightsMarker) + PublishedInfix + Head(dateField, title)
  {
    ContainsCount(item, DateSeparator);
    if authors != "" {
      ContainsCount(item, authors);
    }
    if title != "" && authors != "" && Contains(item, DateSeparator) && Contains(item, authors) {
      SplitAtNext(item, DateSeparator, 0);
      SplitAtNext(item, authors, 0);
    }
  }

  /** Any journal name and date meeting the cut description make up the pub-info:
      the journal name is the head of the text between the first two occurrences
      of the author text before the rights notice, and the date is the head of the
      second " | " field before the title. */
  lemma NaturePubInfoParts(item: string, title: string, authors: string, branch: string, date: string)
    requires title != "" && authors != "" && Contains(item, DateSeparator) && Contains(item, authors)
    requires IsHead(Head(AfterFirst(item, authors).value, authors), RightsMarker, branch)
    requires IsHead(Head(AfterFirst(item, DateSeparator).value, DateSeparator), title, date)
    ensures NaturePubInfo(item, title, authors) == Ok(branch + PublishedInfix + date)
  {
    NaturePubInfoSpec(item, title, authors);
    var branchField := Head(AfterFirst(item, authors).value, authors);
    var dateField := Head(AfterFirst(item, DateSeparator).value, DateSeparator);
    HeadUnique(branchField, RightsMarker, branch, Head(branchField, RightsMarker));
    HeadUnique(dateField, title, date, Head(dateField, title));
  }

  /** What one match records: the author string and the pub-info line. */
  datatype Entry = Entry(authors: string, pubinfo: string)

  /** What the matching loop appends: one author string and one pub-info per match. */
  datatype Matched = Matched(authors: seq<string>, pubinfo: seq<string>)

  /** The entry recorded when info item `k` holds `title`: the author scan from the
      next item, then the pub-info cut from item `k` with the gathered author text.
      For `k` past the end the scan already fails, before item `k` is read. */
  function EntryAt(info: seq<string>, k: nat, title: string): (r: Result<Entry>)
    ensures r.Ok? ==> k < |info| && title != "" && r.value.authors != ""
    ensures r.Ok? ==> 0 < CountOcc(info[k], r.value.authors) && 0 < CountOcc(info[k], DateSeparator)
  {
    var scan :- ScanAuthors(info, k + 1, "");
    assert k < |info|;
    var pub :- NaturePubInfo(info[k], title, scan.authors);
    Ok(Entry(scan.authors, pub))
  }

  /** The matching loop from info item `i`, with titles `j..` still to match,
      generic in the entry each match records. */
  function MatchWith(titles: seq<string>, info: seq<string>, i: nat, j: nat,
                     entry: (nat, string) -> Result<Entry>): (r: Result<Matched>)
    requires i <= |info| && j <= |titles|
    ensures r.Ok? ==> |r.value.authors| == |r.value.pubinfo|
    ensures r.Ok? ==> |r.value.authors| <= |titles| - j && |r.value.authors| <= |info| - i
    ensures r.Ok? ==> |r.value.authors| == |MatchIdx(titles, info, i, j)|
    decreases |info| - i
  {
    if i == |info| || j == |titles| then Ok(Matched([], []))
    else if Contains(info[i], titles[j]) then
      var e :- entry(i, titles[j]);
      var rest :- MatchWith(titles, info, i + 1, j + 1, entry);
      Ok(Matched([e.authors] + rest.authors, [e.pubinfo] + rest.pubinfo))
    else MatchWith(titles, info, i + 1, j, entry)
  }

  /** Reference definition of a page's matching loop from info item `i`, with
      titles `j..` still to match. */
  function MatchFrom(titles: seq<string>, info: seq<string>, i: nat, j: nat): (r: Result<Matched>)
    requires i <= |info| && j <= |titles|
    ensures r.Ok? ==> |r.value.authors| == |r.value.pubinfo| == |MatchIdx(titles, info, i, j)|
  {
    MatchWith(titles, info, i, j, (k: nat, title: string) => EntryAt(info, k, title))
  }

  /** Prefixes already gathered lists to a later stage's outcome; an error stays an error. */
  function Prepend(authors: seq<string>, pubinfo: seq<string>, r: Result<Matched>): Result<Matched> {
    if r.Err? then r else Ok(Matched(authors + r.value.authors, pubinfo + r.value.pubinfo))
  }

  /** The info items the matching loop matches, in the order it matches them. */
  ghost function MatchIdx(titles: seq<string>, info: seq<string>, i: nat, j: nat): seq<nat>
    requires i <= |info| && j <= |titles|
    decreases |info| - i
  {
    if i == |info| || j == |titles| then []
    else if Contains(info[i], titles[j]) then [i] + MatchIdx(titles, info, i + 1, j + 1)
    else MatchIdx(titles, info, i + 1, j)
  }

  /** The q-th matched item lies in range, holds the q-th remaining title, and
      comes after the item matched before it. */
  lemma {:induction false} MatchIdxAt(titles: seq<string>, info: seq<string>, i: nat, j: nat, q: nat)
    requires i <= |info| && j <= |titles|
    requires q < |MatchIdx(titles, info, i, j)|
    ensures var idx := MatchIdx(titles, info, i, j);
      && j + q < |titles| && i <= idx[q] < |info|
      && Contains(info[idx[q]], titles[j + q])
      && (q > 0 ==> idx[q - 1] < idx[q])
    decreases |info| - i
  {
    if Contains(info[i], titles[j]) {
      var rest := MatchIdx(titles, info, i + 1, j + 1);
      assert MatchIdx(titles, info, i, j) == [i] + rest;
      if q > 0 {
        MatchIdxAt(titles, info, i + 1, j + 1, q - 1);
        assert j + q == (j + 1) + (q - 1);
      }
    } else {
      MatchIdxAt(titles, info, i + 1, j, q);
    }
  }

  /** Titles are consumed in order, at most one per item: the q-th matched item
      holds the q-th remaining title, and the matched items strictly increase. */
  lemma MatchInOrder(titles: seq<string>, info: seq<string>, i: nat, j: nat)
    requires i <= |info| && j <= |titles|
    ensures var idx := MatchIdx(titles, info, i, j);
      && j + |idx| <= |titles|
      && (forall q :: 0 <= q < |idx| ==> i <= idx[q] < |info| && Contains(info[idx[q]], titles[j + q]))
      && (forall q :: 0 < q < |idx| ==> idx[q - 1] < idx[q])
  {
    var idx := MatchIdx(titles, info, i, j);
    if |idx| > 0 {
      MatchIdxAt(titles, info, i, j, |idx| - 1);
    }
    forall q | 0 <= q < |idx|
      ensures i <= idx[q] < |info| && Contains(info[idx[q]], titles[j + q])
    {
      MatchIdxAt(titles, info, i, j, q);
    }
    forall q | 0 < q < |idx|
      ensures idx[q - 1] < idx[q]
    {
      MatchIdxAt(titles, info, i, j, q);
    }
  }

  /** The first holding item is taken: no item from `i` up to the first match
      holds the first remaining title, and when nothing matches no item from
      `i` on holds it. */
  lemma {:induction false} MatchFirstHolder(titles: seq<string>, info: seq<string>, i: nat, j: nat, n: nat)
    requires i <= n < |info| && j < |titles|
    requires var idx := MatchIdx(titles, info, i, j); |idx| == 0 || n < idx[0]
    ensures !Contains(info[n], titles[j])
    decreases n - i
  {
    if !Contains(info[i], titles[j]) && n > i {
      MatchFirstHolder(titles, info, i + 1, j, n);
    }
  }

  /** Between one match and the next, no item holds the title being sought; after
      the last match, either every title is matched or no later item holds the
      next one. */
  lemma {:induction false} MatchSkipsOnlyNonHolders(titles: seq<string>, info: seq<string>, i: nat, j: nat, q: nat, n: nat)
    requires i <= |info| && j <= |titles|
    requires var idx := MatchIdx(titles, info, i, j);
      && q <= |idx| && j + q < |titles|
      && (if q == 0 then i else idx[q - 1] + 1) <= n < |info|
      && (q == |idx| || n < idx[q])
    ensures !Contains(info[n], titles[j + q])
    decreases |info| - i
  {
    var idx := MatchIdx(titles, info, i, j);
    if q == 0 {
      MatchFirstHolder(titles, info, i, j, n);
    } else {
      assert i < |info| && j < |titles|;
      if Contains(info[i], titles[j]) {
        var rest := MatchIdx(titles, info, i + 1, j + 1);
        assert idx == [i] + rest;
        assert idx[q - 1] == (if q - 1 == 0 then i else rest[q - 2]);
        if q - 1 == 0 {
          MatchFirstHolder(titles, info, i + 1, j + 1, n);
        } else {
          MatchSkipsOnlyNonHolders(titles, info, i + 1, j + 1, q - 1, n);
        }
      } else {
        MatchSkipsOnlyNonHolders(titles, info, i + 1, j, q, n);
      }
    }
  }

  /** A match records its entry in front of the outcome of the rest of the loop. */
  lemma MatchShift(titles: seq<string>, info: seq<string>, i: nat, j: nat,
                   entry: (nat, string) -> Result<Entry>)
    requires i < |info| && j < |titles| && Contains(info[i], titles[j])
    requires MatchWith(titles, info, i, j, entry).Ok?
    ensures entry(i, titles[j]).Ok? && MatchWith(titles, info, i + 1, j + 1, entry).Ok?
    ensures var m := MatchWith(titles, info, i, j, entry).value;
      var mr := MatchWith(titles, info, i + 1, j + 1, entry).value;
      && m.authors == [entry(i, titles[j]).value.authors] + mr.authors
      && m.pubinfo == [entry(i, titles[j]).value.pubinfo] + mr.pubinfo
    ensures MatchIdx(titles, info, i, j) == [i] + MatchIdx(titles, info, i + 1, j + 1)
  {
  }

  /** An item that does not hold the title sought changes nothing. */
  lemma MatchSkip(titles: seq<string>, info: seq<string>, i: nat, j: nat,
                  entry: (nat, string) -> Result<Entry>)
    requires i < |info| && j < |titles| && !Contains(info[i], titles[j])
    ensures MatchWith(titles, info, i, j, entry) == MatchWith(titles, info, i + 1, j, entry)
    ensures MatchIdx(titles, info, i, j) == MatchIdx(titles, info, i + 1, j)
  {
  }

  /** The q-th author string and pub-info line are the entry of the q-th matched
      item with the q-th remaining title. */
  lemma {:induction false} MatchEntryAt(titles: seq<string>, info: seq<string>, i: nat, j: nat, q: nat,
                                        entry: (nat, string) -> Result<Entry>)
    requires i <= |info| && j <= |titles|
    requires MatchWith(titles, info, i, j, entry).Ok?
    requires q < |MatchIdx(titles, info, i, j)|
    ensures var m := MatchWith(titles, info, i, j, entry).value;
      && j + q < |titles| && q < |m.authors| && q < |m.pubinfo|
      && entry(MatchIdx(titles, info, i, j)[q], titles[j + q]) == Ok(Entry(m.authors[q], m.pubinfo[q]))
    decreases |info| - i
  {
    assert i < |info| && j < |titles|;
    if Contains(info[i], titles[j]) {
      MatchShift(titles, info, i, j, entry);
      if q > 0 {
        MatchEntryAt(titles, info, i + 1, j + 1, q - 1, entry);
        assert MatchIdx(titles, info, i, j)[q] == MatchIdx(titles, info, i + 1, j + 1)[q - 1];
        assert (j + 1) + (q - 1) == j + q;
      }
    } else {
      MatchSkip(titles, info, i, j, entry);
      MatchEntryAt(titles, info, i + 1, j, q, entry);
    }
  }

  /** On a page, the q-th author string is what the author scan gathers after the
      q-th matched item, and the q-th pub-info line is cut from that item with
      the q-th title and that author string. */
  lemma PageEntryAt(titles: seq<string>, info: seq<string>, q: nat)
    requires MatchFrom(titles, info, 0, 0).Ok?
    requires q < |MatchIdx(titles, info, 0, 0)|
    ensures var m := MatchFrom(titles, info, 0, 0).value;
      var k := MatchIdx(titles, info, 0, 0)[q];
      && k < |info| && q < |titles| && q < |m.authors| && q < |m.pubinfo|
      && ScanAuthors(info, k + 1, "").Ok?
      && ScanAuthors(info, k + 1, "").value.authors == m.authors[q]
      && NaturePubInfo(info[k], titles[q], m.authors[q]) == Ok(m.pubinfo[q])
  {
    var m := MatchFrom(titles, info, 0, 0).value;
    var k := MatchIdx(titles, info, 0, 0)[q];
    assert q < |titles| && q < |m.authors| && q < |m.pubinfo| by {
      MatchEntryAt(titles, info, 0, 0, q, (k: nat, title: string) => EntryAt(info, k, title));
    }
    var e := Entry(m.authors[q], m.pubinfo[q]);
    assert EntryAt(info, k, titles[q]) == Ok(e) by {
      MatchEntryAt(titles, info, 0, 0, q, (k: nat, title: string) => EntryAt(info, k, title));
    }
    EntryAtParts(info, k, titles[q], e);
  }

  /** A recorded entry is the author scan after item `k` and the pub-info cut from
      item `k` with the gathered author text. */
  lemma EntryAtParts(info: seq<string>, k: nat, title: string, e: Entry)
    requires EntryAt(info, k, title) == Ok(e)
    ensures k < |info| && ScanAuthors(info, k + 1, "").Ok? && ScanAuthors(info, k + 1, "").value.authors == e.authors
    ensures NaturePubInfo(info[k], title, e.authors) == Ok(e.pubinfo)
  {
  }

  /** Prefixing nothing leaves an outcome as it is. */
  lemma PrependNothing(r: Result<Matched>)
    ensures Prepend([], [], r) == r
  {
    if r.Ok? {
      assert [] + r.value.authors == r.value.authors;
      assert [] + r.value.pubinfo == r.value.pubinfo;
    }
  }

  /** The matching loop of one results page: walks the info items, and when the
      next unmatched title occurs in an item, gathers its authors and pub-info
      and moves to the next title; it stops once every title is matched. */
  method NatureMatch(titles: seq<string>, info: seq<string>) returns (r: Result<Matched>)
    ensures r == MatchFrom(titles, info, 0, 0)
    ensures r.Ok? ==> |r.value.authors| == |r.value.pubinfo| <= |titles|
    ensures r.Ok? ==> |r.value.authors| <= |info|
  {
    var authors: seq<string> := [];
    var pubinfo: seq<string> := [];
    var j := 0;
    PrependNothing(MatchFrom(titles, info, 0, 0));
    for i := 0 to |info|
      invariant j <= |titles| && |authors| == |pubinfo| == j
      invariant MatchFrom(titles, info, 0, 0) == Prepend(authors, pubinfo, MatchFrom(titles, info, i, j))
    {
      if j == |titles| {
        break;
      }
      if Contains(info[i], titles[j]) {
        var scan := AccumulateAuthors(info, i);
        if scan.Err? {
          MatchStepFails(titles, info, i, j, authors, pubinfo);
          return Err(scan.error);
        }
        var pub := NaturePubInfo(info[i], titles[j], scan.value.authors);
        if pub.Err? {
          MatchStepFails(titles, info, i, j, authors, pubinfo);
          return Err(pub.error);
        }
        MatchStepKeeps(titles, info, i, j, authors, pubinfo);
        authors := authors + [scan.value.authors];
        pubinfo := pubinfo + [pub.value];
        j := j + 1;
      } else {
        MatchSkip(titles, info, i, j, (k: nat, title: string) => EntryAt(info, k, title));
      }
    }
    assert authors + [] == authors && pubinfo + [] == pubinfo;
    r := Ok(Matched(authors, pubinfo));
  }

  /** A match whose entry fails ends the whole matching loop with that entry's error. */
  lemma MatchStepFails(titles: seq<string>, info: seq<string>, i: nat, j: nat,
                       authors: seq<string>, pubinfo: seq<string>)
    requires i < |info| && j < |titles| && Contains(info[i], titles[j])
    requires EntryAt(info, i, titles[j]).Err?
    requires MatchFrom(titles, info, 0, 0) == Prepend(authors, pubinfo, MatchFrom(titles, info, i, j))
    ensures MatchFrom(titles, info, 0, 0) == Err(EntryAt(info, i, titles[j]).error)
  {
  }

  /** A match whose entry succeeds moves that entry from the rest of the loop
      onto the lists gathered so far. */
  lemma MatchStepKeeps(titles: seq<string>, info: seq<string>, i: nat, j: nat,
                       authors: seq<string>, pubinfo: seq<string>)
    requires i < |info| && j < |titles| && Contains(info[i], titles[j])
    requires EntryAt(info, i, titles[j]).Ok?
    requires MatchFrom(titles, info, 0, 0) == Prepend(authors, pubinfo, MatchFrom(titles, info, i, j))
    ensures var e := EntryAt(info, i, titles[j]).value;
      MatchFrom(titles, info, 0, 0) ==
        Prepend(authors + [e.authors], pubinfo + [e.pubinfo], MatchFrom(titles, info, i + 1, j + 1))
  {
    var e := EntryAt(info, i, titles[j]).value;
    MatchUnfold(titles, info, i, j, (k: nat, title: string) => EntryAt(info, k, title));
    PrependTwice(authors, pubinfo, [e.authors], [e.pubinfo], MatchFrom(titles, info, i + 1, j + 1));
  }

  /** A match whose entry succeeds records it in front of the rest of the loop's outcome. */
  lemma MatchUnfold(titles: seq<string>, info: seq<string>, i: nat, j: nat,
                    entry: (nat, string) -> Result<Entry>)
    requires i < |info| && j < |titles| && Contains(info[i], titles[j])
    requires entry(i, titles[j]).Ok?
    ensures var e := entry(i, titles[j]).value;
      MatchWith(titles, info, i, j, entry) ==
        Prepend([e.authors], [e.pubinfo], MatchWith(titles, info, i + 1, j + 1, entry))
  {
  }

  /** Prefixing twice is prefixing once with both prefixes. */
  lemma PrependTwice(a1: seq<string>, p1: seq<string>, a2: seq<string>, p2: seq<string>, r: Result<Matched>)
    ensures Prepend(a1, p1, Prepend(a2, p2, r)) == Prepend(a1 + a2, p1 + p2, r)
  {
    if r.Ok? {
      assert a1 + (a2 + r.value.authors) == (a1 + a2) + r.value.authors;
      assert p1 + (p2 + r.value.pubinfo) == (p1 + p2) + r.value.pubinfo;
    }
  }

  /** The per-source lists gathered over all pages. */
  datatype Columns = Columns(titles: seq<string>, authors: seq<string>, links: seq<string>, pubinfo: seq<string>)

  /** The titles of a page's article anchors. */
  function PageTitles(p: Page): (r: seq<string>)
    ensures |r| == |Articles(p.anchors)|
  {
    var arts := Articles(p.anchors);
    seq(|arts|, k requires 0 <= k < |arts| => arts[k].text)
  }

  /** The links of a page's article anchors. */
  function PageLinks(p: Page): (r: seq<string>)
    ensures |r| == |Articles(p.anchors)|
  {
    var arts := Articles(p.anchors);
    seq(|arts|, k requires 0 <= k < |arts| => arts[k].href)
  }

  /** The matching loop of one page, over its article titles and info texts. */
  function PageMatch(p: Page): (r: Result<Matched>)
    ensures r.Ok? ==> |r.value.authors| == |r.value.pubinfo| <= |PageTitles(p)|
  {
    MatchFrom(PageTitles(p), InfoTexts(p.items), 0, 0)
  }

  /** Lists that line up: a link per title, and one pub-info line per author
      string, with no more author strings than titles. */
  predicate Shaped(c: Columns) {
    |c.links| == |c.titles| && |c.authors| == |c.pubinfo| <= |c.titles|
  }

  /** The lists one page contributes: all its titles and links, and the author
      strings and pub-info its matching loop recorded. */
  function PageColumns(p: Page, m: Matched): Columns {
    Columns(PageTitles(p), m.authors, PageLinks(p), m.pubinfo)
  }

  /** Each page's lists in page order, generic in the matching loop run on each
      page; the first page whose matching fails decides the error. */
  function PagesColumns(pages: seq<Page>, pageMatch: Page -> Result<Matched>): (r: Result<seq<Columns>>)
    ensures r.Ok? <==> forall p :: 0 <= p < |pages| ==> pageMatch(pages[p]).Ok?
    ensures r.Ok? ==> |r.value| == |pages|
    ensures r.Ok? ==> forall p :: 0 <= p < |pages| ==> r.value[p] == PageColumns(pages[p], pageMatch(pages[p]).value)
    decreases |pages|
  {
    if |pages| == 0 then Ok([])
    else
      var m := pageMatch(pages[0]);
      var rest := PagesColumns(pages[1..], pageMatch);
      assert forall p :: 1 <= p < |pages| ==> pages[p] == pages[1..][p - 1];
      if m.Err? then Err(m.error)
      else if rest.Err? then Err(rest.error)
      else
        var cs := [PageColumns(pages[0], m.value)] + rest.value;
        assert forall p :: 1 <= p < |cs| ==> cs[p] == rest.value[p - 1];
        Ok(cs)
  }

  /** The titles of each of a list of columns. */
  function TitleLists(cs: seq<Columns>): (r: seq<seq<string>>)
    ensures |r| == |cs| && forall i :: 0 <= i < |cs| ==> r[i] == cs[i].titles
  {
    seq(|cs|, i requires 0 <= i < |cs| => cs[i].titles)
  }

  /** The author strings of each of a list of columns. */
  function AuthorLists(cs: seq<Columns>): (r: seq<seq<string>>)
    ensures |r| == |cs| && forall i :: 0 <= i < |cs| ==> r[i] == cs[i].authors
  {
    seq(|cs|, i requires 0 <= i < |cs| => cs[i].authors)
  }

  /** The links of each of a list of columns. */
  function LinkLists(cs: seq<Columns>): (r: seq<seq<string>>)
    ensures |r| == |cs| && forall i :: 0 <= i < |cs| ==> r[i] == cs[i].links
  {
    seq(|cs|, i requires 0 <= i < |cs| => cs[i].links)
  }

  /** The pub-info lines of each of a list of columns. */
  function PubinfoLists(cs: seq<Columns>): (r: seq<seq<string>>)
    ensures |r| == |cs| && forall i :: 0 <= i < |cs| ==> r[i] == cs[i].pubinfo
  {
    seq(|cs|, i requires 0 <= i < |cs| => cs[i].pubinfo)
  }

  /** Columns laid end to end, list by list (`nat_titles += page_titles` and so on). */
  function Append(cs: seq<Columns>): Columns {
    Columns(Concat(TitleLists(cs)), Concat(AuthorLists(cs)), Concat(LinkLists(cs)), Concat(PubinfoLists(cs)))
  }

  /** Laying lined-up columns end to end keeps them lined up. */
  lemma AppendShaped(cs: seq<Columns>)
    requires forall i :: 0 <= i < |cs| ==> Shaped(cs[i])
    ensures Shaped(Append(cs))
  {
    ConcatShorter(LinkLists(cs), TitleLists(cs));
    ConcatShorter(TitleLists(cs), LinkLists(cs));
    ConcatShorter(AuthorLists(cs), PubinfoLists(cs));
    ConcatShorter(PubinfoLists(cs), AuthorLists(cs));
    ConcatShorter(AuthorLists(cs), TitleLists(cs));
  }

  /** A matching loop that records at most one author string, and one pub-info
      line with each, per title of the page. */
  ghost predicate MatchesFit(pageMatch: Page -> Result<Matched>) {
    forall pg :: pageMatch(pg).Ok? ==>
      |pageMatch(pg).value.authors| == |pageMatch(pg).value.pubinfo| <= |PageTitles(pg)|
  }

  /** The page loop, generic in the matching loop run on each page: the lists
      of every page laid end to end. */
  function GatherWith(pages: seq<Page>, pageMatch: Page -> Result<Matched>): (r: Result<Columns>)
    requires MatchesFit(pageMatch)
    ensures r.Ok? <==> forall p :: 0 <= p < |pages| ==> pageMatch(pages[p]).Ok?
    ensures r.Ok? ==> Shaped(r.value)
  {
    var cs :- PagesColumns(pages, pageMatch);
    assert forall i :: 0 <= i < |cs| ==> Shaped(cs[i]);
    AppendShaped(cs);
    Ok(Append(cs))
  }

  /** The page loop over the result pages. */
  function Gather(pages: seq<Page>): (r: Result<Columns>)
    ensures r.Ok? <==> forall p :: 0 <= p < |pages| ==> PageMatch(pages[p]).Ok?
    ensures r.Ok? ==> Shaped(r.value)
  {
    GatherWith(pages, PageMatch)
  }

  /** The i-th record of the gathered lists, paired by position. */
  function NatureRecords(c: Columns): (recs: seq<Paper>)
    requires |c.titles| <= |c.authors| && |c.titles| <= |c.pubinfo| && |c.titles| <= |c.links|
    ensures |recs| == |c.titles|
    ensures forall i :: 0 <= i < |recs| ==>
      recs[i] == Paper(c.titles[i], c.authors[i], c.links[i], c.pubinfo[i], "")
  {
    seq(|c.titles|, i requires 0 <= i < |c.titles| => NewPaper(c.titles[i], c.authors[i], c.links[i], c.pubinfo[i]))
  }

  /** The collation loop over the gathered lists. When fewer titles were matched
      than listed, the author list is indexed past its end. */
  function CollateColumns(c: Columns): (r: Result<map<string, Paper>>)
    requires |c.titles| == |c.links| && |c.authors| == |c.pubinfo| <= |c.titles|
    ensures r.Ok? <==> |c.authors| == |c.titles|
    ensures r.Err? ==> r.error == IndexError
    ensures r.Ok? ==> WellKeyed(r.value) && |r.value| <= |c.titles|
    ensures r.Ok? ==> forall t :: t in r.value ==> r.value[t].abstractText == ""
    ensures r.Ok? ==> forall t :: t in r.value <==> t in c.titles
  {
    if |c.authors| < |c.titles| then Err(IndexError)
    else
      var recs := NatureRecords(c);
      CollateUnfetched(recs);
      assert Titles(recs) == set t | t in c.titles by {
        forall t | t in c.titles ensures t in Titles(recs) {
          var i :| 0 <= i < |c.titles| && c.titles[i] == t;
          assert recs[i].title == t;
        }
      }
      Ok(Collate(recs))
  }

  /** Pairing by position: the record filed under the title at `i`, when no later
      title repeats it, is made of the author string, link and pub-info at `i`. */
  lemma ColumnsPairing(c: Columns, i: nat)
    requires |c.titles| == |c.links| && |c.authors| == |c.pubinfo| <= |c.titles|
    requires CollateColumns(c).Ok?
    requires i < |c.titles|
    requires forall j :: i < j < |c.titles| ==> c.titles[j] != c.titles[i]
    ensures c.titles[i] in CollateColumns(c).value
    ensures CollateColumns(c).value[c.titles[i]] == Paper(c.titles[i], c.authors[i], c.links[i], c.pubinfo[i], "")
  {
    var recs := NatureRecords(c);
    assert IsLastWith(recs, i, recs[i].title);
    CollateLastWins(recs, i);
  }

  /** `nat_papers`: the lists gathered over all pages, collated by title. */
  function NaturePapers(pages: seq<Page>): (r: Result<map<string, Paper>>)
    ensures Gather(pages).Err? ==> r == Err(Gather(pages).error)
    ensures Gather(pages).Ok? ==>
      (r.Ok? <==> |Gather(pages).value.authors| == |Gather(pages).value.titles|)
    ensures r.Err? && Gather(pages).Ok? ==> r.error == IndexError
    ensures r.Ok? ==> WellKeyed(r.value) && |r.value| <= |Gather(pages).value.titles|
    ensures r.Ok? ==> forall t :: t in r.value ==> r.value[t].abstractText == ""
    ensures r.Ok? ==> forall t :: t in r.value <==> t in Gather(pages).value.titles
  {
    var c :- Gather(pages);
    CollateColumns(c)
  }

  /** The titles of each page. */
  function TitlesPerPage(pages: seq<Page>): (r: seq<seq<string>>)
    ensures |r| == |pages| && forall p :: 0 <= p < |pages| ==> r[p] == PageTitles(pages[p])
  {
    seq(|pages|, p requires 0 <= p < |pages| => PageTitles(pages[p]))
  }

  /** The links of each page. */
  function LinksPerPage(pages: seq<Page>): (r: seq<seq<string>>)
    ensures |r| == |pages| && forall p :: 0 <= p < |pages| ==> r[p] == PageLinks(pages[p])
  {
    seq(|pages|, p requires 0 <= p < |pages| => PageLinks(pages[p]))
  }

  /** The number of titles on the pages before page `p`: where page `p`'s titles
      start in the gathered lists. */
  function Offset(pages: seq<Page>, p: nat): nat
    requires p <= |pages|
  {
    Start(TitlesPerPage(pages), p)
  }

  /** The gathered titles and links are every page's titles and links, in page order. */
  lemma GatherTitles(pages: seq<Page>, pageMatch: Page -> Result<Matched>)
    requires MatchesFit(pageMatch)
    requires GatherWith(pages, pageMatch).Ok?
    ensures GatherWith(pages, pageMatch).value.titles == Concat(TitlesPerPage(pages))
    ensures GatherWith(pages, pageMatch).value.links == Concat(LinksPerPage(pages))
  {
    PagesTitles(pages, pageMatch);
  }

  /** When every gathered title has an author string, every page matched all its
      titles, and title `q` of page `p` sits at `Offset(pages, p) + q` in the
      gathered lists beside that page's `q`-th link, author string and pub-info. */
  lemma GatherAt(pages: seq<Page>, pageMatch: Page -> Result<Matched>, p: nat, q: nat)
    requires MatchesFit(pageMatch)
    requires GatherWith(pages, pageMatch).Ok?
    requires |GatherWith(pages, pageMatch).value.authors| == |GatherWith(pages, pageMatch).value.titles|
    requires p < |pages| && q < |PageTitles(pages[p])|
    ensures var c := GatherWith(pages, pageMatch).value;
      var m := pageMatch(pages[p]);
      var i := Offset(pages, p) + q;
      && m.Ok? && |m.value.authors| == |PageTitles(pages[p])|
      && i < |c.titles| && i < |c.authors|
      && c.titles[i] == PageTitles(pages[p])[q]
      && c.links[i] == PageLinks(pages[p])[q]
      && c.authors[i] == m.value.authors[q]
      && c.pubinfo[i] == m.value.pubinfo[q]
  {
    var cs := PagesColumns(pages, pageMatch).value;
    PagesShaped(pages, pageMatch);
    PagesTitles(pages, pageMatch);
    assert GatherWith(pages, pageMatch) == Ok(Append(cs));
    assert cs[p] == PageColumns(pages[p], pageMatch(pages[p]).value);
    AppendAt(cs, p, q);
    assert Offset(pages, p) == Start(TitleLists(cs), p);
  }

  /** Each page's lists line up. */
  lemma PagesShaped(pages: seq<Page>, pageMatch: Page -> Result<Matched>)
    requires MatchesFit(pageMatch)
    requires PagesColumns(pages, pageMatch).Ok?
    ensures var cs := PagesColumns(pages, pageMatch).value;
      forall i :: 0 <= i < |cs| ==> Shaped(cs[i])
  {
  }

  /** The pages' lists hold the pages' titles and links. */
  lemma PagesTitles(pages: seq<Page>, pageMatch: Page -> Result<Matched>)
    requires PagesColumns(pages, pageMatch).Ok?
    ensures TitleLists(PagesColumns(pages, pageMatch).value) == TitlesPerPage(pages)
    ensures LinkLists(PagesColumns(pages, pageMatch).value) == LinksPerPage(pages)
  {
  }

  /** Title `q` of columns `p` sits at `Start(TitleLists(cs), p) + q` once the
      columns are laid end to end, beside their `q`-th link, author string and
      pub-info, provided the author strings cover all the titles. */
  lemma AppendAt(cs: seq<Columns>, p: nat, q: nat)
    requires forall i :: 0 <= i < |cs| ==> Shaped(cs[i])
    requires |Append(cs).authors| == |Append(cs).titles|
    requires p < |cs| && q < |cs[p].titles|
    ensures |cs[p].authors| == |cs[p].pubinfo| == |cs[p].links| == |cs[p].titles|
    ensures var c := Append(cs);
      var i := Start(TitleLists(cs), p) + q;
      && i < |c.titles| && i < |c.authors| && i < |c.links| && i < |c.pubinfo|
      && c.titles[i] == cs[p].titles[q]
      && c.links[i] == cs[p].links[q]
      && c.authors[i] == cs[p].authors[q]
      && c.pubinfo[i] == cs[p].pubinfo[q]
  {
    AppendShaped(cs);
    AppendPageAt(cs, p, q);
    AppendMatchAt(cs, p, q);
  }

  /** The title and link at position `q` of list `p` land at the same place
      of the laid-out columns. */
  lemma AppendPageAt(cs: seq<Columns>, p: nat, q: nat)
    requires forall i :: 0 <= i < |cs| ==> Shaped(cs[i])
    requires Shaped(Append(cs))
    requires p < |cs| && q < |cs[p].titles|
    ensures var c := Append(cs);
      var i := Start(TitleLists(cs), p) + q;
      && |cs[p].links| == |cs[p].titles|
      && i < |c.titles| && i < |c.links|
      && c.titles[i] == cs[p].titles[q]
      && c.links[i] == cs[p].links[q]
  {
    ConcatAt(TitleLists(cs), p, q);
    ConcatAtAligned(LinkLists(cs), TitleLists(cs), p, q);
  }

  /** The author string and pub-info line at position `q` of list `p` land where
      that list's `q`-th title does. */
  lemma AppendMatchAt(cs: seq<Columns>, p: nat, q: nat)
    requires forall i :: 0 <= i < |cs| ==> Shaped(cs[i])
    requires Shaped(Append(cs))
    requires |Append(cs).authors| == |Append(cs).titles|
    requires p < |cs| && q < |cs[p].titles|
    ensures var c := Append(cs);
      var i := Start(TitleLists(cs), p) + q;
      && |cs[p].authors| == |cs[p].pubinfo| == |cs[p].titles|
      && i < |c.authors| && i < |c.pubinfo|
      && c.authors[i] == cs[p].authors[q]
      && c.pubinfo[i] == cs[p].pubinfo[q]
  {
    ConcatAtAligned(AuthorLists(cs), TitleLists(cs), p, q);
    ConcatAtAligned(PubinfoLists(cs), TitleLists(cs), p, q);
  }

  /** Pairing on one page, generic in the matching loop: the record filed under
      title `q` of page `p`, when no later gathered title repeats it, holds that
      page's `q`-th link and the `q`-th author string and pub-info its matching
      loop recorded. */
  lemma GatherPaired(pages: seq<Page>, pageMatch: Page -> Result<Matched>, p: nat, q: nat)
    requires MatchesFit(pageMatch)
    requires GatherWith(pages, pageMatch).Ok?
    requires CollateColumns(GatherWith(pages, pageMatch).value).Ok?
    requires p < |pages| && q < |PageTitles(pages[p])|
    requires forall i :: Offset(pages, p) + q < i < |GatherWith(pages, pageMatch).value.titles| ==>
      GatherWith(pages, pageMatch).value.titles[i] != PageTitles(pages[p])[q]
    ensures var m := pageMatch(pages[p]);
      var t := PageTitles(pages[p])[q];
      var r := CollateColumns(GatherWith(pages, pageMatch).value);
      && m.Ok? && |m.value.authors| == |m.value.pubinfo| == |PageTitles(pages[p])|
      && t in r.value
      && r.value[t] == Paper(t, m.value.authors[q], PageLinks(pages[p])[q], m.value.pubinfo[q], "")
  {
    var c := GatherWith(pages, pageMatch).value;
    var m := pageMatch(pages[p]);
    var i := Offset(pages, p) + q;
    GatherAt(pages, pageMatch, p, q);
    assert c.titles[i] == PageTitles(pages[p])[q] && c.links[i] == PageLinks(pages[p])[q];
    assert c.authors[i] == m.value.authors[q] && c.pubinfo[i] == m.value.pubinfo[q];
    ColumnsPairing(c, i);
  }

  /** Pairing on one page: the record filed under title `q` of page `p`, when no
      later gathered title repeats it, holds that page's `q`-th link and the
      `q`-th author string and pub-info its matching loop recorded. */
  lemma NaturePaired(pages: seq<Page>, p: nat, q: nat)
    requires NaturePapers(pages).Ok?
    requires p < |pages| && q < |PageTitles(pages[p])|
    requires forall i :: Offset(pages, p) + q < i < |Gather(pages).value.titles| ==>
      Gather(pages).value.titles[i] != PageTitles(pages[p])[q]
    ensures var m := PageMatch(pages[p]);
      var t := PageTitles(pages[p])[q];
      && m.Ok? && |m.value.authors| == |m.value.pubinfo| == |PageTitles(pages[p])|
      && t in NaturePapers(pages).value
      && NaturePapers(pages).value[t] == Paper(t, m.value.authors[q], PageLinks(pages[p])[q], m.value.pubinfo[q], "")
  {
    assert Gather(pages) == GatherWith(pages, PageMatch);
    assert NaturePapers(pages) == CollateColumns(Gather(pages).value);
    GatherPaired(pages, PageMatch, p, q);
  }

  /** An author string and pub-info line for title `t` built from info item `k`:
      the item holds the title, the author scan from the next item gathers the
      author string, and the pub-info is cut from the item with them. */
  predicate BuiltFrom(info: seq<string>, k: nat, t: string, authors: string, pubinfo: string) {
    && k < |info| && Contains(info[k], t)
    && ScanAuthors(info, k + 1, "").Ok? && ScanAuthors(info, k + 1, "").value.authors == authors
    && NaturePubInfo(info[k], t, authors) == Ok(pubinfo)
  }

  /** A page whose matching loop covered all its titles matched each title to
      an item, and recorded that item's author scan and pub-info for it. */
  lemma MatchedEntry(titles: seq<string>, info: seq<string>, q: nat)
    requires MatchFrom(titles, info, 0, 0).Ok?
    requires |MatchFrom(titles, info, 0, 0).value.authors| == |titles|
    requires q < |titles|
    ensures |MatchIdx(titles, info, 0, 0)| == |titles|
    ensures var m := MatchFrom(titles, info, 0, 0).value;
      BuiltFrom(info, MatchIdx(titles, info, 0, 0)[q], titles[q], m.authors[q], m.pubinfo[q])
  {
    PageEntryAt(titles, info, q);
    MatchIdxAt(titles, info, 0, 0, q);
  }

  /** Pairing traced to the page: every title of page `p` was matched, and the
      record filed under title `q`, when no later gathered title repeats it,
      carries the page's `q`-th link and was built from the item matched to it. */
  lemma NaturePairing(pages: seq<Page>, p: nat, q: nat)
    requires NaturePapers(pages).Ok?
    requires p < |pages| && q < |PageTitles(pages[p])|
    requires forall i :: Offset(pages, p) + q < i < |Gather(pages).value.titles| ==>
      Gather(pages).value.titles[i] != PageTitles(pages[p])[q]
    ensures var titles := PageTitles(pages[p]);
      var info := InfoTexts(pages[p].items);
      var t := titles[q];
      && |MatchIdx(titles, info, 0, 0)| == |titles|
      && t in NaturePapers(pages).value
      && NaturePapers(pages).value[t].title == t
      && NaturePapers(pages).value[t].link == PageLinks(pages[p])[q]
      && NaturePapers(pages).value[t].abstractText == ""
      && BuiltFrom(info, MatchIdx(titles, info, 0, 0)[q], t,
                   NaturePapers(pages).value[t].authors, NaturePapers(pages).value[t].pubinfo)
  {
    var titles := PageTitles(pages[p]);
    var info := InfoTexts(pages[p].items);
    NaturePaired(pages, p, q);
    assert PageMatch(pages[p]) == MatchFrom(titles, info, 0, 0);
    MatchedEntry(titles, info, q);
  }
}
