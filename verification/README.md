# State of the Field, modelled in Dafny

`stateofthefield.py` is a small desktop tool. It reads the "recent
publications" listings of three journals and turns each listing into a
dictionary of paper records keyed by title. The three journals are Physical
Review B, Nature and the arXiv condensed-matter listing. The tool then offers
a search over those dictionaries and opens a paper's abstract on demand.

This project models the data processing of that tool. Each part is a module:

- `Results`: the `Option`/`Result` wrappers. It also holds the Python exceptions
  the code can raise on malformed input: `IndexError`, the `ValueError` of
  `str.split('')`, and `UnboundLocalError`.
- `PyStr`: the part of Python's `str` that the code relies on. That is `sub in s`,
  `s.split(sep)`, `s.split(sep, 1)`, `lower()` and `str(n)`, each with its
  reference properties (split/join round trip, number of pieces, decimal round
  trip). The code never calls `join`; `PyStr.Join` is only the reference
  definition behind the split/join round trip and the reference author list.
- `Papers`: the paper record and the collation `papers[title] = {...}`, where
  the last write wins.
- `PhysRevB`: the title filter and the positional pairing of the Physical Review
  B listing, including the collation loop as a method.
- `Arxiv`: the string slicing that extracts the title, the author list, the
  abstract link and the pub-info of an arXiv entry. It also covers the
  "a, b, and c" author join; two names give "a, and b", because the `elif`
  at lines 145-146 also applies to the second of two names (`Arxiv.TwoAuthors`).
- `Nature`: the Nature matching loop. Titles are matched in order against the
  info items, authors are gathered up to the "Opens in a new window" sentinel,
  and the pub-info is cut out of the matched item. This module also covers
  gathering over pages and the final collation, which indexes the authors list
  without a check.
- `Search`: the filter panel. `_search` rebuilds the three hit dictionaries, the
  journal toggles decide which lists are shown, and `_count_results` sets the
  results label.
- `Abstracts`: the abstract cache of `_get_abstract`, plus the defect that the
  function shows when it is called from a search result (see Findings).

The HTML parsing (`BeautifulSoup.find_all`, `str(item)`, `item.text`,
`attrs['href']`) is not modelled. Its results are inputs: each element is a
record of its markup, its text and its link. The network is an input too. A
paper page is the function `page(link)`, which gives the texts of the page's
paragraphs.

## Model

| member | source | states |
|---|---|---|
| PyStr.Find | stateofthefield.py:109 | `sub in s` finds the first position where `sub` starts; no earlier position matches, and no position at all matches when nothing is found |
| PyStr.ContainsIff | stateofthefield.py:182 | `sub in s` holds exactly when `sub` starts at some position of `s` |
| PyStr.ContainsByLength | stateofthefield.py:361 | a string never occurs in a shorter one, and occurs in one of the same length only as the whole of it |
| PyStr.ContainsTrans | stateofthefield.py:361 | whatever occurs inside an occurrence of `x` in `s` occurs in `s` |
| PyStr.Split | stateofthefield.py:139 | `s.split(sep)` gives at least one piece, and no piece contains the separator |
| PyStr.SplitJoin | stateofthefield.py:139 | joining the pieces of `s.split(sep)` with `sep` gives back `s` |
| PyStr.SplitCount | stateofthefield.py:139 | `s.split(sep)` has one more piece than there are non-overlapping occurrences of `sep` |
| PyStr.ContainsCount | stateofthefield.py:150 | `sep in s` holds exactly when `s` has at least one occurrence of `sep` |
| PyStr.Head | stateofthefield.py:138 | `s.split(sep)[0]` is the prefix of `s` before the first occurrence of `sep`: it is followed by `sep` or is all of `s`, and no occurrence of `sep` starts inside it; it differs from `s` exactly when `sep` occurs |
| PyStr.HeadUnique | stateofthefield.py:138 | two strings that both meet that description are equal, so the description fixes `s.split(sep)[0]` |
| PyStr.SplitAt | stateofthefield.py:191-192 | `s.split(sep)[n]` raises the empty-separator error exactly when `sep` is empty, and otherwise succeeds exactly when `sep` occurs at least `n` times and raises `IndexError` past the last piece; the piece contains no `sep`, and piece 0 is the head |
| PyStr.SplitAtNext | stateofthefield.py:191-192 | piece `n + 1` of `s.split(sep)` is piece `n` of the text after the first `sep` |
| PyStr.AfterFirst | stateofthefield.py:138-139 | `s.split(sep, 1)[1]` exists exactly when `sep` occurs, and `s` is the head, `sep`, then that text |
| PyStr.Lower | stateofthefield.py:356 | `lower()` keeps the length, lowers each ASCII letter in place, and leaves no upper-case ASCII letter |
| PyStr.LowerIdempotent | stateofthefield.py:356 | lowering twice is lowering once |
| PyStr.Decimal | stateofthefield.py:399-402 | `str(n)` is a non-empty string of digits with no leading zero |
| PyStr.DecimalRoundTrip | stateofthefield.py:399-402 | reading `str(n)` back as a number gives `n` |
| PyStr.DecimalInjective | stateofthefield.py:399-402 | different counts give different labels |
| Papers.Collate | stateofthefield.py:114-120 | collating records by title keys every record under its own title, keeps exactly the titles of the input, and never holds more entries than there were records |
| Papers.CollateLastWins | stateofthefield.py:114-120 | the record filed under a title is the last input record that carries it |
| Papers.CollateValues | stateofthefield.py:206-212 | every filed record is one of the input records |
| Papers.CollateUnfetched | stateofthefield.py:119 | records that all start with an empty abstract collate to a dictionary with only empty abstracts |
| PhysRevB.Kept | stateofthefield.py:105-109 | no more title elements are kept than there are, and every kept one carries `<h5 class="title">` |
| PhysRevB.KeptMembers | stateofthefield.py:105-109 | the kept title elements are exactly those whose markup carries `<h5 class="title">` |
| PhysRevB.KeptAppend | stateofthefield.py:105-109 | the filter goes element by element in page order: filtering two stretches one after the other is filtering the whole |
| PhysRevB.KeptLinks | stateofthefield.py:105 | there is one link per kept title element, and the k-th link is the `href` of the k-th kept element |
| PhysRevB.CollatePhysRevB | stateofthefield.py:106-122 | the collation loop, with its running index advancing only on kept elements, builds exactly the reference dictionary of position-paired records |
| PhysRevB.PhysRevBShape | stateofthefield.py:106-120 | that dictionary is keyed by title, holds at most one entry per title element, and has no abstracts yet |
| PhysRevB.PhysRevBKeys | stateofthefield.py:108-114 | a title is listed exactly when some kept title element carries it |
| PhysRevB.PhysRevBPairing | stateofthefield.py:110-120 | the record of the k-th kept title (when no later kept title repeats it) holds the k-th author and pub-info entries and that element's link behind `https://journals.aps.org` |
| Arxiv.AbstractLinkTexts | stateofthefield.py:132-133 | each pub-info entry is the text of an anchor that links to `/abs` and says `Abstract` |
| Arxiv.AbstractLinkTextsMembers | stateofthefield.py:132-133 | a text is among the pub-info entries exactly when some anchor linking to `/abs` and saying `Abstract` carries it |
| Arxiv.AbstractLinkTextsAppend | stateofthefield.py:132-133 | the anchors are filtered one by one in page order: filtering two stretches one after the other is filtering the whole |
| Arxiv.ArxivTitle | stateofthefield.py:138 | the title exists exactly when the title block has a space; it is the text after the first space up to the next newline, and it holds no newline |
| Arxiv.AuthorNames | stateofthefield.py:139-140 | the names exist exactly when the block has the `Authors:` line; there is one more name than name separators, no name holds the separator, and the last holds no newline |
| Arxiv.AuthorNamesCover | stateofthefield.py:139-140 | the names joined back with the separator are the author text up to the newline that ended the last name |
| Arxiv.JoinAuthors | stateofthefield.py:141-148 | the authors string is the reference list: the names joined by ", ", with ", and " before the last of two or more |
| Arxiv.JoinAuthorsIsOxford | stateofthefield.py:141-148 | the accumulation loop joins the names with ", " and puts ", and " before the last of two or more |
| Arxiv.TwoAuthors | stateofthefield.py:145-146 | two authors give "a, and b" |
| Arxiv.ArxivLink | stateofthefield.py:150 | the link exists exactly when the anchor text has a ':'; it is `https://arxiv.org/abs/` then the field after the first ':' up to the next ':', which holds no ':' |
| Arxiv.IdIsSecondField | stateofthefield.py:150 | `pubinfo.split(':')[1]` is the text after the first ':' cut at the next one |
| Arxiv.ArxivRecord | stateofthefield.py:149-157 | a record starts with an unfetched abstract, and its pub-info is the anchor text followed by " – Recent" |
| Arxiv.ArxivRecordSpec | stateofthefield.py:137-157 | an entry yields a record exactly when its three slicings succeed; the record holds the sliced title, the reference author list and the abstract-page link |
| Arxiv.ArxivRecords | stateofthefield.py:137-157 | the entries from `i` on yield records exactly when every one of them does, and then the k-th record is that entry's |
| Arxiv.ArxivPapers | stateofthefield.py:135-158 | `arx_papers` exists exactly when every entry slices; it is keyed by title, its keys are exactly the titles the title blocks slice to, it is no larger than the title list, and every record links to an abstract page and has an unfetched abstract |
| Arxiv.ArxivKeys | stateofthefield.py:137-151 | the records of a whole listing carry exactly the sliced titles |
| Arxiv.ArxivPairing | stateofthefield.py:137-157 | the record filed under the title of entry k, when no later entry slices to the same title, is the record made from the k-th title block, author block and abstract link |
| Nature.Articles | stateofthefield.py:172 | the article anchors are anchors whose markup mentions `nature.com/articles` |
| Nature.ArticlesMembers | stateofthefield.py:172 | an anchor is kept exactly when it is on the page and its markup mentions `nature.com/articles` |
| Nature.ArticlesAppend | stateofthefield.py:172 | the anchors are filtered one by one in page order |
| Nature.InfoTexts | stateofthefield.py:174 | there is at most one info text per list item |
| Nature.InfoTextsMembers | stateofthefield.py:174 | a text is an info text exactly when some list item whose markup mentions "author" carries it |
| Nature.InfoTextsAppend | stateofthefield.py:174 | the list items are filtered one by one in page order |
| Nature.ScanAuthors | stateofthefield.py:183-189 | a failed scan raises `IndexError` and began within six items of the end; a successful one stops at or after its start, at an item holding the sentinel or right after reaching six before the end, and no item it read holds the sentinel |
| Nature.ScanAuthorsSpec | stateofthefield.py:183-189 | the author scan fails exactly when it starts within six items of the end and no later item holds the sentinel; otherwise it gathers the items up to the sentinel or up to six before the end, and none of those items holds the sentinel |
| Nature.AccumulateAuthors | stateofthefield.py:183-189 | the `while` loop computes exactly the reference scan |
| Nature.NaturePubInfo | stateofthefield.py:191-193 | the pub-info is cut only when the title and author text are non-empty and the item holds the date separator and the author text; an empty title, or a non-empty title with an empty author text, raises the empty-separator error once the date field is found |
| Nature.NaturePubInfoSpec | stateofthefield.py:191-193 | the pub-info exists exactly when the title and author text are non-empty and the item holds the date separator and the authors; it is the branch (a prefix of the text after the authors, free of `Rights`), " – Published ", then the date (a prefix of the second date-separated field, free of the title) |
| Nature.NaturePubInfoParts | stateofthefield.py:191-193 | any journal name and date that meet the cut description are the ones in the pub-info |
| Nature.EntryAt | stateofthefield.py:183-193 | an entry is recorded only for an item inside the list, with a non-empty title and author text, and that item holds both the author text and the date separator |
| Nature.MatchWith | stateofthefield.py:178-194 | the matching loop appends one author string and one pub-info line per matched item, no more than the titles left or the items left |
| Nature.MatchFrom | stateofthefield.py:178-194 | a page's matching loop records exactly one author string and one pub-info line per item it matches |
| Nature.NatureMatch | stateofthefield.py:178-194 | the imperative loop, with its early `break`, computes exactly the reference matching |
| Nature.MatchInOrder | stateofthefield.py:180-194 | titles are matched in order: the q-th matched item holds the q-th title, and matched items strictly increase |
| Nature.MatchFirstHolder | stateofthefield.py:182 | no item before the first match holds the first title |
| Nature.MatchSkipsOnlyNonHolders | stateofthefield.py:179-194 | every item skipped between matches does not hold the title being sought |
| Nature.MatchEntryAt | stateofthefield.py:180-194 | the q-th author string and pub-info line are the entry recorded for the q-th matched item and the q-th title |
| Nature.PageEntryAt | stateofthefield.py:183-193 | on a page, the q-th author string is what the scan gathers after the q-th matched item, and the q-th pub-info line is that item cut with the q-th title and those authors |
| Nature.EntryAtParts | stateofthefield.py:183-193 | a recorded entry is the author scan after its item and the pub-info cut from that item with those authors |
| Nature.MatchedEntry | stateofthefield.py:178-194 | when every title of a page was matched, the q-th author string and pub-info line were built from the item matched to the q-th title |
| Nature.Gather | stateofthefield.py:168-198 | gathering over pages succeeds exactly when every page's matching loop does, and the gathered lists stay lined up: one link per title, one pub-info line per author string, no more author strings than titles |
| Nature.GatherTitles | stateofthefield.py:195-197 | the gathered titles and links are the pages' titles and links laid end to end in page order |
| Nature.GatherAt | stateofthefield.py:195-198 | title q of page p sits at that page's offset plus q in the gathered lists, beside the page's q-th link and the q-th author string and pub-info line its matching loop recorded |
| Nature.AppendAt | stateofthefield.py:195-198 | laying lined-up lists end to end keeps each list's q-th entries side by side |
| Nature.NatureRecords | stateofthefield.py:201-212 | the i-th record is exactly the i-th title, author string, link and pub-info line with no abstract |
| Nature.CollateColumns | stateofthefield.py:200-212 | collation succeeds exactly when there is an author string for every title and otherwise raises `IndexError`; the dictionary is keyed by title, holds exactly the gathered titles and has no abstracts |
| Nature.ColumnsPairing | stateofthefield.py:201-212 | the record under the i-th title, when no later title repeats it, is the i-th title, author string, link and pub-info line |
| Nature.NaturePapers | stateofthefield.py:200-213 | `nat_papers` exists exactly when every page's matching loop succeeds and every title got an author string; otherwise it fails with the matching loop's own error (`IndexError`, or the empty-separator `ValueError` when a matched item's author text or the title is empty), or with `IndexError` when a title was left without an author string; it is keyed by title, lists exactly the gathered titles, and has no abstracts yet |
| Nature.GatherPaired | stateofthefield.py:168-212 | for any matching loop that records at most one entry per title, the record under title q of page p, when no later title repeats it, holds that page's q-th link, author string and pub-info line |
| Nature.NaturePaired | stateofthefield.py:168-212 | the same for the page's own matching loop |
| Nature.NaturePairing | stateofthefield.py:168-212 | that record's authors are what the scan gathered after the item matched to its title, and its pub-info is cut from that item |
| Search.HitSet | stateofthefield.py:358-362 | a hit dictionary is a sub-dictionary of the papers, keyed by title, no larger than the papers, and it holds a paper exactly when the lowered query occurs in the lowered title or in the abstract |
| Search.SearchSource | stateofthefield.py:358-362 | the loop over the keys builds exactly that hit dictionary |
| Search.EmptyQueryKeepsAll | stateofthefield.py:356-362 | an empty search keeps every paper |
| Search.QueryCaseIgnored | stateofthefield.py:356-361 | a query and its lower-case form find the same papers |
| Search.RefinedQueryNarrows | stateofthefield.py:361 | a query that contains another finds no paper the shorter one misses |
| Search.AbstractMatchIsCaseSensitive | stateofthefield.py:356-361 | a word with a capital letter, alone in an abstract, is not found by typing that word, while the same word alone in a title is |
| Search.InitialFilters | stateofthefield.py:309-347 | the panel starts unsearched, with no hits and every journal ticked |
| Search.SearchForgetsPrevious | stateofthefield.py:354-374 | a search rebuilds its hits from scratch; the previous search leaves no trace |
| Search.DoSearch | stateofthefield.py:354-374 | a search marks the panel searched, keeps the toggles, and leaves in each journal's hits exactly that journal's papers the lowered query hits, each filed under its title with its record unchanged; the total is at most the number of papers |
| Search.ShownSources | stateofthefield.py:380-391 | a journal's list is shown exactly when it has hits and its box is ticked, in the order Physical Review B, Nature, arXiv |
| Search.ShownWithinTotal | stateofthefield.py:380-399 | the papers listed never outnumber the reported total, and unticking a journal does not change the total |
| Search.CountLabel | stateofthefield.py:397-402 | the label ends in " results"; it is the prompt exactly when nothing was searched, and otherwise its digits read back as the number of hits |
| Search.CountIgnoresToggles | stateofthefield.py:397-402 | the results label depends on the hit lists only, not on which journals are ticked |
| Search.SearchCount | stateofthefield.py:354-402 | the count after a search ignores the toggles, and an empty search counts every paper |
| Search.EmptySearchHitsAll | stateofthefield.py:354-362 | an empty search puts every paper of every journal among the hits |
| Abstracts.ExtractAbstract | stateofthefield.py:265-270 | Physical Review B takes the first paragraph of the page, or fails with an index error on a page without one; the other journals have no rule |
| Abstracts.OpenAbstract | stateofthefield.py:260-273 | a fetched abstract is shown without a request; an unfetched one costs one request, for the paper's link, and only its abstract changes |
| Abstracts.Store | stateofthefield.py:271 | filing keeps the keys, puts the opened record under its key, and leaves every other record as it was |
| Abstracts.StoreKeepsShape | stateofthefield.py:271 | filing the abstract keeps the dictionary keyed by title and changes only that record's abstract |
| Abstracts.SecondOpenIsCached | stateofthefield.py:260-273 | after a non-empty abstract is filed, opening the paper again makes no request and shows the same text |
| Abstracts.EmptyAbstractIsRefetched | stateofthefield.py:260 | an empty first paragraph is indistinguishable from "not fetched", so the next opening requests the page again |
| Abstracts.AsWrittenAgreesOnFullListing | stateofthefield.py:265-266 | called with the whole Physical Review B dictionary, the code as written behaves as intended |
| Abstracts.OpenAbstractAsWritten | stateofthefield.py:258-273 | as written: a fetched abstract is shown without a request; an unfetched one fails with an unbound local unless the dictionary equals the whole Physical Review B dictionary, in which case it is the first paragraph of the page, or an index error on a page without one |
| Abstracts.FilteredListingLosesAbstract | stateofthefield.py:265-271 | called with a search's hit list, the code as written fails with an unbound local, while the intended rule fetches the abstract |
| Abstracts.SameOutcomeFromAnyView | stateofthefield.py:241-242 | under the intended rule a Physical Review B abstract opens the same way from any list that shows the paper |

## Left out

- The tkinter window is not modelled: labels, buttons, grid layout, scrolling (`_on_configure`, `_on_mouse_wheel`), the abstract window and the link callbacks. The model keeps only the state that decides what is shown and counted.
- `urllib`, `BeautifulSoup` and `webbrowser` are not modelled. The elements they find are inputs, and a paper page is the input function `page(link)`.
- The page loops of Physical Review B and Nature (`page_depth`, lines 98-104 and 168-171) are reduced to their output. Physical Review B takes the concatenated element lists as given, and Nature takes a list of pages.
- `print` progress messages are not modelled.
- PyStr.Lower: only ASCII letters are lowered. Python's `str.lower()` also lowers other Unicode letters.
- PhysRevB.CollatePhysRevB: requires the author and pub-info lists to be at least as long as the kept title list. The source reads them without a check and would raise `IndexError`.
- Arxiv.ArxivPapers: requires the author list and the abstract-anchor list to be at least as long as the title list. The source reads them without a check and would raise `IndexError`.
- Search.SearchSource and Search.DoSearch: require, like the reference Search.HitSet they rest on, the papers to be keyed by their own titles. The source files each hit under `paper['title']` while walking the keys, so for a dictionary whose keys are not titles the result would depend on Python's iteration order. Every dictionary the search reads is built by `Papers.Collate`, and `Collate` is proved to key by title.
- Python dictionaries hold references: the hit dictionaries share their records with `prb_papers` and the others, so filing an abstract through one shows through the other. The model files the record into the one dictionary it is given (`Abstracts.Store`).
- The Nature and arXiv branches of `_get_abstract` (`pass`, lines 267-270) never bind the abstract. They are modelled as the `UnboundLocalError` they raise, in the code as written and in the corrected rule alike.
- `_get_abstract` requests the paper page (`urlopen(link)`, line 262) for every journal before the extraction rule is chosen (lines 265-270), so a Nature or arXiv paper, or a Physical Review B page without paragraphs, costs a request and then fails. The model records a request only on success; no `Err` outcome carries one.

## Findings

| source | as written | input that shows it | evidently intended | confidence | as-written member | corrected member |
|---|---|---|---|---|---|---|
| stateofthefield.py:265-271 | the Physical Review B rule is chosen by `journal == self.prb_papers`, which compares dictionary contents; the list passed in after a search is the hit dictionary, which differs from `prb_papers` whenever the search filtered anything out, so `abstract` stays unbound | search "graphene" over the two Physical Review B papers "Graphene" and "Other", then open the abstract of "Graphene" from the results | the abstract is fetched whichever list shows the paper (choose the rule by the journal the paper came from) | not executed; high | Abstracts.OpenAbstractAsWritten, shown by Abstracts.FilteredListingLosesAbstract | Abstracts.OpenAbstract, with Abstracts.SameOutcomeFromAnyView |
