# Chapter checkers of a web-novel update bot, in Dafny

The bot polls the chapter listings of novel and comic sites, extracts the
latest chapter of each tracked title and reports when it changes. This
project models the part that runs after a listing page has been fetched and
parsed:

- `LaimanhuaChecker.get_latest_chapter_list` (module `Laimanhua`): the links
  inside `div#play_0` that carry a non-empty `title` attribute become chapters,
  and the list is returned reversed.
- `SyosetuChecker.get_latest_chapter_list` (module `Syosetu`): every link with
  class `p-eplist__subtitle` becomes a chapter titled by its stripped text, in
  document order.
- `WutuxsHelper` (module `Wutuxs`): derives `a_link` from the tracked URL,
  collects the links that start with it (the page's final anchor is never
  looked at), counts them, picks the last one as the latest chapter, and
  `checkUpdate` refreshes the cached latest chapter when its title changed.

The parsed page is an input. `Html.Page` holds every `<a>` of the document in
order and the `<a>` elements inside the first `div#play_0`, if there is one.
`Html.Anchor` holds an anchor's `href`, `title`, `.text`, `.string` and
`class` list. A URL is the record of its six `urlparse` components
(`Chapters.Url`), so "replace the path of `check_url`" is a record update
(`Chapters.ChapterAt`). The checkers are classes holding `check_url`. Their
`GetLatestChapterList` methods build the list in a loop, as the source does,
and are proved equal to a specification function (`ChapterList`). Lemmas
about those functions state what the list contains. `WutuxsHelper` is a class
whose fields the methods update in place. Python's `str.strip()` and
`str.replace(old, "")` are modelled in module `Text`. The order-preserving
selection and the reversal that the loops and the slice perform are in module
`Seqs`.

Behaviour of the code that the model keeps, including where it is not what a
caller might expect:

- A laimanhua page without `div#play_0` raises at
  helpers/checkers/laimanhua.py:24 (`None.findAll`); the model returns
  `Err(NoPlayList)`. A selected anchor without `href` raises at
  helpers/checkers/laimanhua.py:29 and helpers/checkers/syosetu.py:29
  (`tag["href"]`); the model returns `Err(MissingHref)`. Neither checker
  turns these two cases into an empty list. A page whose selected links are
  missing does give an empty list: a `div#play_0` with no titled link, or a
  syosetu page with no `p-eplist__subtitle` link.
- The laimanhua checker reverses document order "to get the latest chapter
  first" (helpers/checkers/laimanhua.py:35-36), so its list is newest first.
  The syosetu checker keeps document order.
- The syosetu checker does not test the title: an anchor whose text is empty
  or only whitespace gives a chapter with an empty title.

## Model

| member | source | states |
|---|---|---|
| `Laimanhua.LaimanhuaChecker.GetLatestChapterList` | helpers/checkers/laimanhua.py:15-36 | The loop returns exactly `ChapterList(checkUrl, soup)`. An absent page gives `Ok([])`. A page without `div#play_0` gives `Err(NoPlayList)`. A titled anchor without `href` gives `Err(MissingHref)`. Otherwise the result is the reversed list of chapters of the titled anchors. |
| `Laimanhua.HasTitle` | helpers/checkers/laimanhua.py:27 | Python truthiness of `chapter_tag.get("title")`: an absent title and an empty title are falsy, any other title is truthy. The contract spells out the definition case by case; what the checker does with untitled anchors is stated by `Laimanhua.UntitledIgnored`. |
| `Laimanhua.DocumentOrderStep` | helpers/checkers/laimanhua.py:26-33 | Looking at one more anchor appends its chapter when its `title` is truthy, and nothing otherwise. |
| `Laimanhua.ChaptersOf` | helpers/checkers/laimanhua.py:28-33 | One chapter per kept anchor, in order. Chapter k has anchor k's `title` and `check_url` with its path replaced by anchor k's `href`. |
| `Laimanhua.ChapterCount` | helpers/checkers/laimanhua.py:24-33 | The number of chapters equals the number of anchors in `div#play_0` whose `title` is present and non-empty. |
| `Laimanhua.DocumentSources` | helpers/checkers/laimanhua.py:26-33 | Before the reversal, chapter k comes from the titled anchor at position up[k]: its `title`, and `check_url` with the path set to its `href`. The positions strictly increase and are exactly the positions of the titled anchors. |
| `Laimanhua.ChapterSources` | helpers/checkers/laimanhua.py:26-36 | Chapter j comes from the titled anchor at position idx[j]. Its title is exactly that anchor's `title`. Its URL path is the anchor's `href`, and its scheme, netloc, params, query and fragment are those of `check_url`. The positions strictly decrease (the list is reversed). They are exactly the positions of the titled anchors. |
| `Laimanhua.NewestFirst` | helpers/checkers/laimanhua.py:35-36 | The first chapter is built from the last titled anchor of the play list. |
| `Laimanhua.UntitledIgnored` | helpers/checkers/laimanhua.py:27 | An anchor whose `title` is absent or empty contributes nothing. Removing it from the list leaves the outcome unchanged. |
| `Seqs.Reversed` | helpers/checkers/laimanhua.py:36 | `[::-1]`: the result has the same length and element k is element `len-1-k` of the input. |
| `Chapters.ChapterAt` | helpers/checkers/laimanhua.py:28-33 | The chapter has the given title and URL path `href`. Putting `check_url`'s path back into the chapter URL gives `check_url`, so scheme, netloc, params, query and fragment are unchanged. The syosetu checker builds its chapters the same way (helpers/checkers/syosetu.py:29-33). |
| `Syosetu.IsSubtitle` | helpers/checkers/syosetu.py:25 | An anchor is selected exactly when one of the values of its multi-valued `class` attribute is `p-eplist__subtitle`. The contract spells out the definition; what the checker does with other anchors is stated by `Syosetu.OtherAnchorsIgnored`. |
| `Syosetu.SyosetuChecker.GetLatestChapterList` | helpers/checkers/syosetu.py:15-35 | The loop returns exactly `ChapterList(checkUrl, soup)`. An absent page gives `Ok([])`. A subtitle anchor without `href` gives `Err(MissingHref)`. Otherwise the result is one chapter per subtitle anchor, in document order. |
| `Syosetu.ChaptersOf` | helpers/checkers/syosetu.py:27-33 | One chapter per subtitle anchor, in order. Chapter k has anchor k's text stripped, and `check_url` with its path replaced by anchor k's `href`. |
| `Syosetu.FromAnchorsOk` | helpers/checkers/syosetu.py:25-29 | A parsed page yields a list exactly when every anchor with class `p-eplist__subtitle` has an `href`. |
| `Syosetu.ChapterCount` | helpers/checkers/syosetu.py:25-33 | The number of chapters equals the number of anchors with class `p-eplist__subtitle`. |
| `Syosetu.ChapterSources` | helpers/checkers/syosetu.py:25-35 | Chapter j comes from the subtitle anchor at position idx[j]. Its title is that anchor's text, stripped. Its URL path is the anchor's `href`, and the other URL components are those of `check_url`. The positions strictly increase (no filtering beyond the class, no reversal). They are exactly the positions of the subtitle anchors. |
| `Syosetu.TitlesStripped` | helpers/checkers/syosetu.py:28 | Every chapter title neither starts nor ends with whitespace, and stripping it again changes nothing. |
| `Syosetu.OtherAnchorsIgnored` | helpers/checkers/syosetu.py:25 | An anchor without the subtitle class contributes nothing. Removing it leaves the outcome unchanged. |
| `Text.IsSpace` | helpers/checkers/syosetu.py:28 | The whitespace set of `str.strip()`: space, tab, newline, vertical tab, form feed and carriage return are whitespace; no ASCII letter or digit is. |
| `Text.Strip` | helpers/checkers/syosetu.py:28 | `chapter_tag.text.strip()` never lengthens the text, and leaves a text that neither starts nor ends with whitespace as it is. |
| `Text.TrimStartSplit` | helpers/checkers/syosetu.py:28 | The string is a whitespace run followed by what `lstrip` keeps, and what it keeps does not start with whitespace. |
| `Text.TrimEndSplit` | helpers/checkers/syosetu.py:28 | The string is what `rstrip` keeps followed by a whitespace run, and what it keeps does not end with whitespace. |
| `Text.StripSplit` | helpers/checkers/syosetu.py:28 | `strip` removes only whitespace, and only at the two ends: the input is a whitespace run, then `Strip(s)`, then a whitespace run. |
| `Text.StripTrimmed` | helpers/checkers/syosetu.py:28 | `Strip(s)` is empty, or it neither starts nor ends with whitespace. |
| `Text.StripIdempotent` | helpers/checkers/syosetu.py:28 | Stripping twice is the same as stripping once. |
| `Text.RemoveAll` | helpers/WutuxsHelper.py:13 | `str.replace(pat, "")` never lengthens the string. What it deletes is stated by `Text.RemoveAllAbsent` and `Text.RemoveAllFirst`. |
| `Text.RemoveAllAbsent` | helpers/WutuxsHelper.py:13 | A string in which the pattern does not occur is returned unchanged. |
| `Text.RemoveAllFirst` | helpers/WutuxsHelper.py:13 | For `a + pat + b` where `pat` does not occur in `a` or overlapping the boundary with this copy, the result is `a` followed by the removal applied to `b`: the leftmost occurrence is deleted, the text before it is kept, and scanning resumes after it. With `Text.RemoveAllAbsent`, this fixes the result on every string. |
| `Text.RemoveAllCount` | helpers/WutuxsHelper.py:13 | The length drops by a whole multiple k of the pattern's length. When k is 0 the string is unchanged. |
| `Wutuxs.ALinkOf` | helpers/WutuxsHelper.py:13 | `a_link` is never longer than the tracked URL. |
| `Wutuxs.ALinkOfOffSite` | helpers/WutuxsHelper.py:13 | A tracked URL in which `BASE_URL` does not occur is kept whole as `a_link`. |
| `Wutuxs.ALinkOfBookUrl` | helpers/WutuxsHelper.py:13 | For a tracked URL `BASE_URL + path` with no further occurrence of `BASE_URL`, `a_link` is `path`. |
| `Wutuxs.WutuxsHelper.constructor` | helpers/WutuxsHelper.py:10-19 | Sets `a_link` to the URL with `BASE_URL` removed. Caches the latest chapter and the chapter count of the page, and the transliteration of the latest title. |
| `Wutuxs.WutuxsHelper.GetLatestChapter` | helpers/WutuxsHelper.py:38-63 | The loop sets `chapter_count` to the number of kept entries. It returns `(BASE_URL + link, title)` of the last kept entry, or `(None, None)`. |
| `Wutuxs.Considered` | helpers/WutuxsHelper.py:43 | `range(0, len(a_tags) - 1)`: the anchors looked at are a prefix of the page's anchors, one shorter than the page (none on a page without anchors). |
| `Wutuxs.Keeps` | helpers/WutuxsHelper.py:46-50 | An anchor without `href` is skipped (the `KeyError` is caught). A kept anchor's `href` is `a_link` followed by the rest of the link. The contract spells out the definition; which anchors end up as entries is stated by `Wutuxs.EntrySources`. |
| `Wutuxs.KeptEntriesStep` | helpers/WutuxsHelper.py:44-52 | Looking at one more anchor appends `(href, .string)` when it has an `href` starting with `a_link`. Anchors without `href` and other links add nothing. |
| `Wutuxs.EntriesOf` | helpers/WutuxsHelper.py:49-50 | One entry per kept anchor, in order: its `href` and its `.string`. |
| `Wutuxs.EntrySources` | helpers/WutuxsHelper.py:42-52 | Entry j comes from the anchor at position idx[j]. That anchor is before the final one, and its `href` starts with `a_link`. The entry is that anchor's `href` and `.string`. The positions strictly increase (document order). They are exactly the positions before the final one whose `href` starts with `a_link`. |
| `Wutuxs.ChapterCount` | helpers/WutuxsHelper.py:54 | `chapter_count` equals the number of anchors, final one excluded, whose `href` starts with `a_link`. |
| `Wutuxs.FinalAnchorIgnored` | helpers/WutuxsHelper.py:43 | The final anchor never affects the entries, and a page with a single anchor has none. |
| `Wutuxs.LatestOf` | helpers/WutuxsHelper.py:56-63 | The latest URL is `None` exactly when there is no entry, and then the title is `None` too. Otherwise the URL is `BASE_URL` followed by the last entry's link, and the title is that entry's `.string`. |
| `Wutuxs.LatestIsLastKept` | helpers/WutuxsHelper.py:56-61 | The latest chapter is `BASE_URL` + `href` and the `.string` of the last anchor, before the final one, whose `href` starts with `a_link`. |
| `Wutuxs.NoLatest` | helpers/WutuxsHelper.py:56-63 | The result is `(None, None)` exactly when no anchor before the final one has an `href` starting with `a_link`. |
| `Wutuxs.WutuxsHelper.CheckUpdate` | helpers/WutuxsHelper.py:65-75 | Returns true exactly when the fetched latest title differs from the cached one. Two `None` titles count as equal. On true, the cached URL and title become the fetched latest, and the cached traditional title becomes the transliteration of the new title. On false, all three are unchanged. `chapter_count` is refreshed either way. |
| `Wutuxs.RecheckSamePage` | helpers/WutuxsHelper.py:65-75 | Two checks of the same page in a row: the second reports no update, and the cached title is the page's latest title. |

## Left out

- HTTP fetching, the unbounded 30-minute retry loop with `sleep`, and the double `requests.get` that drops the gb18030 encoding (helpers/WutuxsHelper.py:22-36). These are network I/O. The page's anchors are a parameter. `checkUpdate` fetches twice; both fetches see the same page, passed once.
- `get_latest_soup`, the checker base class and the `get_latest_chapter` helper are not part of this model. The `Chapter` class (helpers/chapter.py) is not part of this model either: it is represented by the record `Chapters.Chapter`, and any checks it makes when it is constructed are not modelled. The checker's `check_url` is given already split into its components.
- BeautifulSoup's `find`/`findAll`: `Html.Page` holds their results. The class selection of the syosetu checker is modelled as membership of `p-eplist__subtitle` in the anchor's class list. Matching against the whole class string is not modelled.
- `if not soup` in the syosetu checker is modelled as "no parsed page". A parsed BeautifulSoup document is always truthy.
- `urlparse`/`urlunparse` at the string level. For example, `urlunparse` puts a `/` before a relative path when there is a netloc. The chapter URL is the six-component record, whose path is exactly the `href`.
- `HanziConv.toTraditional` is a conversion function supplied when the helper is built (`toTraditional`). What the library does with a `None` title is not modelled.
- `Text.RemoveAll`: its own contract states only the length bound. What it deletes is stated by the lemmas `Text.RemoveAllAbsent` and `Text.RemoveAllFirst`.
- `Text.RemoveAll` requires a non-empty pattern. `str.replace` with an empty pattern inserts the replacement between characters. The only pattern used here is the non-empty constant `BASE_URL`.
- helpers/tg.py (the Telegram bot, credentials, message rendering and its retry loop) and tests/test_checkers.py (live-network tests). These are UI, transport and network tests.
