/** `WutuxsHelper`: tracks one wutuxs novel, remembers its latest chapter and
    reports when the latest chapter's title changes. */
module Wutuxs {
  import opened Wrappers
  import opened Seqs
  import opened Text
  import opened Html

  /** The site's address; chapter links on a page are relative to it. */
  const BaseUrl := "http://www.wutuxs.com"

  /** A kept link: its `href` and the anchor's `.string` as the chapter title. */
  datatype Entry = Entry(link: string, title: Option<string>)

  /** `url.replace(BASE_URL, "")`: the prefix a chapter link of the book starts with. */
  function ALinkOf(url: string): (r: string)
    ensures |r| <= |url|
  {
    RemoveAll(url, BaseUrl)
  }

  /** A URL in which `BaseUrl` does not occur is its own `a_link`. */
  lemma ALinkOfOffSite(url: string)
    requires !Occurs(BaseUrl, url)
    ensures ALinkOf(url) == url
  {
    RemoveAllAbsent(url, BaseUrl);
  }

  /** `range(0, len(a_tags) - 1)`: every anchor but the final one is looked at. */
  function Considered(aTags: seq<Anchor>): (r: seq<Anchor>)
    ensures r <= aTags
    ensures |r| == if aTags == [] then 0 else |aTags| - 1
  {
    if aTags == [] then [] else aTags[..|aTags| - 1]
  }

  /** The anchor has an `href` (otherwise `one_a_tag["href"]` raises `KeyError`,
      which is caught) and it starts with `aLink`. */
  predicate Keeps(aLink: string, a: Anchor)
    ensures a.href.None? ==> !Keeps(aLink, a)
    ensures Keeps(aLink, a) ==>
      a.href.Some? && |aLink| <= |a.href.value| && a.href.value == aLink + a.href.value[|aLink|..]
  {
    a.href.Some? && aLink <= a.href.value
  }

  /** `Keeps(aLink, _)` as a test to select with. */
  function KeepsLink(aLink: string): Anchor -> bool
  {
    a => Keeps(aLink, a)
  }

  /** One entry per anchor of `kept`, in the same order. */
  function EntriesOf(kept: seq<Anchor>): (r: seq<Entry>)
    requires forall a | a in kept :: a.href.Some?
    ensures |r| == |kept|
    ensures forall k :: 0 <= k < |kept| ==> r[k] == Entry(kept[k].href.value, kept[k].str)
  {
    if kept == [] then []
    else
      var a := kept[|kept| - 1];
      EntriesOf(kept[..|kept| - 1]) + [Entry(a.href.value, a.str)]
  }

  /** The entries for the anchors of `seen` whose `href` starts with `aLink`. */
  function KeptEntries(aLink: string, seen: seq<Anchor>): seq<Entry>
  {
    FilterMembers(seen, KeepsLink(aLink));
    EntriesOf(Filter(seen, KeepsLink(aLink)))
  }

  /** The `chapter_list` that `getLatestChapter` builds from the page's anchors. */
  function ChapterEntries(aLink: string, aTags: seq<Anchor>): seq<Entry>
  {
    KeptEntries(aLink, Considered(aTags))
  }

  /** Looking at one more anchor appends its entry when it is kept, and nothing otherwise. */
  lemma KeptEntriesStep(aLink: string, seen: seq<Anchor>, a: Anchor)
    ensures KeptEntries(aLink, seen + [a]) ==
      KeptEntries(aLink, seen) + (if Keeps(aLink, a) then [Entry(a.href.value, a.str)] else [])
  {
  }

  /** The latest chapter's absolute URL and title: the last entry's, or
      `(None, None)` when there is no entry. */
  function LatestOf(entries: seq<Entry>): (r: (Option<string>, Option<string>))
    ensures r.0.None? <==> entries == []
    ensures r.0.None? ==> r.1.None?
    ensures entries != [] ==>
      BaseUrl <= r.0.value && r.0.value[|BaseUrl|..] == entries[|entries| - 1].link &&
      r.1 == entries[|entries| - 1].title
  {
    if entries == [] then (None, None)
    else
      var last := entries[|entries| - 1];
      (Some(BaseUrl + last.link), last.title)
  }

  /** For a book URL under the site, `a_link` is the URL's path on the site. */
  lemma ALinkOfBookUrl(path: string)
    requires !Occurs(BaseUrl, path)
    ensures ALinkOf(BaseUrl + path) == path
  {
    var url := BaseUrl + path;
    assert BaseUrl <= url;
    assert url[|BaseUrl|..] == path;
    RemoveAllAbsent(path, BaseUrl);
  }

  /** Entry `j` comes from the anchor at position `idx[j]`, which is not the final
      anchor and has an `href` starting with `aLink`; the positions increase
      (document order) and are exactly the positions of such anchors. */
  lemma EntrySources(aLink: string, aTags: seq<Anchor>) returns (idx: seq<nat>)
    ensures var entries := ChapterEntries(aLink, aTags);
      |idx| == |entries| &&
      forall j :: 0 <= j < |idx| ==>
        idx[j] < |aTags| - 1 && Keeps(aLink, aTags[idx[j]]) &&
        entries[j] == Entry(aTags[idx[j]].href.value, aTags[idx[j]].str)
    ensures forall j, l :: 0 <= j < l < |idx| ==> idx[j] < idx[l]
    ensures forall i: nat :: i in idx <==> i < |aTags| - 1 && Keeps(aLink, aTags[i])
  {
    var seen := Considered(aTags);
    var kept := Filter(seen, KeepsLink(aLink));
    idx := FilterIndices(seen, KeepsLink(aLink));
    forall j | 0 <= j < |idx|
      ensures Keeps(aLink, aTags[idx[j]])
      ensures ChapterEntries(aLink, aTags)[j] == Entry(aTags[idx[j]].href.value, aTags[idx[j]].str)
    {
      assert seen[idx[j]] == aTags[idx[j]];
      assert KeepsLink(aLink)(seen[idx[j]]);
    }
    forall i: nat | i < |aTags| - 1 ensures Keeps(aLink, aTags[i]) <==> KeepsLink(aLink)(seen[i]) {
      assert seen[i] == aTags[i];
    }
  }

  /** `chapter_count` counts the anchors, final one excluded, whose `href`
      starts with `aLink`. */
  lemma ChapterCount(aLink: string, aTags: seq<Anchor>)
    ensures |ChapterEntries(aLink, aTags)| == CountWhere(Considered(aTags), KeepsLink(aLink))
  {
    FilterLength(Considered(aTags), KeepsLink(aLink));
  }

  /** The final anchor never matters, and a page with at most one anchor has
      no entry. */
  lemma FinalAnchorIgnored(aLink: string, aTags: seq<Anchor>, a: Anchor, b: Anchor)
    ensures ChapterEntries(aLink, aTags + [a]) == ChapterEntries(aLink, aTags + [b])
    ensures |aTags| == 0 ==> ChapterEntries(aLink, aTags + [a]) == []
  {
  }

  /** The latest chapter is the last anchor before the final one whose `href`
      starts with `aLink`, with `BaseUrl` put in front of its link. */
  lemma LatestIsLastKept(aLink: string, aTags: seq<Anchor>, i: nat)
    requires i < |aTags| - 1 && Keeps(aLink, aTags[i])
    requires forall j :: i < j < |aTags| - 1 ==> !Keeps(aLink, aTags[j])
    ensures LatestOf(ChapterEntries(aLink, aTags)) == (Some(BaseUrl + aTags[i].href.value), aTags[i].str)
  {
    var idx := EntrySources(aLink, aTags);
    var m :| 0 <= m < |idx| && idx[m] == i;
  }

  /** There is no latest chapter exactly when no anchor before the final one
      has an `href` starting with `aLink`. */
  lemma NoLatest(aLink: string, aTags: seq<Anchor>)
    ensures LatestOf(ChapterEntries(aLink, aTags)) == (None, None) <==>
      forall i :: 0 <= i < |aTags| - 1 ==> !Keeps(aLink, aTags[i])
  {
    var idx := EntrySources(aLink, aTags);
    if idx != [] {
      assert idx[0] in idx;
    }
  }

  class WutuxsHelper {
    const name: string
    const url: string
    /** `url` with every occurrence of `BaseUrl` removed. */
    const aLink: string
    /** `HanziConv.toTraditional`, supplied by the caller. */
    const toTraditional: Option<string> -> Option<string>

    var chapterCount: nat
    var latestChapterUrl: Option<string>
    var latestChapterTitle: Option<string>
    var latestChapterTitleCht: Option<string>

    /** Derives `aLink` from `url` and caches the latest chapter found on `aTags`,
        the anchors of the book's page. */
    constructor (name: string, url: string, aTags: seq<Anchor>, toTraditional: Option<string> -> Option<string>)
      ensures this.name == name && this.url == url && this.toTraditional == toTraditional
      ensures aLink == ALinkOf(url)
      ensures chapterCount == |ChapterEntries(aLink, aTags)|
      ensures (latestChapterUrl, latestChapterTitle) == LatestOf(ChapterEntries(aLink, aTags))
      ensures latestChapterTitleCht == toTraditional(latestChapterTitle)
    {
      this.name := name;
      this.url := url;
      this.aLink := ALinkOf(url);
      this.toTraditional := toTraditional;
      this.chapterCount := 0;
      new;
      latestChapterUrl, latestChapterTitle := GetLatestChapter(aTags);
      latestChapterTitleCht := toTraditional(latestChapterTitle);
    }

    /** Collects the links, final anchor excluded, that start with `aLink`,
        records how many there are, and returns the last one made absolute with
        its title, or `(None, None)`. */
    method GetLatestChapter(aTags: seq<Anchor>) returns (latestUrl: Option<string>, latestTitle: Option<string>)
      modifies this`chapterCount
      ensures chapterCount == |ChapterEntries(aLink, aTags)|
      ensures (latestUrl, latestTitle) == LatestOf(ChapterEntries(aLink, aTags))
    {
      var chapterList: seq<Entry> := [];
      var i := 0;
      while i < |aTags| - 1
        invariant i <= |Considered(aTags)|
        invariant chapterList == KeptEntries(aLink, aTags[..i])
      {
        var oneATag := aTags[i];
        assert aTags[..i + 1] == aTags[..i] + [oneATag];
        KeptEntriesStep(aLink, aTags[..i], oneATag);
        if oneATag.href.Some? {
          var link := oneATag.href.value;
          if aLink <= link {
            chapterList := chapterList + [Entry(link, oneATag.str)];
          }
        }
        i := i + 1;
      }
      assert aTags[..i] == Considered(aTags);
      chapterCount := |chapterList|;
      if chapterList == [] {
        return None, None;
      }
      var last := chapterList[|chapterList| - 1];
      return Some(BaseUrl + last.link), last.title;
    }

    /** Fetches the latest chapter again; when its title differs from the cached
        one, caches its URL, title and traditional-script title and reports an
        update. */
    method CheckUpdate(aTags: seq<Anchor>) returns (updated: bool)
      modifies this`chapterCount, this`latestChapterUrl, this`latestChapterTitle, this`latestChapterTitleCht
      ensures chapterCount == |ChapterEntries(aLink, aTags)|
      ensures updated <==> LatestOf(ChapterEntries(aLink, aTags)).1 != old(latestChapterTitle)
      ensures updated ==>
        (latestChapterUrl, latestChapterTitle) == LatestOf(ChapterEntries(aLink, aTags)) &&
        latestChapterTitleCht == toTraditional(latestChapterTitle)
      ensures !updated ==>
        latestChapterUrl == old(latestChapterUrl) && latestChapterTitle == old(latestChapterTitle) &&
        latestChapterTitleCht == old(latestChapterTitleCht)
    {
      var _, title := GetLatestChapter(aTags);
      if title != latestChapterTitle {
        latestChapterUrl, latestChapterTitle := GetLatestChapter(aTags);
        latestChapterTitleCht := toTraditional(latestChapterTitle);
        return true;
      } else {
        return false;
      }
    }
  }

  /** Checking the same page twice in a row: the second check reports nothing,
      and the cached title is the page's latest title. */
  method RecheckSamePage(h: WutuxsHelper, aTags: seq<Anchor>) returns (first: bool, second: bool)
    modifies h
    ensures !second
    ensures h.latestChapterTitle == LatestOf(ChapterEntries(h.aLink, aTags)).1
  {
    first := h.CheckUpdate(aTags);
    second := h.CheckUpdate(aTags);
  }
}
