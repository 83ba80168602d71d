/** `SyosetuChecker.get_latest_chapter_list`: the chapters of a syosetu novel
    page are its `a.p-eplist__subtitle` links, in document order. */
module Syosetu {
  import opened Wrappers
  import opened Seqs
  import opened Text
  import opened Html
  import opened Chapters

  /** The class that marks a chapter link. */
  const SubtitleClass := "p-eplist__subtitle"

  /** `findAll("a", {"class": "p-eplist__subtitle"})` selects the anchor. */
  predicate IsSubtitle(a: Anchor)
    ensures IsSubtitle(a) <==> exists k :: 0 <= k < |a.classes| && a.classes[k] == SubtitleClass
  {
    SubtitleClass in a.classes
  }

  /** One chapter per anchor of `dlList`, in the same order, titled by the
      anchor's stripped text. */
  function ChaptersOf(checkUrl: Url, dlList: seq<Anchor>): (r: seq<Chapter>)
    requires forall a | a in dlList :: a.href.Some?
    ensures |r| == |dlList|
    ensures forall k :: 0 <= k < |dlList| ==>
      r[k] == ChapterAt(checkUrl, Strip(dlList[k].text), dlList[k].href.value)
  {
    if dlList == [] then []
    else
      var a := dlList[|dlList| - 1];
      ChaptersOf(checkUrl, dlList[..|dlList| - 1]) + [ChapterAt(checkUrl, Strip(a.text), a.href.value)]
  }

  /** The outcome for the anchors of a parsed page. */
  function FromAnchors(checkUrl: Url, anchors: seq<Anchor>): Result<seq<Chapter>, CheckError>
  {
    var dlList := Filter(anchors, IsSubtitle);
    if forall a | a in dlList :: a.href.Some? then Ok(ChaptersOf(checkUrl, dlList))
    else Err(MissingHref)
  }

  /** The outcome of `get_latest_chapter_list` on the parsed page `soup`
      (`None` when there is no parsed page). */
  function ChapterList(checkUrl: Url, soup: Option<Page>): Result<seq<Chapter>, CheckError>
  {
    if soup.None? then Ok([]) else FromAnchors(checkUrl, soup.value.anchors)
  }

  /** The outcome is a list exactly when every subtitle anchor has an `href`. */
  lemma FromAnchorsOk(checkUrl: Url, anchors: seq<Anchor>)
    ensures FromAnchors(checkUrl, anchors).Ok? <==>
      forall a | a in anchors && IsSubtitle(a) :: a.href.Some?
  {
    FilterMembers(anchors, IsSubtitle);
  }

  /** There is one chapter per subtitle anchor. */
  lemma ChapterCount(checkUrl: Url, anchors: seq<Anchor>)
    requires FromAnchors(checkUrl, anchors).Ok?
    ensures |FromAnchors(checkUrl, anchors).value| == CountWhere(anchors, IsSubtitle)
  {
    FilterLength(anchors, IsSubtitle);
  }

  /** Chapter `j` comes from the subtitle anchor at position `idx[j]`: its title
      is that anchor's text stripped of surrounding whitespace, its URL is
      `checkUrl` with only the path replaced by the anchor's `href`; the
      positions increase (document order, no reversal) and are exactly the
      positions of the subtitle anchors. */
  lemma ChapterSources(checkUrl: Url, anchors: seq<Anchor>) returns (idx: seq<nat>)
    requires FromAnchors(checkUrl, anchors).Ok?
    ensures var cs := FromAnchors(checkUrl, anchors).value;
      |idx| == |cs| &&
      forall j :: 0 <= j < |idx| ==>
        idx[j] < |anchors| && IsSubtitle(anchors[idx[j]]) && anchors[idx[j]].href.Some? &&
        cs[j].title == Strip(anchors[idx[j]].text) &&
        cs[j].url.path == anchors[idx[j]].href.value &&
        OnlyPathDiffers(cs[j].url, checkUrl)
    ensures forall j, l :: 0 <= j < l < |idx| ==> idx[j] < idx[l]
    ensures forall i: nat :: i in idx <==> i < |anchors| && IsSubtitle(anchors[i])
  {
    var dlList := Filter(anchors, IsSubtitle);
    idx := FilterIndices(anchors, IsSubtitle);
    var cs := FromAnchors(checkUrl, anchors).value;
    forall j | 0 <= j < |idx|
      ensures anchors[idx[j]].href.Some? && cs[j] == ChapterAt(checkUrl, Strip(dlList[j].text), dlList[j].href.value)
    {
      assert dlList[j] in dlList;
    }
  }

  /** Every chapter title is already stripped: it neither starts nor ends with
      whitespace, and stripping it again changes nothing. */
  lemma TitlesStripped(checkUrl: Url, anchors: seq<Anchor>)
    requires FromAnchors(checkUrl, anchors).Ok?
    ensures forall c | c in FromAnchors(checkUrl, anchors).value ::
      Strip(c.title) == c.title &&
      (c.title == [] || (!IsSpace(c.title[0]) && !IsSpace(c.title[|c.title| - 1])))
  {
    var dlList := Filter(anchors, IsSubtitle);
    var cs := FromAnchors(checkUrl, anchors).value;
    forall c | c in cs
      ensures Strip(c.title) == c.title
      ensures c.title == [] || (!IsSpace(c.title[0]) && !IsSpace(c.title[|c.title| - 1]))
    {
      var k :| 0 <= k < |cs| && cs[k] == c;
      var text := dlList[k].text;
      assert c.title == Strip(text);
      StripIdempotent(text);
      StripTrimmed(text);
    }
  }

  /** An anchor without the subtitle class contributes nothing: removing it
      leaves the outcome as it was. */
  lemma OtherAnchorsIgnored(checkUrl: Url, before: seq<Anchor>, a: Anchor, after: seq<Anchor>)
    requires !IsSubtitle(a)
    ensures FromAnchors(checkUrl, before + [a] + after) == FromAnchors(checkUrl, before + after)
  {
    FilterConcat(before + [a], after, IsSubtitle);
    FilterConcat(before, [a], IsSubtitle);
    FilterConcat(before, after, IsSubtitle);
    assert Filter([a], IsSubtitle) == [];
  }

  class SyosetuChecker {
    /** `check_url`, already split into its components. */
    const checkUrl: Url

    constructor (checkUrl: Url)
      ensures this.checkUrl == checkUrl
    {
      this.checkUrl := checkUrl;
    }

    /** Turns every subtitle link of the page into a chapter, in document order;
        an absent page gives the empty list. */
    method GetLatestChapterList(soup: Option<Page>) returns (r: Result<seq<Chapter>, CheckError>)
      ensures soup.None? ==> r == Ok([])
      ensures r == ChapterList(checkUrl, soup)
    {
      if soup.None? {
        return Ok([]);
      }
      var dlList := Filter(soup.value.anchors, IsSubtitle);
      var chapterList: seq<Chapter> := [];
      var i := 0;
      while i < |dlList|
        invariant i <= |dlList|
        invariant forall a | a in dlList[..i] :: a.href.Some?
        invariant chapterList == ChaptersOf(checkUrl, dlList[..i])
      {
        var chapterTag := dlList[i];
        assert dlList[..i + 1] == dlList[..i] + [chapterTag];
        if chapterTag.href.None? {
          assert chapterTag in dlList;
          return Err(MissingHref);
        }
        var chapterTitle := Strip(chapterTag.text);
        var chapterPath := chapterTag.href.value;
        chapterList := chapterList + [ChapterAt(checkUrl, chapterTitle, chapterPath)];
        assert dlList[..i + 1][..i] == dlList[..i];
        i := i + 1;
      }
      assert dlList[..i] == dlList;
      return Ok(chapterList);
    }
  }
}
