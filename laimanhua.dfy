/** `LaimanhuaChecker.get_latest_chapter_list`: the chapters of a laimanhua
    comic page are the titled links inside `div#play_0`, newest first. */
module Laimanhua {
  import opened Wrappers
  import opened Seqs
  import opened Html
  import opened Chapters

  /** `chapter_tag.get("title")` is truthy: the attribute is present and not empty. */
  predicate HasTitle(a: Anchor)
    ensures a.title.None? ==> !HasTitle(a)
    ensures a.title == Some("") ==> !HasTitle(a)
    ensures a.title.Some? && a.title.value != "" ==> HasTitle(a)
  {
    a.title.Some? && a.title.value != ""
  }

  /** Every titled anchor of `aList` has an `href`, so reading it cannot raise. */
  predicate TitledHaveHref(aList: seq<Anchor>)
  {
    forall a | a in aList && HasTitle(a) :: a.href.Some?
  }

  /** One chapter per anchor of `kept`, in the same order. */
  function ChaptersOf(checkUrl: Url, kept: seq<Anchor>): (r: seq<Chapter>)
    requires forall a | a in kept :: a.title.Some? && a.href.Some?
    ensures |r| == |kept|
    ensures forall k :: 0 <= k < |kept| ==>
      r[k] == ChapterAt(checkUrl, kept[k].title.value, kept[k].href.value)
  {
    if kept == [] then []
    else
      var a := kept[|kept| - 1];
      ChaptersOf(checkUrl, kept[..|kept| - 1]) + [ChapterAt(checkUrl, a.title.value, a.href.value)]
  }

  /** The chapters of the titled anchors of `aList`, in document order; the list
      the loop builds. */
  function DocumentOrder(checkUrl: Url, aList: seq<Anchor>): seq<Chapter>
    requires TitledHaveHref(aList)
  {
    FilterMembers(aList, HasTitle);
    ChaptersOf(checkUrl, Filter(aList, HasTitle))
  }

  /** The outcome for the links found inside `div#play_0`. */
  function FromPlayList(checkUrl: Url, aList: seq<Anchor>): Result<seq<Chapter>, CheckError>
  {
    if TitledHaveHref(aList) then Ok(Reversed(DocumentOrder(checkUrl, aList)))
    else Err(MissingHref)
  }

  /** The outcome of `get_latest_chapter_list` on the parsed page `soup`
      (`None` when there is no parsed page). */
  function ChapterList(checkUrl: Url, soup: Option<Page>): Result<seq<Chapter>, CheckError>
  {
    if soup.None? then Ok([])
    else if soup.value.play0.None? then Err(NoPlayList)
    else FromPlayList(checkUrl, soup.value.play0.value)
  }

  /** Appending an anchor appends its chapter when it is titled, and nothing otherwise. */
  lemma DocumentOrderStep(checkUrl: Url, aList: seq<Anchor>, a: Anchor)
    requires TitledHaveHref(aList + [a])
    ensures TitledHaveHref(aList)
    ensures DocumentOrder(checkUrl, aList + [a]) ==
      DocumentOrder(checkUrl, aList) +
      (if HasTitle(a) then [ChapterAt(checkUrl, a.title.value, a.href.value)] else [])
  {
  }

  /** There is one chapter per titled anchor. */
  lemma ChapterCount(checkUrl: Url, aList: seq<Anchor>)
    requires FromPlayList(checkUrl, aList).Ok?
    ensures |FromPlayList(checkUrl, aList).value| == CountWhere(aList, HasTitle)
  {
    FilterLength(aList, HasTitle);
  }

  /** In document order, chapter `k` comes from the titled anchor at position
      `up[k]`; the positions increase and are exactly those of the titled anchors. */
  lemma DocumentSources(checkUrl: Url, aList: seq<Anchor>) returns (up: seq<nat>)
    requires TitledHaveHref(aList)
    ensures var doc := DocumentOrder(checkUrl, aList);
      |up| == |doc| &&
      forall k :: 0 <= k < |up| ==>
        up[k] < |aList| && HasTitle(aList[up[k]]) && aList[up[k]].href.Some? &&
        doc[k] == ChapterAt(checkUrl, aList[up[k]].title.value, aList[up[k]].href.value)
    ensures forall k, l :: 0 <= k < l < |up| ==> up[k] < up[l]
    ensures forall i: nat :: i in up <==> i in IndicesWhere(aList, HasTitle)
  {
    var kept := Filter(aList, HasTitle);
    up := FilterIndices(aList, HasTitle);
    forall k | 0 <= k < |up| ensures aList[up[k]].href.Some? {
      assert kept[k] == aList[up[k]];
    }
  }

  /** Chapter `j` comes from the titled anchor at position `idx[j]`: its title is
      that anchor's `title`, its URL is `checkUrl` with only the path replaced by
      the anchor's `href`; the positions decrease (newest first) and are exactly
      the positions of the titled anchors. */
  lemma ChapterSources(checkUrl: Url, aList: seq<Anchor>) returns (idx: seq<nat>)
    requires FromPlayList(checkUrl, aList).Ok?
    ensures var cs := FromPlayList(checkUrl, aList).value;
      |idx| == |cs| &&
      forall j :: 0 <= j < |idx| ==>
        idx[j] < |aList| && HasTitle(aList[idx[j]]) && aList[idx[j]].href.Some? &&
        cs[j].title == aList[idx[j]].title.value &&
        cs[j].url.path == aList[idx[j]].href.value &&
        OnlyPathDiffers(cs[j].url, checkUrl)
    ensures forall j, l :: 0 <= j < l < |idx| ==> idx[j] > idx[l]
    ensures forall i: nat :: i in idx <==> i in IndicesWhere(aList, HasTitle)
  {
    var up := DocumentSources(checkUrl, aList);
    var n := |up|;
    idx := Reversed(up);
    var cs := FromPlayList(checkUrl, aList).value;
    var doc := DocumentOrder(checkUrl, aList);
    assert cs == Reversed(doc);
    forall j | 0 <= j < n
      ensures idx[j] < |aList| && HasTitle(aList[idx[j]]) && aList[idx[j]].href.Some?
      ensures cs[j] == ChapterAt(checkUrl, aList[idx[j]].title.value, aList[idx[j]].href.value)
    {
      assert idx[j] == up[n - 1 - j];
      assert cs[j] == doc[n - 1 - j];
    }
    ReversedDecreasing(up);
    ReversedMembers(up);
  }

  /** The first chapter comes from the last titled anchor. */
  lemma NewestFirst(checkUrl: Url, aList: seq<Anchor>, i: nat)
    requires FromPlayList(checkUrl, aList).Ok?
    requires i < |aList| && HasTitle(aList[i])
    requires forall j :: i < j < |aList| ==> !HasTitle(aList[j])
    ensures var cs := FromPlayList(checkUrl, aList).value;
      cs != [] && cs[0] == ChapterAt(checkUrl, aList[i].title.value, aList[i].href.value)
  {
    var idx := ChapterSources(checkUrl, aList);
    var cs := FromPlayList(checkUrl, aList).value;
    assert i in IndicesWhere(aList, HasTitle);
    var m :| 0 <= m < |idx| && idx[m] == i;
  }

  /** An anchor whose `title` is absent or empty contributes nothing: removing it
      leaves the outcome as it was. */
  lemma UntitledIgnored(checkUrl: Url, before: seq<Anchor>, a: Anchor, after: seq<Anchor>)
    requires !HasTitle(a)
    ensures FromPlayList(checkUrl, before + [a] + after) == FromPlayList(checkUrl, before + after)
  {
    FilterConcat(before + [a], after, HasTitle);
    FilterConcat(before, [a], HasTitle);
    FilterConcat(before, after, HasTitle);
    assert Filter([a], HasTitle) == [];
    assert TitledHaveHref(before + [a] + after) == TitledHaveHref(before + after);
  }

  class LaimanhuaChecker {
    /** `check_url`, already split into its components. */
    const checkUrl: Url

    constructor (checkUrl: Url)
      ensures this.checkUrl == checkUrl
    {
      this.checkUrl := checkUrl;
    }

    /** Walks the links of `div#play_0`, keeps the titled ones as chapters and
        returns them reversed; an absent page gives the empty list. */
    method GetLatestChapterList(soup: Option<Page>) returns (r: Result<seq<Chapter>, CheckError>)
      ensures soup.None? ==> r == Ok([])
      ensures r == ChapterList(checkUrl, soup)
    {
      if soup.None? {
        return Ok([]);
      }
      if soup.value.play0.None? {
        return Err(NoPlayList);
      }
      var aList := soup.value.play0.value;
      var chapterList: seq<Chapter> := [];
      var i := 0;
      while i < |aList|
        invariant i <= |aList|
        invariant TitledHaveHref(aList[..i])
        invariant chapterList == DocumentOrder(checkUrl, aList[..i])
      {
        var chapterTag := aList[i];
        assert aList[..i + 1] == aList[..i] + [chapterTag];
        if HasTitle(chapterTag) {
          if chapterTag.href.None? {
            assert chapterTag in aList;
            return Err(MissingHref);
          }
          chapterList := chapterList + [ChapterAt(checkUrl, chapterTag.title.value, chapterTag.href.value)];
        }
        DocumentOrderStep(checkUrl, aList[..i], chapterTag);
        i := i + 1;
      }
      assert aList[..i] == aList;
      return Ok(Reversed(chapterList));
    }
  }
}
