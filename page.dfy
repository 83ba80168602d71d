/** What the HTML parser hands the checkers, reduced to the parts they query. */
module Html {
  import opened Wrappers

  /** One `<a>` element. */
  datatype Anchor = Anchor(
    href: Option<string>,    // the `href` attribute, when present
    title: Option<string>,   // the `title` attribute, when present
    text: string,            // all text inside the element (`.text`)
    str: Option<string>,     // the single string child (`.string`); absent when there is none or several
    classes: seq<string>)    // the multi-valued `class` attribute

  /** A parsed listing page. */
  datatype Page = Page(
    anchors: seq<Anchor>,          // every `<a>` of the document, in document order
    play0: Option<seq<Anchor>>)    // the `<a>` elements inside the first `div` whose id is `play_0`, when there is one
}

/** A URL split into its six `urlparse` components, and the chapter record. */
module Chapters {

  /** `urlparse(u)`: scheme://netloc/path;params?query#fragment. */
  datatype Url = Url(
    scheme: string,
    netloc: string,
    path: string,
    params: string,
    query: string,
    fragment: string)

  /** One chapter of a listing: its title and its absolute URL. */
  datatype Chapter = Chapter(title: string, url: Url)

  /** Why `get_latest_chapter_list` raises instead of returning. */
  datatype CheckError =
    | NoPlayList    // the page has no `div#play_0` (`None.findAll` raises)
    | MissingHref   // a selected anchor has no `href` attribute (`tag["href"]` raises)

  /** `u` and `v` differ at most in their path. */
  predicate OnlyPathDiffers(u: Url, v: Url)
  {
    u.scheme == v.scheme && u.netloc == v.netloc && u.params == v.params &&
    u.query == v.query && u.fragment == v.fragment
  }

  /** `Chapter(title, urlunparse(urlparse(check_url)._replace(path=href)))`:
      the chapter URL has path `href`, and putting `checkUrl`'s path back gives
      `checkUrl`, so no other component changes. */
  function ChapterAt(checkUrl: Url, title: string, href: string): (c: Chapter)
    ensures c.title == title && c.url.path == href
    ensures c.url.(path := checkUrl.path) == checkUrl
  {
    Chapter(title, checkUrl.(path := href))
  }
}
