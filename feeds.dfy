/**
 * `generateRssFeeds` of src/services/content.ts: a `Feed` object from the
 * `feed` package, configured with the blog's details, to which one item per
 * post is added. The `Feed` object is modelled by the part of it this code
 * uses: the options it is built with and the items `addItem` appends. The
 * RSS 2.0, Atom and JSON texts the package renders, and writing them to
 * disk, are left out.
 */
module Feeds {
  import opened Seqs
  import opened Content
  import Sitemap

  datatype Person = Person(name: string, email: string, link: string)

  datatype FeedLinks = FeedLinks(rss2: string, json: string, atom: string)

  /** The options object passed to `new Feed(...)`; `updated` is the run's current time as ISO text. */
  datatype FeedOptions = FeedOptions(
    title: string, description: string, id: string, link: string,
    image: string, favicon: string, copyright: string, updated: string,
    generator: string, feedLinks: FeedLinks, author: Person)

  /** The object passed to `addItem`; `date` is the post's ISO date text. */
  datatype FeedItem = FeedItem(
    title: string, id: string, link: string, description: string, content: string,
    author: seq<Person>, contributor: seq<Person>, date: string)

  const Author: Person := Person("Ben Fox", "social@nullfox.com", "https://linkedin.com/in/nullfox")

  /** The decimal digits of `n`, as `${n}` prints an integer. */
  function Decimal(n: nat): (r: string)
    ensures r != [] && AllDigits(r)
    ensures |r| > 1 ==> r[0] != '0'
    decreases n
  {
    if n < 10 then [DigitChar(n)] else Decimal(n / 10) + [DigitChar(n % 10)]
  }

  function DigitChar(d: nat): (c: char)
    requires d < 10
    ensures '0' <= c <= '9' && c as int - '0' as int == d
  {
    ('0' as int + d) as char
  }

  predicate AllDigits(s: string) {
    forall i | 0 <= i < |s| :: '0' <= s[i] <= '9'
  }

  /** The number a text of decimal digits denotes. */
  function DecimalValue(s: string): nat
    requires AllDigits(s)
  {
    if s == [] then 0
    else DecimalValue(s[..|s| - 1]) * 10 + (s[|s| - 1] as int - '0' as int)
  }

  lemma {:induction false} DecimalRoundTrip(n: nat)
    ensures DecimalValue(Decimal(n)) == n
    decreases n
  {
    if n >= 10 {
      DecimalRoundTrip(n / 10);
      var r := Decimal(n);
      assert r[..|r| - 1] == Decimal(n / 10);
    }
  }

  /** The options `generateRssFeeds` builds the feed with, for the run's year and time. */
  function Options(year: nat, now: string): (o: FeedOptions)
    ensures o.id == o.link == SiteURL && o.author == Author && o.updated == now
  {
    var copyright := "All rights reserved " + Decimal(year) + ", Ben Fox";
    FeedOptions(
      "Ben Fox's Blog", "", SiteURL, SiteURL,
      SiteURL + "/logo.svg", SiteURL + "/favicon.png",
      copyright, now, "Feed for Node.js",
      FeedLinks(SiteURL + "/rss/feed.xml", SiteURL + "/rss/feed.json", SiteURL + "/rss/atom.xml"),
      Author)
  }

  /** The feed object: its options never change, `addItem` appends. */
  class Feed {
    const options: FeedOptions
    var items: seq<FeedItem>

    constructor(options: FeedOptions)
      ensures this.options == options && items == []
    {
      this.options := options;
      items := [];
    }

    method AddItem(item: FeedItem)
      modifies this
      ensures items == old(items) + [item]
    {
      items := items + [item];
    }
  }

  /** The HTML body of an item: the post's image linking to the post, then its description. */
  function ItemContent(url: string, image: string, description: string): string {
    "<p><a href=\"" + url + "\"><img src=\"" + image + "\" width=\"696\"></a></p><p>" + description + "</p>"
  }

  /** The item added for one post. */
  function ItemFor(p: Post): (r: FeedItem)
    ensures r.id == r.link == PostUrl(p.slug) && r.link[|SiteURL| + 1..] == p.slug
    ensures r.title == p.meta.title && r.date == p.meta.date
    ensures r.description == r.content && r.author == r.contributor == [Author]
  {
    var url := PostUrl(p.slug);
    var content := ItemContent(url, p.meta.image, p.meta.description);
    FeedItem(p.meta.title, url, url, content, content, [Author], [Author], p.meta.date)
  }

  function Items(posts: seq<Post>): (items: seq<FeedItem>)
    ensures |items| == |posts|
  {
    seq(|posts|, i requires 0 <= i < |posts| => ItemFor(posts[i]))
  }

  /** `generateRssFeeds` up to rendering: the configured feed with one item per post, in order. */
  method GenerateRssFeeds(posts: seq<Post>, year: nat, now: string) returns (feed: Feed)
    ensures fresh(feed)
    ensures feed.options == Options(year, now)
    ensures feed.items == Items(posts)
  {
    feed := new Feed(Options(year, now));
    for i := 0 to |posts|
      invariant feed.options == Options(year, now)
      invariant feed.items == Items(posts[..i])
    {
      var url := PostUrl(posts[i].slug);
      var content := ItemContent(url, posts[i].meta.image, posts[i].meta.description);
      feed.AddItem(FeedItem(posts[i].meta.title, url, url, content, content, [Author], [Author], posts[i].meta.date));
      assert posts[..i + 1] == posts[..i] + [posts[i]];
    }
    assert posts[..|posts|] == posts;
  }

  /** Each item carries its post's title and date, is identified and linked by the post's URL, and credits the blog's author. */
  lemma ItemsDescribePosts(posts: seq<Post>)
    ensures forall i | 0 <= i < |posts| ::
      var it := Items(posts)[i];
      && it.title == posts[i].meta.title && it.date == posts[i].meta.date
      && it.id == it.link == SiteURL + "/" + posts[i].slug
      && it.description == it.content
      && it.author == it.contributor == [Author]
  {
  }

  /**
   * The item's content opens with a link to the post's URL, shows the post's
   * image as the link's `<img src>`, and ends with the post's description in
   * a paragraph of its own.
   */
  lemma ItemContentEmbedsPost(p: Post)
    ensures var c := ItemFor(p).content;
            var head := "<p><a href=\"";
            var pre := head + PostUrl(p.slug) + "\"><img src=\"";
            var para := "<p>" + p.meta.description + "</p>";
            && c[..|head|] == head
            && c[|head|..|head| + |PostUrl(p.slug)|] == PostUrl(p.slug)
            && |c| >= |pre| + |p.meta.image| + |para|
            && c[|pre|..|pre| + |p.meta.image|] == p.meta.image
            && c[|c| - |para|..] == para
  {
    var url := PostUrl(p.slug);
    var head := "<p><a href=\"";
    var pre := head + url + "\"><img src=\"";
    var mid := "\" width=\"696\"></a></p>";
    var para := "<p>" + p.meta.description + "</p>";
    var c := ItemFor(p).content;
    assert c == pre + p.meta.image + mid + para;
    PartsOfConcat(pre, p.meta.image, mid, para);
    PartsOfConcat(head, url, "\"><img src=\"", []);
    assert c[..|pre|] == pre;
  }

  lemma PartsOfConcat(a: string, b: string, c: string, d: string)
    ensures var x := a + b + c + d;
            && x[..|a|] == a && x[|a|..|a| + |b|] == b && x[|x| - |d|..] == d
  {
    var x := a + b + c + d;
    assert x == a + (b + (c + d));
  }

  /** Items of posts with distinct slugs have distinct ids, as a feed reader expects. */
  lemma ItemIdsDistinct(posts: seq<Post>)
    requires Distinct(Slugs(posts))
    ensures Distinct(seq(|posts|, i requires 0 <= i < |posts| => Items(posts)[i].id))
  {
    var ids := seq(|posts|, i requires 0 <= i < |posts| => Items(posts)[i].id);
    forall i, j | 0 <= i < j < |posts| ensures ids[i] != ids[j] {
      assert Slugs(posts)[i] != Slugs(posts)[j];
      var a := PostUrl(posts[i].slug);
      var b := PostUrl(posts[j].slug);
      assert a[|SiteURL| + 1..] != b[|SiteURL| + 1..];
    }
  }

  /** Every item links to exactly the URL the sitemap lists for the same post. */
  lemma ItemLinksMatchSitemap(posts: seq<Post>)
    requires posts != []
    ensures forall i | 0 <= i < |posts| :: Items(posts)[i].link == Sitemap.Entries(posts)[i + 1].loc
  {
  }
}
