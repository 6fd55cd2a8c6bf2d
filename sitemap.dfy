/**
 * `generateSitemap` of src/services/content.ts: a root entry followed by one
 * `<url>` entry per post, concatenated onto a fixed XML header. Writing the
 * file is left out; the method returns the text it would write.
 *
 * `ParseSitemap` reads the entries back; `SitemapRoundTrip` shows that the
 * text holds exactly the root entry and one entry per post, in order.
 */
module Sitemap {
  import opened Wrappers
  import opened Content
  import opened Seqs

  const Header: string :=
    "<?xml version=\"1.0\" encoding=\"UTF-8\"?><urlset xmlns=\"http://www.sitemaps.org/schemas/sitemap/0.9\">"
  const Footer: string := "</urlset>"
  const RootUrl: string := "https://www.nullfox.com"

  /** The tags around one entry's two fields, and the text that closes the list. */
  datatype Markup = Markup(urlOpen: string, locClose: string, urlClose: string, footer: string)

  const Tags: Markup := Markup("<url><loc>", "</loc><lastmod>", "</lastmod></url>", Footer)

  /** Every tag starts with `<`, and the closing text cannot be mistaken for an entry. */
  predicate WellFormed(m: Markup) {
    && m.urlOpen != [] && m.urlOpen[0] == '<'
    && m.locClose != [] && m.locClose[0] == '<'
    && m.urlClose != [] && m.urlClose[0] == '<'
    && m.footer != [] && m.footer[0] == '<'
    && !StartsWith(m.footer, m.urlOpen)
  }

  lemma TagsWellFormed()
    ensures WellFormed(Tags)
  {
    assert |Tags.footer| < |Tags.urlOpen|;
  }

  datatype UrlEntry = UrlEntry(loc: string, lastmod: string)

  predicate StartsWith(s: string, prefix: string) {
    |prefix| <= |s| && s[..|prefix|] == prefix
  }

  /** `s.split(c)[0]`: the text before the first `c`, or all of `s` when there is none. */
  function TakeUntil(s: string, c: char): (r: string)
    ensures StartsWith(s, r)
    ensures c !in r
    ensures |r| < |s| ==> s[|r|] == c
  {
    if s == [] || s[0] == c then []
    else [s[0]] + TakeUntil(s[1..], c)
  }

  /** `date.split('T')[0]`: the calendar-date part of an ISO date-time text. */
  function DatePart(date: string): (r: string)
    ensures StartsWith(date, r) && 'T' !in r
    ensures |r| < |date| ==> date[|r|] == 'T'
  {
    TakeUntil(date, 'T')
  }

  /** Text that stops at its first `c` stops there whatever follows. */
  lemma {:induction false} TakeUntilBefore(a: string, b: string, c: char)
    requires c !in a
    requires b != [] && b[0] == c
    ensures TakeUntil(a + b, c) == a
    decreases |a|
  {
    if a != [] {
      assert (a + b)[1..] == a[1..] + b;
      TakeUntilBefore(a[1..], b, c);
    }
  }

  /** An ISO date-time has its calendar date before the `T`. */
  lemma DatePartOfDateTime(day: string, time: string)
    requires 'T' !in day
    ensures DatePart(day + "T" + time) == day
  {
    TakeUntilBefore(day, "T" + time, 'T');
    assert day + "T" + time == day + ("T" + time);
  }

  function UrlXml(m: Markup, e: UrlEntry): string {
    m.urlOpen + e.loc + m.locClose + e.lastmod + m.urlClose
  }

  function UrlsXml(m: Markup, es: seq<UrlEntry>): string {
    if es == [] then [] else UrlXml(m, es[0]) + UrlsXml(m, es[1..])
  }

  lemma {:induction false} UrlsXmlSnoc(m: Markup, es: seq<UrlEntry>, e: UrlEntry)
    ensures UrlsXml(m, es + [e]) == UrlsXml(m, es) + UrlXml(m, e)
    decreases |es|
  {
    if es == [] {
      assert [e][1..] == [];
    } else {
      assert (es + [e])[1..] == es[1..] + [e];
      UrlsXmlSnoc(m, es[1..], e);
    }
  }

  /** The entry the loop emits for one post. */
  function PostEntry(p: Post): UrlEntry {
    UrlEntry(PostUrl(p.slug), DatePart(p.meta.date))
  }

  /** The root entry, dated by `posts[0]`, then one entry per post in list order. */
  function Entries(posts: seq<Post>): (es: seq<UrlEntry>)
    requires posts != []
    ensures |es| == |posts| + 1
  {
    [UrlEntry(RootUrl, DatePart(posts[0].meta.date))]
      + seq(|posts|, i requires 0 <= i < |posts| => PostEntry(posts[i]))
  }

  lemma EntryAt(posts: seq<Post>, i: nat)
    requires i < |posts|
    ensures Entries(posts)[i + 1] == UrlEntry(PostUrl(posts[i].slug), DatePart(posts[i].meta.date))
  {
  }

  function SitemapXml(posts: seq<Post>): string
    requires posts != []
  {
    Header + UrlsXml(Tags, Entries(posts)) + Footer
  }

  /**
   * `generateSitemap`: appends the root entry and then each post's entry to
   * the header and closes the `urlset`; on an empty post list the read of
   * `posts[0]` fails before anything is written.
   */
  method GenerateSitemap(posts: seq<Post>) returns (r: Result<string, Error>)
    ensures posts == [] ==> r == Failure(NoPosts)
    ensures posts != [] ==> r == Success(SitemapXml(posts))
  {
    if posts == [] {
      return Failure(NoPosts);
    }
    var xml := Header;
    xml := xml + UrlXml(Tags, UrlEntry(RootUrl, DatePart(posts[0].meta.date)));
    SitemapStart(posts);
    for i := 0 to |posts|
      invariant xml == Header + UrlsXml(Tags, Entries(posts)[..i + 1])
    {
      var url := PostUrl(posts[i].slug);
      var lastmod := DatePart(posts[i].meta.date);
      SitemapStep(Header, Tags, posts, i);
      xml := xml + UrlXml(Tags, UrlEntry(url, lastmod));
    }
    SitemapFinish(posts);
    xml := xml + Footer;
    return Success(xml);
  }

  lemma SitemapStart(posts: seq<Post>)
    requires posts != []
    ensures Header + UrlXml(Tags, UrlEntry(RootUrl, DatePart(posts[0].meta.date)))
         == Header + UrlsXml(Tags, Entries(posts)[..1])
  {
    UrlsXmlExtend(Tags, Entries(posts), 0);
  }

  lemma SitemapStep(h: string, m: Markup, posts: seq<Post>, i: nat)
    requires i < |posts|
    ensures h + UrlsXml(m, Entries(posts)[..i + 1]) + UrlXml(m, UrlEntry(PostUrl(posts[i].slug), DatePart(posts[i].meta.date)))
         == h + UrlsXml(m, Entries(posts)[..i + 2])
  {
    EntryAt(posts, i);
    PrefixedExtend(h, m, Entries(posts), i + 1);
  }

  lemma PrefixedExtend(h: string, m: Markup, es: seq<UrlEntry>, k: nat)
    requires k < |es|
    ensures h + UrlsXml(m, es[..k]) + UrlXml(m, es[k]) == h + UrlsXml(m, es[..k + 1])
  {
    UrlsXmlExtend(m, es, k);
    AppendAssoc(h, UrlsXml(m, es[..k]), UrlXml(m, es[k]));
  }

  lemma SitemapFinish(posts: seq<Post>)
    requires posts != []
    ensures Header + UrlsXml(Tags, Entries(posts)[..|posts| + 1]) + Footer == SitemapXml(posts)
  {
    assert Entries(posts)[..|posts| + 1] == Entries(posts);
  }

  /** The markup of the first `k + 1` entries extends that of the first `k`. */
  lemma UrlsXmlExtend(m: Markup, es: seq<UrlEntry>, k: nat)
    requires k < |es|
    ensures UrlsXml(m, es[..k + 1]) == UrlsXml(m, es[..k]) + UrlXml(m, es[k])
  {
    assert es[..k + 1] == es[..k] + [es[k]];
    UrlsXmlSnoc(m, es[..k], es[k]);
    assert UrlsXml(m, es[..0]) == [];
  }

  /** `s` without its leading `prefix`, or `None` when it does not start with it. */
  function DropPrefix(s: string, prefix: string): (r: Option<string>)
    ensures r.Some? ==> |r.value| == |s| - |prefix|
  {
    if StartsWith(s, prefix) then Some(s[|prefix|..]) else None
  }

  lemma DropPrefixOfConcat(prefix: string, t: string)
    ensures DropPrefix(prefix + t, prefix) == Some(t)
  {
    assert (prefix + t)[..|prefix|] == prefix;
  }

  /** The text before the first `<` and everything from it on. */
  function SplitAtTag(s: string): (r: (string, string))
    ensures |r.1| <= |s|
  {
    var field := TakeUntil(s, '<');
    (field, s[|field|..])
  }

  lemma SplitAtTagOfConcat(a: string, b: string)
    requires '<' !in a
    requires b != [] && b[0] == '<'
    ensures SplitAtTag(a + b) == (a, b)
  {
    TakeUntilBefore(a, b, '<');
  }

  /** Reads one entry off the front of `s`, returning it and the text after it. */
  function ParseEntry(m: Markup, s: string): (r: Option<(UrlEntry, string)>)
    ensures r.Some? ==> |r.value.1| <= |s| - |m.urlOpen|
  {
    match DropPrefix(s, m.urlOpen)
    case None => None
    case Some(afterOpen) =>
      var (loc, afterLoc) := SplitAtTag(afterOpen);
      match DropPrefix(afterLoc, m.locClose)
      case None => None
      case Some(afterLocClose) =>
        var (lastmod, afterLastmod) := SplitAtTag(afterLocClose);
        match DropPrefix(afterLastmod, m.urlClose)
        case None => None
        case Some(rest) => Some((UrlEntry(loc, lastmod), rest))
  }

  /** Reads back the entries up to and including the closing text. */
  function ParseUrls(m: Markup, s: string): Option<seq<UrlEntry>>
    decreases |s|
  {
    if m.urlOpen == [] then None
    else match ParseEntry(m, s)
      case None => if s == m.footer then Some([]) else None
      case Some((e, rest)) =>
        match ParseUrls(m, rest)
        case None => None
        case Some(es) => Some([e] + es)
  }

  function ParseSitemap(xml: string): Option<seq<UrlEntry>> {
    match DropPrefix(xml, Header)
    case None => None
    case Some(body) => ParseUrls(Tags, body)
  }

  /** Entry text in which `<` appears only as part of the markup. */
  predicate PlainEntry(e: UrlEntry) {
    '<' !in e.loc && '<' !in e.lastmod
  }

  lemma ParseOneEntry(m: Markup, e: UrlEntry, tail: string)
    requires WellFormed(m) && PlainEntry(e)
    requires tail != [] && tail[0] == '<'
    ensures ParseEntry(m, UrlXml(m, e) + tail) == Some((e, tail))
  {
    var afterLastmod := m.urlClose + tail;
    var afterLocClose := e.lastmod + afterLastmod;
    var afterLoc := m.locClose + afterLocClose;
    var afterOpen := e.loc + afterLoc;
    assert UrlXml(m, e) + tail == m.urlOpen + afterOpen;
    DropPrefixOfConcat(m.urlOpen, afterOpen);
    SplitAtTagOfConcat(e.loc, afterLoc);
    DropPrefixOfConcat(m.locClose, afterLocClose);
    SplitAtTagOfConcat(e.lastmod, afterLastmod);
    DropPrefixOfConcat(m.urlClose, tail);
  }

  lemma UrlsXmlStartsWithTag(m: Markup, es: seq<UrlEntry>)
    requires WellFormed(m)
    ensures var s := UrlsXml(m, es) + m.footer; s != [] && s[0] == '<'
  {
    if es != [] {
      assert UrlsXml(m, es) + m.footer
          == m.urlOpen + (es[0].loc + m.locClose + es[0].lastmod + m.urlClose + UrlsXml(m, es[1..]) + m.footer);
    }
  }

  lemma UrlsXmlCons(m: Markup, e: UrlEntry, es: seq<UrlEntry>)
    ensures UrlsXml(m, [e] + es) + m.footer == UrlXml(m, e) + (UrlsXml(m, es) + m.footer)
  {
    assert ([e] + es)[1..] == es;
  }

  lemma ParseUrlsCons(m: Markup, e: UrlEntry, es: seq<UrlEntry>)
    requires WellFormed(m) && PlainEntry(e)
    requires ParseUrls(m, UrlsXml(m, es) + m.footer) == Some(es)
    ensures ParseUrls(m, UrlsXml(m, [e] + es) + m.footer) == Some([e] + es)
  {
    var tail := UrlsXml(m, es) + m.footer;
    UrlsXmlStartsWithTag(m, es);
    ParseOneEntry(m, e, tail);
    UrlsXmlCons(m, e, es);
  }

  lemma {:induction false} ParseUrlsRoundTrip(m: Markup, es: seq<UrlEntry>)
    requires WellFormed(m)
    requires forall i | 0 <= i < |es| :: PlainEntry(es[i])
    ensures ParseUrls(m, UrlsXml(m, es) + m.footer) == Some(es)
    decreases |es|
  {
    if es == [] {
      assert UrlsXml(m, es) + m.footer == m.footer;
      assert ParseEntry(m, m.footer) == None;
    } else {
      ParseUrlsRoundTrip(m, es[1..]);
      ParseUrlsCons(m, es[0], es[1..]);
      assert [es[0]] + es[1..] == es;
    }
  }

  lemma PostUrlPlain(slug: string)
    requires '<' !in slug
    ensures '<' !in PostUrl(slug)
  {
    var r := PostUrl(slug);
    var site := SiteURL + "/";
    assert '<' !in site;
    assert r == site + slug;
    forall i | 0 <= i < |r| ensures r[i] != '<' {
      if i < |site| {
        assert r[i] == site[i];
      } else {
        assert r[i] == slug[i - |site|];
      }
    }
  }

  lemma RootEntryPlain(first: Post)
    requires '<' !in first.meta.date
    ensures PlainEntry(UrlEntry(RootUrl, DatePart(first.meta.date)))
  {
    var d := DatePart(first.meta.date);
    forall i | 0 <= i < |d| ensures d[i] != '<' {
      assert d[i] == first.meta.date[i];
    }
    RootUrlPlain();
  }

  lemma RootUrlPlain()
    ensures '<' !in RootUrl
  {
  }

  lemma EntriesPlain(posts: seq<Post>)
    requires posts != []
    requires forall p | p in posts :: '<' !in p.slug && '<' !in p.meta.date
    ensures forall k | 0 <= k < |Entries(posts)| :: PlainEntry(Entries(posts)[k])
  {
    var es := Entries(posts);
    forall k | 0 < k < |es| ensures PlainEntry(es[k]) {
      var p := posts[k - 1];
      assert p in posts;
      PostUrlPlain(p.slug);
      EntryAt(posts, k - 1);
    }
    RootEntryPlain(posts[0]);
  }

  lemma ParseSitemapOfEntries(posts: seq<Post>)
    requires posts != []
    requires forall k | 0 <= k < |Entries(posts)| :: PlainEntry(Entries(posts)[k])
    ensures ParseSitemap(SitemapXml(posts)) == Some(Entries(posts))
  {
    var es := Entries(posts);
    TagsWellFormed();
    ParseUrlsRoundTrip(Tags, es);
    assert SitemapXml(posts) == Header + (UrlsXml(Tags, es) + Tags.footer);
    DropPrefixOfConcat(Header, UrlsXml(Tags, es) + Tags.footer);
  }

  /**
   * Provided no slug or date contains `<`, the sitemap reads back as
   * exactly `posts.length + 1` entries: first the root URL with the first
   * post's calendar date, then each post's URL and calendar date in the
   * order of `posts`.
   */
  lemma SitemapRoundTrip(posts: seq<Post>)
    requires posts != []
    requires forall p | p in posts :: '<' !in p.slug && '<' !in p.meta.date
    ensures ParseSitemap(SitemapXml(posts)).Some?
    ensures var es := ParseSitemap(SitemapXml(posts)).value;
            && |es| == |posts| + 1
            && es[0] == UrlEntry(RootUrl, DatePart(posts[0].meta.date))
            && forall i | 0 <= i < |posts| ::
                 es[i + 1] == UrlEntry(PostUrl(posts[i].slug), DatePart(posts[i].meta.date))
  {
    EntriesPlain(posts);
    ParseSitemapOfEntries(posts);
  }
}
