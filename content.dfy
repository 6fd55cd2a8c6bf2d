/**
 * Post discovery, loading and aggregation of src/services/content.ts.
 *
 * The directory listing is the sequence `files`; reading a file and parsing
 * its front matter is the function `read` from a file name to the parsed
 * attributes and body. Dates are millisecond timestamps; `toISOString` and
 * the rounded `reading-time` estimate are the function parameters `iso` and
 * `readingTime`.
 */
module Content {
  import opened Wrappers
  import opened Seqs

  const Extension: string := ".md"

  /** The site URL both generators put in front of a post's slug. */
  const SiteURL: string := "https://nullfox.com"

  /** `${siteURL}/${post.slug}`. */
  function PostUrl(slug: string): (r: string)
    ensures |r| == |SiteURL| + 1 + |slug| && r[|SiteURL| + 1..] == slug
  {
    SiteURL + "/" + slug
  }

  /** The front-matter attributes of a post, as parsed. */
  datatype RawMeta = RawMeta(
    title: string,
    description: string,
    tags: seq<string>,
    image: string,
    date: int,
    featured: Option<bool>,
    published: Option<bool>)

  /** The attributes after `getPosts` rewrote them. */
  datatype Meta = Meta(
    title: string,
    description: string,
    tags: seq<string>,
    image: string,
    readingTime: int,
    date: string,
    featured: Option<bool>,
    published: bool)

  datatype RawPost = RawPost(slug: string, meta: RawMeta, content: string)

  datatype Post = Post(slug: string, meta: Meta, content: string)

  /** What `frontMatter(text)` yields for a file. */
  datatype Matter = Matter(attributes: RawMeta, body: string)

  datatype Error =
    | FileNotFound(slug: string)  // `find` yielded no file, so `join(root, undefined)` throws before `readFile`
    | NoPosts                     // `posts[0]` was read from an empty list

  predicate EndsWith(s: string, suffix: string) {
    |suffix| <= |s| && s[|s| - |suffix|..] == suffix
  }

  /** `getPostFiles`: the directory entries ending in `.md`, in listing order. */
  function PostFiles(files: seq<string>): (r: seq<string>)
    ensures |r| <= |files|
    ensures forall f :: f in r <==> f in files && EndsWith(f, Extension)
  {
    if files == [] then []
    else
      var init, last := files[..|files| - 1], files[|files| - 1];
      assert files == init + [last];
      PostFiles(init) + (if EndsWith(last, Extension) then [last] else [])
  }

  /** Filtering keeps the listing order: it distributes over concatenation. */
  lemma {:induction false} PostFilesAppend(a: seq<string>, b: seq<string>)
    ensures PostFiles(a + b) == PostFiles(a) + PostFiles(b)
    decreases |b|
  {
    if b == [] {
      assert a + b == a;
    } else {
      var init, f := b[..|b| - 1], b[|b| - 1];
      assert b == init + [f];
      AppendAssoc(a, init, [f]);
      PostFilesAppend(a, init);
      AppendAssoc(PostFiles(a), PostFiles(init), if EndsWith(f, Extension) then [f] else []);
    }
  }

  predicate OccursAt(s: string, pat: string, i: int) {
    0 <= i && i + |pat| <= |s| && s[i..i + |pat|] == pat
  }

  /** The index of the first occurrence of `pat` in `s` at or after `from`. */
  function IndexOfFrom(s: string, pat: string, from: nat): (r: Option<nat>)
    ensures r.Some? ==> from <= r.value && OccursAt(s, pat, r.value)
                        && forall j | from <= j < r.value :: !OccursAt(s, pat, j)
    ensures r.None? ==> forall j | from <= j :: !OccursAt(s, pat, j)
    decreases |s| - from
  {
    if |s| < from + |pat| then None
    else if OccursAt(s, pat, from) then Some(from)
    else IndexOfFrom(s, pat, from + 1)
  }

  /** `s.replace(pat, rep)` with a string pattern: only the first occurrence is replaced. */
  function ReplaceFirst(s: string, pat: string, rep: string): (r: string)
    ensures (forall j :: !OccursAt(s, pat, j)) ==> r == s
    ensures forall i | OccursAt(s, pat, i) && (forall j | j < i :: !OccursAt(s, pat, j)) ::
              r == s[..i] + rep + s[i + |pat|..]
  {
    match IndexOfFrom(s, pat, 0)
    case None =>
      assert forall j :: !OccursAt(s, pat, j);
      s
    case Some(i) =>
      assert forall i' | OccursAt(s, pat, i') && (forall j | j < i' :: !OccursAt(s, pat, j)) :: i' == i by {
        forall i' | OccursAt(s, pat, i') && (forall j | j < i' :: !OccursAt(s, pat, j)) ensures i' == i {
        }
      }
      s[..i] + rep + s[i + |pat|..]
  }

  /** `getPostPaths`: each listed post file with its first `.md` deleted. */
  function PostPaths(files: seq<string>): (r: seq<string>)
    ensures |r| == |PostFiles(files)|
  {
    var fs := PostFiles(files);
    seq(|fs|, i requires 0 <= i < |fs| => ReplaceFirst(fs[i], Extension, ""))
  }

  /**
   * When the only `.md` in a file name is its extension, the derived slug is
   * the name without it, and appending the extension gives the name back.
   */
  lemma PostPathOfPlainName(name: string)
    requires forall j | 0 <= j < |name| :: !OccursAt(name, Extension, j)
    ensures ReplaceFirst(name + Extension, Extension, "") == name
    ensures ReplaceFirst(name + Extension, Extension, "") + Extension == name + Extension
  {
    var f := name + Extension;
    assert OccursAt(f, Extension, |name|) by { assert f[|name|..|name| + 3] == Extension; }
    forall j | 0 <= j < |name| ensures !OccursAt(f, Extension, j) {
      if j + 3 <= |name| {
        assert f[j..j + 3] == name[j..j + 3];
        assert !OccursAt(name, Extension, j);
      } else if j == |name| - 1 {
        assert f[j + 1] == Extension[0] == '.';
        assert f[j..j + 3][1] != Extension[1];
      } else {
        assert j == |name| - 2;
        assert f[j + 2] == Extension[0] == '.';
        assert f[j..j + 3][2] != Extension[2];
      }
    }
    assert f[..|name|] == name;
    assert f[|name| + 3..] == [];
  }

  /** `"x.md"` gives the slug `"x"`; other entries are not posts. */
  lemma PostPathsExample()
    ensures PostPaths(["x.md", "notes.txt"]) == ["x"]
  {
    var listing: seq<string> := ["x.md", "notes.txt"];
    var one: seq<string> := ["x.md"];
    assert !EndsWith("notes.txt", Extension) by { assert "notes.txt"[6..] != Extension; }
    assert listing[..1] == one;
    assert EndsWith("x.md", Extension) by { assert "x.md"[1..] == Extension; }
    assert |one[..0]| == 0;
    assert PostFiles(one) == one;
    assert PostFiles(listing) == one;
    PostPathOfPlainName("x");
    assert "x" + Extension == "x.md";
  }

  /**
   * `getPost(slug)`: succeeds exactly when some listed file is named
   * `slug + ".md"`, and then carries the argument as its slug and the parsed
   * attributes and body of that file.
   */
  function GetPost(files: seq<string>, read: string -> Matter, slug: string): (r: Result<RawPost, Error>)
    ensures r.Success? <==> slug + Extension in files
    ensures r.Failure? ==> r.error == FileNotFound(slug)
    ensures r.Success? ==> r.value.slug == slug
                           && r.value.meta == read(slug + Extension).attributes
                           && r.value.content == read(slug + Extension).body
  {
    var name := slug + Extension;
    assert EndsWith(name, Extension) by { assert name[|name| - 3..] == Extension; }
    if name in PostFiles(files) then
      var m := read(name);
      Success(RawPost(slug, m.attributes, m.body))
    else
      Failure(FileNotFound(slug))
  }

  /** Loads every slug in order; the first failure fails the whole load. */
  function LoadAll(files: seq<string>, read: string -> Matter, slugs: seq<string>): (r: Result<seq<RawPost>, Error>)
    ensures r.Success? <==> forall s | s in slugs :: s + Extension in files
    ensures r.Success? ==> |r.value| == |slugs|
                           && forall i | 0 <= i < |slugs| :: r.value[i] == GetPost(files, read, slugs[i]).value
  {
    if slugs == [] then Success([])
    else
      var init, last := slugs[..|slugs| - 1], slugs[|slugs| - 1];
      assert forall s :: s in slugs <==> s in init || s == last by { assert slugs == init + [last]; }
      match LoadAll(files, read, init)
      case Failure(e) => Failure(e)
      case Success(ps) =>
        match GetPost(files, read, last)
        case Failure(e) => Failure(e)
        case Success(p) => Success(ps + [p])
  }

  /**
   * `Promise.all(slugs.map(getPost))` over `getPostPaths()`: one post per
   * listed `.md` file, or a failure when a derived slug names no file.
   */
  function LoadPosts(files: seq<string>, read: string -> Matter): (r: Result<seq<RawPost>, Error>)
    ensures r.Success? <==> forall s | s in PostPaths(files) :: s + Extension in files
    ensures r.Success? ==> |r.value| == |PostFiles(files)|
                           && forall i | 0 <= i < |r.value| :: r.value[i].slug == PostPaths(files)[i]
  {
    LoadAll(files, read, PostPaths(files))
  }

  /**
   * A file whose name holds `.md` before its extension gets a slug that
   * names no file, and the whole load fails.
   */
  lemma LoadPostsInnerExtension(read: string -> Matter)
    ensures PostPaths(["x.mdy.md"]) == ["xy.md"]
    ensures LoadPosts(["x.mdy.md"], read) == Failure(FileNotFound("xy.md"))
  {
    InnerExtensionPath();
    var files := ["x.mdy.md"];
    assert "xy.md" + Extension !in files by { assert ("xy.md" + Extension)[1] != files[0][1]; }
    assert GetPost(files, read, "xy.md") == Failure(FileNotFound("xy.md"));
    var slugs := ["xy.md"];
    assert LoadAll(files, read, slugs[..0]) == Success([]);
    assert LoadAll(files, read, slugs) == Failure(FileNotFound("xy.md"));
  }

  lemma InnerExtensionPath()
    ensures PostPaths(["x.mdy.md"]) == ["xy.md"]
  {
    var f := "x.mdy.md";
    assert OccursAt(f, Extension, 1) by { assert f[1..4] == Extension; }
    assert !OccursAt(f, Extension, 0) by { assert f[0] == 'x'; }
    assert IndexOfFrom(f, Extension, 0) == Some(1) by {
      assert IndexOfFrom(f, Extension, 1) == Some(1);
    }
    assert f[..1] + "" + f[4..] == "xy.md";
    assert EndsWith(f, Extension) by { assert f[5..] == Extension; }
    var fs: seq<string> := [f];
    assert PostFiles(fs) == fs by { assert |fs[..0]| == 0; }
  }


  predicate SortedByDate(s: seq<RawPost>) {
    forall i, j | 0 <= i < j < |s| :: s[i].meta.date <= s[j].meta.date
  }

  /** The posts of `s` dated `d`, in their order in `s`. */
  function WithDate(s: seq<RawPost>, d: int): seq<RawPost> {
    if s == [] then [] else (if s[0].meta.date == d then [s[0]] else []) + WithDate(s[1..], d)
  }

  /** Insert `p` before the first post dated no earlier than it. */
  function InsertByDate(p: RawPost, s: seq<RawPost>): (r: seq<RawPost>)
    requires SortedByDate(s)
    ensures SortedByDate(r)
    ensures |r| == |s| + 1
    ensures r[0] == p || (s != [] && r[0] == s[0])
  {
    if s == [] then [p]
    else if p.meta.date <= s[0].meta.date then [p] + s
    else
      var rest := InsertByDate(p, s[1..]);
      assert s[0].meta.date <= rest[0].meta.date;
      [s[0]] + rest
  }

  lemma {:induction false} InsertByDatePermutes(p: RawPost, s: seq<RawPost>)
    requires SortedByDate(s)
    ensures multiset(InsertByDate(p, s)) == multiset(s) + multiset{p}
  {
    if s != [] && p.meta.date > s[0].meta.date {
      InsertByDatePermutes(p, s[1..]);
      assert s == [s[0]] + s[1..];
    }
  }

  lemma WithDateCons(p: RawPost, s: seq<RawPost>, d: int)
    ensures WithDate([p] + s, d) == (if p.meta.date == d then [p] else []) + WithDate(s, d)
  {
    assert ([p] + s)[1..] == s;
  }

  /** Inserting `p` puts it before every post of its own date. */
  lemma {:induction false} InsertByDateWithDate(p: RawPost, s: seq<RawPost>, d: int)
    requires SortedByDate(s)
    ensures WithDate(InsertByDate(p, s), d) == (if p.meta.date == d then [p] else []) + WithDate(s, d)
  {
    if s == [] || p.meta.date <= s[0].meta.date {
      assert InsertByDate(p, s) == [p] + s;
      WithDateCons(p, s, d);
    } else {
      var rest := InsertByDate(p, s[1..]);
      assert InsertByDate(p, s) == [s[0]] + rest;
      InsertByDateWithDate(p, s[1..], d);
      WithDateCons(s[0], rest, d);
      WithDateCons(s[0], s[1..], d);
      assert s == [s[0]] + s[1..];
    }
  }

  /**
   * `posts.slice().sort((a, b) => a.meta.date.valueOf() - b.meta.date.valueOf())`:
   * a permutation, non-decreasing by date.
   */
  function SortByDate(s: seq<RawPost>): (r: seq<RawPost>)
    ensures SortedByDate(r)
    ensures |r| == |s|
  {
    if s == [] then [] else InsertByDate(s[0], SortByDate(s[1..]))
  }

  /** The sort returns the same posts, each as often as it was loaded. */
  lemma {:induction false} SortByDatePermutes(s: seq<RawPost>)
    ensures multiset(SortByDate(s)) == multiset(s)
  {
    if s != [] {
      SortByDatePermutes(s[1..]);
      InsertByDatePermutes(s[0], SortByDate(s[1..]));
      assert s == [s[0]] + s[1..];
    }
  }

  /**
   * The sort is stable, as `Array.prototype.sort` is: the posts sharing a
   * date keep the order in which they were loaded.
   */
  lemma {:induction false} SortByDateStable(s: seq<RawPost>, d: int)
    ensures WithDate(SortByDate(s), d) == WithDate(s, d)
  {
    if s != [] {
      SortByDateStable(s[1..], d);
      InsertByDateWithDate(s[0], SortByDate(s[1..]), d);
      WithDateCons(s[0], s[1..], d);
      assert s == [s[0]] + s[1..];
    }
  }

  /** The rewrite of one post's attributes by `getPosts`. */
  function Derive(p: RawPost, iso: int -> string, readingTime: string -> int): (r: Post)
    ensures r.slug == p.slug && r.content == p.content
    ensures r.meta.title == p.meta.title && r.meta.description == p.meta.description
    ensures r.meta.tags == p.meta.tags && r.meta.image == p.meta.image && r.meta.featured == p.meta.featured
    ensures r.meta.readingTime == readingTime(p.content) && r.meta.date == iso(p.meta.date)
    ensures r.meta.published
  {
    Post(p.slug,
         Meta(p.meta.title, p.meta.description, p.meta.tags, p.meta.image,
              readingTime(p.content), iso(p.meta.date), p.meta.featured,
              match p.meta.published { case Some(b) => b || true case None => true }),
         p.content)
  }

  /**
   * `getPost`-derived posts after `getPosts`: sorted by date, then
   * rewritten; fails when loading fails.
   */
  function GetPosts(files: seq<string>, read: string -> Matter, iso: int -> string, readingTime: string -> int): (r: Result<seq<Post>, Error>)
    ensures r.Success? <==> LoadPosts(files, read).Success?
  {
    match LoadPosts(files, read)
    case Failure(e) => Failure(e)
    case Success(raws) =>
      var sorted := SortByDate(raws);
      Success(seq(|sorted|, i requires 0 <= i < |sorted| => Derive(sorted[i], iso, readingTime)))
  }

  function Slugs(ps: seq<Post>): (r: seq<string>)
    ensures |r| == |ps|
  {
    seq(|ps|, i requires 0 <= i < |ps| => ps[i].slug)
  }

  /** The `RawPost` counterpart of `Slugs`, which `GetPostsSpec` compares against the derived slugs. */
  function RawSlugs(ps: seq<RawPost>): (r: seq<string>)
    ensures |r| == |ps|
  {
    seq(|ps|, i requires 0 <= i < |ps| => ps[i].slug)
  }

  lemma RawSlugsCons(x: RawPost, s: seq<RawPost>)
    ensures multiset(RawSlugs([x] + s)) == multiset{x.slug} + multiset(RawSlugs(s))
  {
    assert RawSlugs([x] + s) == [x.slug] + RawSlugs(s);
  }

  lemma {:induction false} InsertByDateSlugs(p: RawPost, s: seq<RawPost>)
    requires SortedByDate(s)
    ensures multiset(RawSlugs(InsertByDate(p, s))) == multiset(RawSlugs(s)) + multiset{p.slug}
  {
    if s == [] {
      RawSlugsCons(p, s);
    } else if p.meta.date <= s[0].meta.date {
      RawSlugsCons(p, s);
    } else {
      InsertByDateSlugs(p, s[1..]);
      RawSlugsCons(s[0], InsertByDate(p, s[1..]));
      RawSlugsCons(s[0], s[1..]);
      assert s == [s[0]] + s[1..];
    }
  }

  /** Sorting keeps the multiset of slugs. */
  lemma {:induction false} SortByDateSlugs(s: seq<RawPost>)
    ensures multiset(RawSlugs(SortByDate(s))) == multiset(RawSlugs(s))
  {
    if s != [] {
      SortByDateSlugs(s[1..]);
      InsertByDateSlugs(s[0], SortByDate(s[1..]));
      RawSlugsCons(s[0], s[1..]);
      assert s == [s[0]] + s[1..];
    }
  }

  /**
   * What `getPosts` promises: it succeeds exactly when every derived slug
   * names a listed file; it then returns one post per listed `.md` file,
   * whose slugs are those of the listing in some order, in the order of the
   * date-sorted load, with only reading time, date and published rewritten
   * — reading time from the content, the date to its ISO text, published
   * always true — and every other field as parsed.
   */
  lemma GetPostsSpec(files: seq<string>, read: string -> Matter, iso: int -> string, readingTime: string -> int)
    ensures GetPosts(files, read, iso, readingTime).Success?
            <==> forall s | s in PostPaths(files) :: s + Extension in files
    ensures GetPosts(files, read, iso, readingTime).Success? ==>
      var ps := GetPosts(files, read, iso, readingTime).value;
      var sorted := SortByDate(LoadPosts(files, read).value);
      && |ps| == |PostFiles(files)|
      && multiset(Slugs(ps)) == multiset(PostPaths(files))
      && forall i | 0 <= i < |ps| ::
           && ps[i].slug == sorted[i].slug
           && ps[i].content == sorted[i].content
           && ps[i].meta.title == sorted[i].meta.title
           && ps[i].meta.description == sorted[i].meta.description
           && ps[i].meta.tags == sorted[i].meta.tags
           && ps[i].meta.image == sorted[i].meta.image
           && ps[i].meta.featured == sorted[i].meta.featured
           && ps[i].meta.readingTime == readingTime(ps[i].content)
           && ps[i].meta.date == iso(sorted[i].meta.date)
           && ps[i].meta.published
  {
    if GetPosts(files, read, iso, readingTime).Success? {
      var raws := LoadPosts(files, read).value;
      var ps := GetPosts(files, read, iso, readingTime).value;
      var sorted := SortByDate(raws);
      SortByDateSlugs(raws);
      assert Slugs(ps) == RawSlugs(sorted);
      assert RawSlugs(raws) == PostPaths(files);
    }
  }

  /** `p.meta.featured` is truthy. */
  predicate IsFeatured(p: Post) {
    p.meta.featured == Some(true)
  }

  /** The index of the first featured post, if any. */
  function FirstFeatured(posts: seq<Post>): (r: Option<nat>)
    ensures r.Some? ==> r.value < |posts| && IsFeatured(posts[r.value])
                        && forall j | 0 <= j < r.value :: !IsFeatured(posts[j])
    ensures r.None? ==> forall j | 0 <= j < |posts| :: !IsFeatured(posts[j])
  {
    if posts == [] then None
    else if IsFeatured(posts[0]) then Some(0)
    else match FirstFeatured(posts[1..])
      case None => None
      case Some(i) => Some(i + 1)
  }

  /**
   * `getFeaturedPost`: the first featured post in the given (ascending-date)
   * order; with none featured, `posts[0]`, the earliest post; with no posts
   * at all, nothing (`undefined`).
   */
  function GetFeaturedPost(posts: seq<Post>): (r: Option<Post>)
    ensures r.None? <==> posts == []
    ensures (forall p | p in posts :: !IsFeatured(p)) && posts != [] ==> r == Some(posts[0])
    ensures (exists p | p in posts :: IsFeatured(p)) ==>
              exists i | 0 <= i < |posts| :: r == Some(posts[i]) && IsFeatured(posts[i])
                                              && forall j | 0 <= j < i :: !IsFeatured(posts[j])
  {
    match FirstFeatured(posts)
    case Some(i) => Some(posts[i])
    case None => if posts == [] then None else Some(posts[0])
  }

  /**
   * With no post featured, the post `getFeaturedPost` falls back to carries
   * the earliest date of the loaded posts, not the latest.
   */
  lemma FeaturedFallbackIsEarliest(files: seq<string>, read: string -> Matter, iso: int -> string, readingTime: string -> int)
    requires GetPosts(files, read, iso, readingTime).Success?
    requires GetPosts(files, read, iso, readingTime).value != []
    requires forall p | p in GetPosts(files, read, iso, readingTime).value :: !IsFeatured(p)
    ensures var raws := LoadPosts(files, read).value;
            exists k | 0 <= k < |raws| ::
              && GetFeaturedPost(GetPosts(files, read, iso, readingTime).value).value.slug == raws[k].slug
              && GetFeaturedPost(GetPosts(files, read, iso, readingTime).value).value.meta.date == iso(raws[k].meta.date)
              && forall j | 0 <= j < |raws| :: raws[k].meta.date <= raws[j].meta.date
  {
    var raws := LoadPosts(files, read).value;
    var ps := GetPosts(files, read, iso, readingTime).value;
    assert GetFeaturedPost(ps) == Some(ps[0]);
    SortedFirstIsEarliest(raws);
  }

  /** The first post after sorting is a loaded post of minimum date. */
  lemma SortedFirstIsEarliest(raws: seq<RawPost>)
    requires raws != []
    ensures exists k | 0 <= k < |raws| :: raws[k] == SortByDate(raws)[0]
    ensures forall j | 0 <= j < |raws| :: SortByDate(raws)[0].meta.date <= raws[j].meta.date
  {
    var sorted := SortByDate(raws);
    SortByDatePermutes(raws);
    assert sorted[0] in multiset(raws);
    forall j | 0 <= j < |raws| ensures sorted[0].meta.date <= raws[j].meta.date {
      assert raws[j] in multiset(sorted);
      var m :| 0 <= m < |sorted| && sorted[m] == raws[j];
    }
  }

}
