# nullfox blog content pipeline in Dafny

This project models the build-time content logic of the nullfox blog:

- the tag slug function (`src/services/text.ts`);
- the post pipeline of `src/services/content.ts`:
  - listing the `.md` files and deriving each post's slug;
  - loading a post by slug;
  - the date-sorted, field-derived post list;
  - the featured post;
  - the tag-slug paths and the tag-occurrence counts;
  - the sitemap text;
  - the feed object with its per-post items;
- the `Topics` sidebar of `src/components/SidebarBox.tsx`, which sorts tags by descending count and links each to its tag page.

The modules are:

- `Wrappers` — `Option` and `Result`.
- `Seqs` — occurrence counts, distinctness, order-preserving deduplication and sums over sequences.
- `Text` — `slug`. It is modelled stage by stage: `ToLower`, `ReplaceSpaces`, `StripNonWord`. `SlugByChar` is an independent per-character definition of the same function.
- `Content` — the parts of `content.ts` written as expressions: `getPostFiles`, `getPostPaths`, `getPost`, `getPosts` and `getFeaturedPost`.
  - The directory listing is a sequence of file names.
  - Reading a file and parsing its front matter is a function parameter `read`.
  - A raw date is a millisecond timestamp. `toISOString` and the rounded reading-time estimate are function parameters.
- `TagIndex` — `getTagPaths` and `getTagCounts`. Both are methods with the source's nested loops. They are proved against the functions `TagSlugs` and `CountsOf`.
- `Sitemap` — `generateSitemap`. It is a method that builds the XML text in a loop. A parser reads the entries back, so that "one root entry, then one entry per post" can be stated as a round trip.
- `Feeds` — `generateRssFeeds` up to rendering. The `Feed` object of the `feed` package is a class holding its options and the items `addItem` appends.
- `Topics` — the `Topics` sort-and-map. The order `Object.keys` yields is the parameter `keys`.

The model follows the code as written, including these behaviours a reader might not expect:

- Each space becomes one `-`; runs of spaces are not collapsed (`SlugExamples`: `"a  b"` gives `"a--b"`).
- The fallback featured post is `posts[0]`, which is the earliest post, not the latest.
- The sitemap's root `lastmod` also comes from `posts[0]`.
- `getTagCounts` counts occurrences, not the posts that carry a tag. A tag repeated inside one post counts twice.
- Ties in `Topics` are not broken by insertion order in any promised way. The comparator never answers 0, so the engine's sort decides.

`getPostPaths` deletes the first `.md` of a file name, not the extension. A file `x.mdy.md` therefore yields the slug `xy.md`, and loading that slug fails because `xy.md.md` is not listed. `Content.LoadPostsInnerExtension` shows this.

## Model

| member | source | states |
|---|---|---|
| Text.ToLower | src/services/text.ts:3 | the result has no ASCII capitals; text without ASCII capitals, KELVIN SIGN or CAPITAL I WITH DOT ABOVE is unchanged |
| Text.ToLowerAppend | src/services/text.ts:3 | lower-casing works character by character |
| Text.ReplaceSpaces | src/services/text.ts:4 | same length; every space, and only a space, becomes `-`; no space is left |
| Text.StripNonWord | src/services/text.ts:5 | never longer; keeps only characters of the text that are in `[A-Za-z0-9_-]`; text made only of them is unchanged |
| Text.StripNonWordAppend | src/services/text.ts:5 | stripping works character by character, so the kept characters stay in order |
| Text.StripNonWordOne | src/services/text.ts:5 | a single character is kept exactly when it is in `[A-Za-z0-9_-]` |
| Text.Slug | src/services/text.ts:1-5 | the slug has no space and consists only of lower-case ASCII letters, digits, `_` and `-` |
| Text.SlugMatchesReference | src/services/text.ts:1-5 | the three-stage slug equals the per-character reference mapping (capitals lowered, space to `-`, word characters and `-` kept, everything else deleted) |
| Text.SlugAppend | src/services/text.ts:1-5 | the slug of a concatenation is the concatenation of the slugs |
| Text.SlugFixesSlugText | src/services/text.ts:1-5 | text made only of slug characters is its own slug |
| Text.SlugIdempotent | src/services/text.ts:1-5 | `slug(slug(t)) == slug(t)` |
| Text.SlugNoLonger | src/services/text.ts:1-5 | the slug is never longer than the text |
| Text.SlugHyphens | src/services/text.ts:4-5 | the slug has exactly one `-` per space plus one per `-` of the text, so runs of spaces are not collapsed |
| Text.SlugExamples | src/services/text.ts:1-5 | `"Hello World!"` gives `"hello-world"`, `"C++ Tips"` gives `"c-tips"`, `"a  b"` gives `"a--b"`, `""` gives `""` |
| Content.PostFiles | src/services/content.ts:34-38 | keeps exactly the listed names ending in `.md` |
| Content.PostFilesAppend | src/services/content.ts:37 | filtering keeps the listing order |
| Content.ReplaceFirst | src/services/content.ts:43 | replaces the first occurrence of the pattern only; text without it is unchanged |
| Content.PostPaths | src/services/content.ts:40-44 | one slug per `.md` file |
| Content.PostPathOfPlainName | src/services/content.ts:40-44 | a name without `.md` inside gets its own name back as slug, and slug plus `.md` is the file |
| Content.PostPathsExample | src/services/content.ts:40-44 | `["x.md", "notes.txt"]` yields `["x"]` |
| Content.GetPost | src/services/content.ts:46-62 | succeeds exactly when `slug + ".md"` is listed, else fails with that slug; on success the slug is the argument and meta and content are the parsed file's |
| Content.LoadPosts | src/services/content.ts:64-67 | succeeds exactly when every derived slug resolves to a listed file; then one post per `.md` file |
| Content.LoadPostsInnerExtension | src/services/content.ts:40-49 | `x.mdy.md` gives the slug `xy.md`, and loading then fails for that slug |
| Content.SortByDate | src/services/content.ts:75 | the result is sorted by ascending date and is a permutation of the input |
| Content.SortByDateStable | src/services/content.ts:75 | posts with equal dates keep their load order |
| Content.Derive | src/services/content.ts:76-84 | the derived post keeps slug, content, title, description, tags, image and featured; reading time is recomputed from the content, the date becomes its ISO text, and published is always true (`published || true`); `GetPostsSpec` applies it to every sorted post |
| Content.GetPosts | src/services/content.ts:64-86 | succeeds exactly when loading does |
| Content.GetPostsSpec | src/services/content.ts:64-86 | one post per `.md` file; the slugs are a permutation of the derived slugs; the i-th post is the i-th date-sorted raw post with slug, content, title, description, tags, image and featured unchanged, reading time recomputed from content, date as ISO text and published true |
| Content.FirstFeatured | src/services/content.ts:91 | the index of the first featured post, or none when no post is featured |
| Content.GetFeaturedPost | src/services/content.ts:88-98 | the first featured post; with none featured, `posts[0]`; nothing only for an empty list |
| Content.FeaturedFallbackIsEarliest | src/services/content.ts:88-98 | with no featured post the fallback is a loaded post of minimum date |
| TagIndex.AllTags | src/services/content.ts:105-106 | a tag occurs in the concatenated tag lists exactly when some post lists it |
| TagIndex.GetTagPaths | src/services/content.ts:100-112 | the paths are the deduplicated slugs of all tags, in first-insertion order, without duplicates, and a slug is present exactly when it is the slug of some post's tag |
| TagIndex.SeenSlugsIsDedup | src/services/content.ts:103-109 | adding each tag's slug to a set that keeps insertion order yields the slugs of all tags, deduplicated in order of first appearance |
| TagIndex.GetTagCounts | src/services/content.ts:114-126 | keys are exactly the raw tags of the posts; each value is the tag's number of occurrences across all tag lists, at least 1 |
| TagIndex.TagCountsTotal | src/services/content.ts:114-126 | the counts sum to the total number of tag occurrences |
| TagIndex.TagCountsExample | src/services/content.ts:114-126 | tags `["A","B"]` and `["B"]` give `{A:1, B:2}` |
| TagIndex.RepeatedTagExample | src/services/content.ts:117-123 | a tag listed twice by one post counts 2 |
| Sitemap.DatePart | src/services/content.ts:155 | the text before the first `T`: a prefix without `T`, followed by `T` when shorter than the date |
| Sitemap.DatePartOfDateTime | src/services/content.ts:150 | an ISO date-time yields its calendar date |
| Sitemap.GenerateSitemap | src/services/content.ts:142-163 | fails on an empty post list; otherwise the header, the root entry, one entry per post and `</urlset>` |
| Sitemap.SitemapRoundTrip | src/services/content.ts:146-160 | the sitemap reads back as exactly `posts.length + 1` entries: the root URL dated by `posts[0]`, then each post's URL and calendar date in list order |
| Sitemap.ParseUrlsRoundTrip | src/services/content.ts:157 | concatenated entries whose fields contain no `<` read back as the same entries |
| Feeds.Feed.constructor | src/services/content.ts:176-192 | the feed holds the given options and no items |
| Feeds.Feed.AddItem | src/services/content.ts:199-208 | appends the item and keeps the earlier ones |
| Feeds.Options | src/services/content.ts:176-192 | the feed is identified and linked by the site URL, credits the blog's author and is dated now |
| Feeds.DecimalRoundTrip | src/services/content.ts:183 | the printed copyright year reads back as the year |
| Feeds.ItemFor | src/services/content.ts:194-208 | the item for one post: id and link are the post's URL, which ends in its slug; title and date are the post's; description equals content; author and contributor are the blog's author. `ItemContentEmbedsPost` states that the content embeds the post's URL, image and description |
| Feeds.GenerateRssFeeds | src/services/content.ts:165-209 | a fresh feed with the blog's options and exactly one item per post, in order |
| Feeds.ItemsDescribePosts | src/services/content.ts:194-208 | each item has its post's title and date, id and link are the post's URL, description equals content, author and contributor are the blog's author |
| Feeds.ItemContentEmbedsPost | src/services/content.ts:197 | the content opens with a link to the post's URL, shows the post's image as that link's `<img src>`, and ends with `<p>`, the post's description and `</p>` |
| Feeds.ItemIdsDistinct | src/services/content.ts:195-202 | posts with distinct slugs get distinct item ids |
| Feeds.ItemLinksMatchSitemap | src/services/content.ts:154-157 | each item's link is the loc the sitemap lists for the same post |
| Topics.Compare | src/components/SidebarBox.tsx:92 | negative exactly when the first tag has the higher count, and never 0 |
| Topics.SortByCount | src/components/SidebarBox.tsx:92 | one sorted key per key, each a key of the counts; `SortByCountCorrect` gives the permutation and the descending order |
| Topics.SortByCountCorrect | src/components/SidebarBox.tsx:91-92 | the sorted keys are a permutation of the keys, with counts that never increase |
| Topics.Topics | src/components/SidebarBox.tsx:91-107 | one row per key, and each row shows a counted tag with that tag's own count; `TopicsSpec` gives the order and the link |
| Topics.TopicsSpec | src/components/SidebarBox.tsx:91-107 | the row tags are a permutation of the keys; counts never increase down the list; each row shows its tag, the tag's own count, and links to `/tag/` plus the tag's slug |
| Topics.TopicsCoverTags | src/components/SidebarBox.tsx:91 | when the keys list the map's keys once each, there is exactly one row per tag |
| Topics.TopicsExample | src/components/SidebarBox.tsx:91-107 | counts `{a:1, b:2}` list `b` before `a` |

## Left out

- Filesystem I/O is not modelled: `readdir`, `readFile`, `mkdir`, `writeFile` and the `process.cwd()` paths. The listing is an input. The file read and the front-matter parse are the parameter `read`. The generators return what they would write.
- `async` and `Promise.all` are not modelled. Loading is sequential. When several posts fail, the model reports the first in slug order, while `Promise.all` rejects with whichever rejection comes first in time.
- The `front-matter` parser, the `reading-time` estimate with its `Math.round`, and `Date.prototype.toISOString` are parameters and are not modelled. Invalid dates are not modelled.
- The RSS 2.0, Atom and JSON texts that the `feed` package renders are left out; so is its internal state beyond the options and items. `new Date()` is the parameters `year` and `now`. An item's `new Date(post.meta.date)` is kept as the ISO text it is built from.
- Text.ToLower: only ASCII capitals, KELVIN SIGN and LATIN CAPITAL LETTER I WITH DOT ABOVE are lowered. These are the only characters whose lower case contains an ASCII letter, so the final slug is exact; other non-ASCII characters are kept and then removed by the strip.
- Content.GetPost: a failure is the error value `FileNotFound`, standing for the TypeError that `join(root, undefined)` raises before `readFile` is reached (`src/services/content.ts:51`).
- Sitemap.GenerateSitemap: an empty post list fails with `NoPosts`, standing for the exception that reading `posts[0].meta` raises.
- Topics.TopicsSpec: does not state the order of tags with equal counts. The comparator answers 1 for a tie whichever way round it is asked, so that order depends on the engine's sort. The model's own sort keeps tied keys in `Object.keys` order, but no contract promises it.
- The `RawMeta.readingTime` field and any extra front-matter keys are not modelled; `getPosts` overwrites the former.
- `getDefaultStaticProps` only gathers three of the modelled results, so it is not modelled.
- The `idx`-based border of a `Topics` row and all other presentational components, the Fuse.js search and the contact form are not modelled.
