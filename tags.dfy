/**
 * The tag queries of src/services/content.ts: `getTagPaths`, which fills a
 * `Set` with the slug of every tag, and `getTagCounts`, which fills a `Map`
 * from each raw tag to its number of occurrences. Both iterate over the
 * posts `getPosts` returned, which are given here as the parameter `posts`.
 */
module TagIndex {
  import opened Seqs
  import Text
  import opened Content

  /** Every tag of every post, in iteration order (a tag may repeat). */
  function AllTags(posts: seq<Post>): (r: seq<string>)
    ensures forall t :: t in r <==> exists p | p in posts :: t in p.meta.tags
  {
    if posts == [] then []
    else
      var init := posts[..|posts| - 1];
      assert forall p :: p in posts <==> p in init || p == posts[|posts| - 1] by {
        assert posts == init + [posts[|posts| - 1]];
      }
      AllTags(init) + posts[|posts| - 1].meta.tags
  }

  function SlugAll(tags: seq<string>): (r: seq<string>)
    ensures |r| == |tags|
    ensures forall i | 0 <= i < |tags| :: r[i] == Text.Slug(tags[i])
  {
    seq(|tags|, i requires 0 <= i < |tags| => Text.Slug(tags[i]))
  }

  /** The slugs `getTagPaths` returns: in order of first appearance, each once. */
  function TagSlugs(posts: seq<Post>): seq<string> {
    Dedup(SlugAll(AllTags(posts)))
  }

  /** How often each raw tag occurs across all posts' tag lists. */
  function CountsOf(tags: seq<string>): (m: map<string, nat>)
    ensures m.Keys == set t | t in tags
  {
    map t | t in tags :: Count(tags, t)
  }

  lemma AllTagsSnoc(posts: seq<Post>, i: nat)
    requires i < |posts|
    ensures AllTags(posts[..i + 1]) == AllTags(posts[..i]) + posts[i].meta.tags
  {
    assert posts[..i + 1][..i] == posts[..i];
  }

  /** After the inner loop over post `i`, the tags seen are those of the first `i + 1` posts. */
  lemma TagsOfNextPost(posts: seq<Post>, i: nat)
    requires i < |posts|
    ensures AllTags(posts[..i]) + posts[i].meta.tags[..|posts[i].meta.tags|] == AllTags(posts[..i + 1])
  {
    AllTagsSnoc(posts, i);
    assert posts[i].meta.tags[..|posts[i].meta.tags|] == posts[i].meta.tags;
  }

  lemma DedupSnoc(s: seq<string>, x: string)
    ensures Dedup(s + [x]) == if x in Dedup(s) then Dedup(s) else Dedup(s) + [x]
  {
    assert (s + [x])[..|s|] == s;
  }

  lemma CountSnoc(s: seq<string>, x: string, t: string)
    ensures Count(s + [x], t) == Count(s, t) + if x == t then 1 else 0
  {
    assert (s + [x])[..|s|] == s;
  }

  lemma CountsOfSnoc(s: seq<string>, x: string)
    ensures CountsOf(s + [x]) == CountsOf(s)[x := if x in CountsOf(s) then CountsOf(s)[x] + 1 else 1]
  {
    var l, r := CountsOf(s + [x]), CountsOf(s)[x := if x in CountsOf(s) then CountsOf(s)[x] + 1 else 1];
    assert l.Keys == r.Keys;
    forall t | t in l ensures l[t] == r[t] {
      CountSnoc(s, x, t);
    }
  }

  lemma SlugAllSnoc(tags: seq<string>, t: string)
    ensures SlugAll(tags + [t]) == SlugAll(tags) + [Text.Slug(t)]
  {
  }

  /**
   * The slugs `getTagPaths` has collected after visiting `tags`: the slug of
   * each visited tag is added unless the set already holds it.
   */
  function SeenSlugs(tags: seq<string>): seq<string> {
    if tags == [] then []
    else
      var paths := SeenSlugs(tags[..|tags| - 1]);
      var s := Text.Slug(tags[|tags| - 1]);
      if s in paths then paths else paths + [s]
  }

  /** One step of `getTagPaths`: visiting one more tag. */
  lemma SeenSlugsSnoc(seen: seq<string>, t: string)
    ensures SeenSlugs(seen + [t])
            == var paths := SeenSlugs(seen); if Text.Slug(t) in paths then paths else paths + [Text.Slug(t)]
  {
    assert (seen + [t])[..|seen|] == seen;
  }

  /** Collecting slugs in a set is deduplicating the sequence of slugs. */
  lemma {:induction false} SeenSlugsIsDedup(tags: seq<string>)
    ensures SeenSlugs(tags) == Dedup(SlugAll(tags))
  {
    if tags != [] {
      var init, last := tags[..|tags| - 1], tags[|tags| - 1];
      assert tags == init + [last];
      SeenSlugsIsDedup(init);
      SlugAllSnoc(init, last);
      DedupSnoc(SlugAll(init), Text.Slug(last));
    }
  }

  /**
   * `getTagPaths`: walks every tag of every post and adds its slug to a set;
   * returns the set's elements in insertion order.
   */
  method GetTagPaths(posts: seq<Post>) returns (paths: seq<string>)
    ensures paths == TagSlugs(posts)
    ensures Distinct(paths)
    ensures forall s :: s in paths <==> exists p, t | p in posts && t in p.meta.tags :: s == Text.Slug(t)
  {
    paths := [];
    for i := 0 to |posts|
      invariant paths == SeenSlugs(AllTags(posts[..i]))
    {
      var tags := posts[i].meta.tags;
      ghost var done := AllTags(posts[..i]);
      SliceNone(done, tags);
      for j := 0 to |tags|
        invariant paths == SeenSlugs(done + tags[..j])
      {
        SliceSnoc(done, tags, j);
        SeenSlugsSnoc(done + tags[..j], tags[j]);
        var s := Text.Slug(tags[j]);
        if s !in paths {
          paths := paths + [s];
        }
      }
      TagsOfNextPost(posts, i);
    }
    assert posts[..|posts|] == posts;
    SeenSlugsIsDedup(AllTags(posts));
    TagSlugsMembers(posts);
  }

  /** A slug is listed exactly when some tag of some post has it as its slug. */
  lemma TagSlugsMembers(posts: seq<Post>)
    ensures forall s :: s in TagSlugs(posts) <==> exists p, t | p in posts && t in p.meta.tags :: s == Text.Slug(t)
  {
    var all := AllTags(posts);
    forall s ensures s in TagSlugs(posts) <==> exists p, t | p in posts && t in p.meta.tags :: s == Text.Slug(t) {
      if s in SlugAll(all) {
        var k :| 0 <= k < |all| && SlugAll(all)[k] == s;
        assert all[k] in all;
      } else {
        forall p, t | p in posts && t in p.meta.tags ensures s != Text.Slug(t) {
          assert t in all;
          var k :| 0 <= k < |all| && all[k] == t;
          assert SlugAll(all)[k] == Text.Slug(t);
        }
      }
    }
  }

  /** One step of `getTagCounts`: the next tag's entry goes up by one, or starts at 1. */
  lemma CountsStep(done: seq<string>, tags: seq<string>, j: nat, counts: map<string, nat>)
    requires j < |tags|
    requires counts == CountsOf(done + tags[..j])
    ensures CountsOf(done + tags[..j + 1])
            == counts[tags[j] := if tags[j] in counts then counts[tags[j]] + 1 else 1]
  {
    SliceSnoc(done, tags, j);
    CountsOfSnoc(done + tags[..j], tags[j]);
  }

  /**
   * `getTagCounts`: for every tag occurrence, sets the tag's entry to one
   * more than before, or to 1 when it had none.
   */
  method GetTagCounts(posts: seq<Post>) returns (counts: map<string, nat>)
    ensures counts == CountsOf(AllTags(posts))
    ensures forall t :: t in counts <==> exists p | p in posts :: t in p.meta.tags
    ensures forall t | t in counts :: counts[t] == Count(AllTags(posts), t) >= 1
  {
    counts := map[];
    for i := 0 to |posts|
      invariant counts == CountsOf(AllTags(posts[..i]))
    {
      var tags := posts[i].meta.tags;
      ghost var done := AllTags(posts[..i]);
      assert done + tags[..0] == done;
      for j := 0 to |tags|
        invariant counts == CountsOf(done + tags[..j])
      {
        CountsStep(done, tags, j, counts);
        counts := counts[tags[j] := if tags[j] in counts then counts[tags[j]] + 1 else 1];
      }
      TagsOfNextPost(posts, i);
    }
    assert posts[..|posts|] == posts;
    TagCountsKeys(posts);
  }

  /** The counted tags are exactly the posts' tags, each counted at least once. */
  lemma TagCountsKeys(posts: seq<Post>)
    ensures forall t :: t in CountsOf(AllTags(posts)) <==> exists p | p in posts :: t in p.meta.tags
    ensures forall t | t in CountsOf(AllTags(posts)) :: CountsOf(AllTags(posts))[t] == Count(AllTags(posts), t) >= 1
  {
  }

  /**
   * The counts add up to the number of tag occurrences, whichever order
   * the keys are enumerated in.
   */
  lemma TagCountsTotal(posts: seq<Post>, keys: seq<string>)
    requires Distinct(keys)
    requires forall k :: k in keys <==> k in CountsOf(AllTags(posts))
    ensures SumValues(keys, CountsOf(AllTags(posts))) == |AllTags(posts)|
  {
    var all := AllTags(posts);
    SumValuesIsSumCounts(keys, all);
    SumCountsOverSupport(keys, all);
  }

  lemma {:induction false} SumValuesIsSumCounts(keys: seq<string>, all: seq<string>)
    requires forall k | k in keys :: k in CountsOf(all)
    ensures SumValues(keys, CountsOf(all)) == SumCounts(keys, all)
  {
    if keys != [] {
      SumValuesIsSumCounts(keys[..|keys| - 1], all);
    }
  }

  function PostWithTags(slug: string, tags: seq<string>): Post {
    Post(slug, Meta("", "", tags, "", 0, "", Wrappers.None, true), "")
  }

  /**
   * Counting is by occurrence, not by post: two posts tagged `A, B` and `B`
   * give `{A: 1, B: 2}`.
   */
  lemma TagCountsExample()
    ensures CountsOf(AllTags([PostWithTags("one", ["A", "B"]), PostWithTags("two", ["B"])])) == map["A" := 1, "B" := 2]
  {
    var p1, p2 := PostWithTags("one", ["A", "B"]), PostWithTags("two", ["B"]);
    var ps := [p1, p2];
    assert ps[..1] == [p1];
    assert [p1][..0] == [];
    assert AllTags([p1]) == ["A", "B"];
    var all := AllTags(ps);
    assert all == ["A", "B"] + ["B"];
    CountsOfABB(all);
  }

  lemma CountsOfABB(all: seq<string>)
    requires all == ["A", "B", "B"]
    ensures CountsOf(all) == map["A" := 1, "B" := 2]
  {
    assert all[..2] == ["A", "B"] && all[..1] == ["A"] && all[..0] == [];
    assert Count(all, "A") == 1 && Count(all, "B") == 2;
    assert CountsOf(all).Keys == {"A", "B"};
  }

  /** A tag listed twice by one post counts twice. */
  lemma RepeatedTagExample()
    ensures CountsOf(AllTags([PostWithTags("one", ["A", "A"])])) == map["A" := 2]
  {
    var q := PostWithTags("one", ["A", "A"]);
    assert [q][..0] == [];
    assert AllTags([q][..0]) == [];
    var aa := AllTags([q]);
    assert aa == ["A", "A"];
    CountsOfAA(aa);
  }

  lemma CountsOfAA(all: seq<string>)
    requires all == ["A", "A"]
    ensures CountsOf(all) == map["A" := 2]
  {
    assert all[..1] == ["A"] && all[..0] == [];
    assert Count(all, "A") == 2;
    assert CountsOf(all).Keys == {"A"};
  }
}
