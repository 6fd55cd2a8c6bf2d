/**
 * The `Topics` sidebar of src/components/SidebarBox.tsx: the keys of the
 * tag-count map, sorted by descending count, each rendered as a link to the
 * tag's page showing the tag and its count.
 *
 * The comparator answers "after" for equal counts whichever way round it is
 * asked, so the order of tags with equal counts is up to the engine's sort.
 * The model sorts by inserting each key after every key it does not beat;
 * its contracts promise only what any sort with this comparator gives:
 * the same keys, with counts that never increase along the list.
 */
module Topics {
  import opened Seqs
  import Text

  type TagCounts = map<string, int>

  /** One rendered row: the link target, the tag as written and its count. */
  datatype TopicRow = TopicRow(href: string, tag: string, count: int)

  /** The sort comparator: negative puts `a` first, and it never answers 0. */
  function Compare(counts: TagCounts, a: string, b: string): (r: int)
    requires a in counts && b in counts
    ensures r == -1 || r == 1
    ensures r < 0 <==> counts[a] > counts[b]
  {
    if counts[a] > counts[b] then -1 else 1
  }

  predicate InDomain(counts: TagCounts, keys: seq<string>) {
    forall i | 0 <= i < |keys| :: keys[i] in counts
  }

  /** Counts never increase along `keys`. */
  predicate NonIncreasing(counts: TagCounts, keys: seq<string>)
    requires InDomain(counts, keys)
  {
    forall i, j | 0 <= i < j < |keys| :: counts[keys[i]] >= counts[keys[j]]
  }

  /** Places `k` before the first key the comparator says it goes before. */
  function Insert(counts: TagCounts, k: string, sorted: seq<string>): (r: seq<string>)
    requires k in counts && InDomain(counts, sorted)
    ensures |r| == |sorted| + 1 && InDomain(counts, r)
    ensures forall x :: x in r <==> x == k || x in sorted
  {
    if sorted == [] then [k]
    else if Compare(counts, k, sorted[0]) < 0 then [k] + sorted
    else [sorted[0]] + Insert(counts, k, sorted[1..])
  }

  lemma {:induction false} InsertPermutes(counts: TagCounts, k: string, sorted: seq<string>)
    requires k in counts && InDomain(counts, sorted)
    ensures multiset(Insert(counts, k, sorted)) == multiset(sorted) + multiset{k}
    decreases |sorted|
  {
    if sorted != [] && Compare(counts, k, sorted[0]) >= 0 {
      InsertPermutes(counts, k, sorted[1..]);
      assert sorted == [sorted[0]] + sorted[1..];
    }
  }

  lemma {:induction false} InsertKeepsOrder(counts: TagCounts, k: string, sorted: seq<string>)
    requires k in counts && InDomain(counts, sorted) && NonIncreasing(counts, sorted)
    ensures NonIncreasing(counts, Insert(counts, k, sorted))
    decreases |sorted|
  {
    if sorted != [] && Compare(counts, k, sorted[0]) >= 0 {
      InsertKeepsOrder(counts, k, sorted[1..]);
      var r := Insert(counts, k, sorted);
      forall j | 0 < j < |r| ensures counts[r[0]] >= counts[r[j]] {
        assert r[j] == k || r[j] in sorted[1..];
      }
    }
  }

  /** `Object.keys(tagCounts).sort(...)`, given the keys in the order `Object.keys` lists them. */
  function SortByCount(counts: TagCounts, keys: seq<string>): (r: seq<string>)
    requires InDomain(counts, keys)
    ensures |r| == |keys| && InDomain(counts, r)
  {
    if keys == [] then []
    else Insert(counts, keys[|keys| - 1], SortByCount(counts, keys[..|keys| - 1]))
  }

  /** Sorting keeps exactly the keys, each as often as before, and orders them by descending count. */
  lemma {:induction false} SortByCountCorrect(counts: TagCounts, keys: seq<string>)
    requires InDomain(counts, keys)
    ensures multiset(SortByCount(counts, keys)) == multiset(keys)
    ensures NonIncreasing(counts, SortByCount(counts, keys))
    decreases |keys|
  {
    if keys != [] {
      var init := keys[..|keys| - 1];
      var last := keys[|keys| - 1];
      SortByCountCorrect(counts, init);
      InsertPermutes(counts, last, SortByCount(counts, init));
      InsertKeepsOrder(counts, last, SortByCount(counts, init));
      assert keys == init + [last];
    }
  }

  function Row(counts: TagCounts, tag: string): TopicRow
    requires tag in counts
  {
    TopicRow("/tag/" + Text.Slug(tag), tag, counts[tag])
  }

  /** The rows `Topics` renders, in order. */
  function Topics(counts: TagCounts, keys: seq<string>): (rows: seq<TopicRow>)
    requires InDomain(counts, keys)
    ensures |rows| == |keys|
    ensures forall i | 0 <= i < |rows| :: rows[i].tag in counts && rows[i].count == counts[rows[i].tag]
  {
    var sorted := SortByCount(counts, keys);
    seq(|sorted|, i requires 0 <= i < |sorted| => Row(counts, sorted[i]))
  }

  function RowTags(rows: seq<TopicRow>): seq<string> {
    seq(|rows|, i requires 0 <= i < |rows| => rows[i].tag)
  }

  /**
   * The rows show each key once per occurrence in `keys`, with counts that
   * never increase down the list; every row shows its tag's own count and
   * links to the page of the tag's slug.
   */
  lemma TopicsSpec(counts: TagCounts, keys: seq<string>)
    requires InDomain(counts, keys)
    ensures var rows := Topics(counts, keys);
            && multiset(RowTags(rows)) == multiset(keys)
            && (forall i, j | 0 <= i < j < |rows| :: rows[i].count >= rows[j].count)
            && forall i | 0 <= i < |rows| ::
                 rows[i].tag in counts && rows[i].count == counts[rows[i].tag]
                 && rows[i].href == "/tag/" + Text.Slug(rows[i].tag)
  {
    SortByCountCorrect(counts, keys);
    assert RowTags(Topics(counts, keys)) == SortByCount(counts, keys);
  }

  /** When `keys` lists the map's keys once each, as `Object.keys` does, there is exactly one row per tag. */
  lemma TopicsCoverTags(counts: TagCounts, keys: seq<string>)
    requires Distinct(keys) && forall k :: k in keys <==> k in counts
    ensures var tags := RowTags(Topics(counts, keys));
            && Distinct(tags) && forall k :: k in tags <==> k in counts
  {
    TopicsSpec(counts, keys);
    var tags := RowTags(Topics(counts, keys));
    forall k ensures k in tags <==> k in keys {
      assert k in tags <==> k in multiset(tags);
    }
    forall x ensures multiset(tags)[x] <= 1 {
      DistinctOccursOnce(keys, x);
    }
    OccursOnceDistinct(tags);
  }

  lemma {:induction false} OccursOnceDistinct(s: seq<string>)
    requires forall x :: multiset(s)[x] <= 1
    ensures Distinct(s)
    decreases |s|
  {
    if s != [] {
      var t := s[1..];
      assert s == [s[0]] + t;
      assert multiset(s) == multiset{s[0]} + multiset(t);
      forall x ensures multiset(t)[x] <= 1 {
        assert multiset(t)[x] <= multiset(s)[x];
      }
      OccursOnceDistinct(t);
      assert multiset(s)[s[0]] == 1 + multiset(t)[s[0]];
      assert s[0] !in t;
      forall i, j | 0 <= i < j < |s| ensures s[i] != s[j] {
        if i > 0 {
          assert s[i] == t[i - 1] && s[j] == t[j - 1];
        } else {
          assert s[j] in t;
        }
      }
    }
  }

  lemma {:induction false} DistinctOccursOnce(s: seq<string>, x: string)
    requires Distinct(s)
    ensures multiset(s)[x] <= 1
    decreases |s|
  {
    if s != [] {
      DistinctOccursOnce(s[1..], x);
      assert s == [s[0]] + s[1..];
      assert s[0] !in s[1..];
    }
  }

  /** Keys listed in ascending order of count come out in descending order. */
  lemma TopicsExample()
    ensures RowTags(Topics(map["a" := 1, "b" := 2], ["a", "b"])) == ["b", "a"]
    ensures Topics(map["a" := 1, "b" := 2], ["a", "b"])[1].count == 1
  {
    var counts := map["a" := 1, "b" := 2];
    assert SortByCount(counts, ["a"]) == ["a"];
    assert ["a", "b"][..1] == ["a"];
    assert SortByCount(counts, ["a", "b"]) == ["b", "a"];
  }
}
