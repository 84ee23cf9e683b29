/** The post listing: filter the posts by list type, then sort a copy with pinned posts
    first and each group newest first. */
module PostList {
  import Seqs

  datatype ListType = All | Notice | Popular

  /** A listed post. `createdAt` is `new Date(createdAt).getTime()` of the source's
      timestamp string, in milliseconds. */
  datatype Post = Post(
    id: string,
    title: string,
    category: string,
    authorName: string,
    createdAt: int,
    viewCount: int,
    likeCount: int,
    commentCount: int,
    isNotice: bool,
    isPinned: bool)

  /** The `filter` callback for a list type. */
  predicate Shown(post: Post, listType: ListType)
  {
    match listType
    case Notice => post.isNotice
    case Popular => post.likeCount > 5
    case All => true
  }

  /** `filteredPosts`. */
  function FilterPosts(posts: seq<Post>, listType: ListType): seq<Post>
  {
    Seqs.Filter(posts, (p: Post) => Shown(p, listType))
  }

  /** The comparator passed to `sort`: negative when `a` goes first. */
  function Compare(a: Post, b: Post): int
  {
    if a.isPinned && !b.isPinned then -1
    else if !a.isPinned && b.isPinned then 1
    else b.createdAt - a.createdAt
  }

  /** Every post comes no later than each one after it, as the comparator sees them. */
  predicate SortedByComparator(s: seq<Post>)
  {
    forall i, j :: 0 <= i < j < |s| ==> Compare(s[i], s[j]) <= 0
  }

  lemma CompareAntisymmetric(a: Post, b: Post)
    ensures Compare(b, a) == -Compare(a, b)
  {
  }

  lemma CompareTransitive(a: Post, b: Post, c: Post)
    requires Compare(a, b) <= 0 && Compare(b, c) <= 0
    ensures Compare(a, c) <= 0
  {
  }

  /** A post that comes no later than the head of a sorted list comes no later than all of it. */
  lemma LeadsSorted(x: Post, s: seq<Post>)
    requires SortedByComparator(s) && s != [] && Compare(x, s[0]) <= 0
    ensures forall j :: 0 <= j < |s| ==> Compare(x, s[j]) <= 0
  {
    forall j | 0 < j < |s| ensures Compare(x, s[j]) <= 0 {
      CompareTransitive(x, s[0], s[j]);
    }
  }

  /** A post that comes no later than `x` and than every post of `s` comes no later than
      any post of a list holding `x` and the posts of `s`. */
  lemma LeadsAll(h: Post, x: Post, s: seq<Post>, r: seq<Post>)
    requires multiset(r) == multiset(s) + multiset{x}
    requires Compare(h, x) <= 0
    requires forall j :: 0 <= j < |s| ==> Compare(h, s[j]) <= 0
    ensures forall j :: 0 <= j < |r| ==> Compare(h, r[j]) <= 0
  {
    forall j | 0 <= j < |r| ensures Compare(h, r[j]) <= 0 {
      assert r[j] in multiset(r);
      if r[j] != x {
        assert r[j] in multiset(s);
        var m :| 0 <= m < |s| && s[m] == r[j];
      }
    }
  }

  /** Putting a post that leads a sorted list in front of it keeps it sorted. */
  lemma ConsSorted(h: Post, r: seq<Post>)
    requires SortedByComparator(r)
    requires forall j :: 0 <= j < |r| ==> Compare(h, r[j]) <= 0
    ensures SortedByComparator([h] + r)
  {
    var t := [h] + r;
    forall i, j | 0 <= i < j < |t| ensures Compare(t[i], t[j]) <= 0 {
      if i == 0 {
        assert t[j] == r[j - 1];
      } else {
        assert t[i] == r[i - 1] && t[j] == r[j - 1];
      }
    }
  }

  /** Inserts `x` into a sorted list before the first post it does not follow. */
  function Insert(x: Post, s: seq<Post>): (r: seq<Post>)
    requires SortedByComparator(s)
    ensures multiset(r) == multiset(s) + multiset{x}
    ensures SortedByComparator(r)
  {
    if s == [] then [x]
    else if Compare(x, s[0]) <= 0 then
      LeadsSorted(x, s);
      ConsSorted(x, s);
      [x] + s
    else
      var tail := s[1..];
      var rest := Insert(x, tail);
      assert s == [s[0]] + tail;
      CompareAntisymmetric(x, s[0]);
      assert forall j :: 0 <= j < |tail| ==> Compare(s[0], tail[j]) <= 0 by {
        forall j | 0 <= j < |tail| ensures Compare(s[0], tail[j]) <= 0 {
          assert tail[j] == s[j + 1];
        }
      }
      LeadsAll(s[0], x, tail, rest);
      ConsSorted(s[0], rest);
      [s[0]] + rest
  }

  /** What the comparator looks at: two posts tie exactly when their keys are equal. */
  function SortKey(p: Post): (bool, int)
  {
    (p.isPinned, p.createdAt)
  }

  /** The posts after the first of a sorted list are sorted. */
  lemma SortedTail(s: seq<Post>)
    requires SortedByComparator(s) && s != []
    ensures SortedByComparator(s[1..])
  {
    var tail := s[1..];
    forall i, j | 0 <= i < j < |tail| ensures Compare(tail[i], tail[j]) <= 0 {
      assert tail[i] == s[i + 1] && tail[j] == s[j + 1];
    }
  }

  /** `[p]` when `p` has sort key `k`, otherwise nothing. */
  function KeyedHead(p: Post, k: (bool, int)): seq<Post>
  {
    if SortKey(p) == k then [p] else []
  }

  /** The comparator ties two posts exactly when their sort keys are equal. */
  lemma CompareTiesExactlyOnKey(a: Post, b: Post)
    ensures Compare(a, b) == 0 <==> SortKey(a) == SortKey(b)
  {
  }

  /** The posts of `s` whose sort key is `k`, in their order in `s`. */
  function WithKey(s: seq<Post>, k: (bool, int)): seq<Post>
  {
    if s == [] then [] else KeyedHead(s[0], k) + WithKey(s[1..], k)
  }

  /** Two posts that do not both have key `k` can trade places in front of a list without
      changing its key-`k` posts. */
  lemma KeyedHeadsCommute(a: Post, b: Post, k: (bool, int), w: seq<Post>)
    requires SortKey(a) != k || SortKey(b) != k
    ensures KeyedHead(a, k) + (KeyedHead(b, k) + w) == KeyedHead(b, k) + (KeyedHead(a, k) + w)
  {
    if SortKey(a) != k {
      assert KeyedHead(a, k) == [];
    } else {
      assert KeyedHead(b, k) == [];
    }
  }

  /** The key-`k` posts of a list with a known first post. */
  lemma WithKeyCons(p: Post, s: seq<Post>, k: (bool, int))
    ensures WithKey([p] + s, k) == KeyedHead(p, k) + WithKey(s, k)
  {
    assert ([p] + s)[0] == p && ([p] + s)[1..] == s;
  }

  /** Where `x` follows the head of `s` it is inserted into the rest. */
  lemma InsertPastHead(x: Post, s: seq<Post>)
    requires SortedByComparator(s)
    requires s != [] && Compare(x, s[0]) > 0
    ensures SortedByComparator(s[1..])
    ensures Insert(x, s) == [s[0]] + Insert(x, s[1..])
  {
    SortedTail(s);
  }

  /** Inserting `x` puts it before every post of `s` it ties with and leaves the order
      of those posts as it was. */
  lemma {:induction false} InsertKeepsTies(x: Post, s: seq<Post>, k: (bool, int))
    requires SortedByComparator(s)
    ensures WithKey(Insert(x, s), k) == KeyedHead(x, k) + WithKey(s, k)
  {
    if s == [] || Compare(x, s[0]) <= 0 {
      assert Insert(x, s) == [x] + s;
      WithKeyCons(x, s, k);
    } else {
      var head, tail := s[0], s[1..];
      InsertPastHead(x, s);
      InsertKeepsTies(x, tail, k);
      WithKeyCons(head, Insert(x, tail), k);
      WithKeyCons(head, tail, k);
      assert s == [head] + tail;
      KeyedHeadsCommute(head, x, k, WithKey(tail, k));
      calc {
        WithKey(Insert(x, s), k);
        WithKey([head] + Insert(x, tail), k);
        KeyedHead(head, k) + WithKey(Insert(x, tail), k);
        KeyedHead(head, k) + (KeyedHead(x, k) + WithKey(tail, k));
        KeyedHead(x, k) + (KeyedHead(head, k) + WithKey(tail, k));
        KeyedHead(x, k) + WithKey(s, k);
      }
    }
  }

  /** `[...filteredPosts].sort(compare)`, as an insertion sort on a copy. */
  function SortPosts(s: seq<Post>): (r: seq<Post>)
    ensures multiset(r) == multiset(s)
    ensures SortedByComparator(r)
  {
    if s == [] then []
    else
      assert s == [s[0]] + s[1..];
      Insert(s[0], SortPosts(s[1..]))
  }

  /** The sort is stable: posts the comparator ties keep their relative order. */
  lemma {:induction false} SortKeepsTies(s: seq<Post>, k: (bool, int))
    ensures WithKey(SortPosts(s), k) == WithKey(s, k)
  {
    if s != [] {
      var tail := s[1..];
      SortKeepsTies(tail, k);
      InsertKeepsTies(s[0], SortPosts(tail), k);
      calc {
        WithKey(SortPosts(s), k);
        WithKey(Insert(s[0], SortPosts(tail)), k);
        KeyedHead(s[0], k) + WithKey(SortPosts(tail), k);
        KeyedHead(s[0], k) + WithKey(tail, k);
        WithKey(s, k);
      }
    }
  }

  /** `sortedPosts` for a list type. */
  function ListedPosts(posts: seq<Post>, listType: ListType): seq<Post>
  {
    SortPosts(FilterPosts(posts, listType))
  }

  // ---- properties ----

  /** Each list type keeps exactly the posts its filter admits; "all" keeps the list as is. */
  lemma FilterKeepsExactly(posts: seq<Post>, listType: ListType, p: Post)
    ensures p in FilterPosts(posts, listType) <==> p in posts && Shown(p, listType)
    ensures listType == Notice ==> (p in FilterPosts(posts, listType) <==> p in posts && p.isNotice)
    ensures listType == Popular ==> (p in FilterPosts(posts, listType) <==> p in posts && p.likeCount > 5)
    ensures listType == All ==> FilterPosts(posts, listType) == posts
  {
    Seqs.FilterMembership(posts, (q: Post) => Shown(q, listType), p);
    if listType == All {
      Seqs.FilterKeepsAll(posts, (q: Post) => Shown(q, listType));
    }
  }

  /** The listing is a permutation of the filtered posts, with every pinned post before
      every unpinned one and each group newest first. */
  lemma ListingOrder(posts: seq<Post>, listType: ListType)
    ensures var r := ListedPosts(posts, listType);
      && multiset(r) == multiset(FilterPosts(posts, listType))
      && |r| == |FilterPosts(posts, listType)|
      && (forall i, j :: 0 <= i < j < |r| && r[j].isPinned ==> r[i].isPinned)
      && (forall i, j :: 0 <= i < j < |r| && r[i].isPinned == r[j].isPinned ==> r[i].createdAt >= r[j].createdAt)
  {
    var r := ListedPosts(posts, listType);
    assert |r| == |multiset(r)|;
  }

  /** Posts with the same pinned flag and the same timestamp keep the order they had in
      the filtered list, as the stable `Array.prototype.sort` keeps them. */
  lemma ListingKeepsTies(posts: seq<Post>, listType: ListType, k: (bool, int))
    ensures WithKey(ListedPosts(posts, listType), k) == WithKey(FilterPosts(posts, listType), k)
  {
    SortKeepsTies(FilterPosts(posts, listType), k);
  }
}
