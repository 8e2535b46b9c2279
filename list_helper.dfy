/**
 * The blog-statistics helpers of utils/list_helper.js, as pure functions over
 * an ordered sequence of blog records.
 *
 * Each JavaScript `reduce` is a left fold; here it is written as recursion on
 * the prefix `s[..|s|-1]` followed by one step with the last element, so that
 * "appending a record" is exactly one unfolding of the definition.
 */
module ListHelper {

  /**
   * A blog record. The helpers read only `author` and `likes`; `title` keeps
   * records that agree on those two apart, so that the record a helper
   * returns can be told from another one with the same author and likes.
   */
  datatype Blog = Blog(title: string, author: string, likes: int)

  /** A JavaScript property read: a number, or `undefined` for a missing field. */
  datatype JsValue = Undefined | Number(n: int)

  /**
   * JavaScript `x > y` on the values above: `undefined` converts to NaN, and
   * every comparison with NaN is false.
   */
  predicate Greater(x: JsValue, y: JsValue)
  {
    x.Number? && y.Number? && x.n > y.n
  }

  // ---------------------------------------------------------------------------
  // Reference notions used to state what the helpers compute
  // ---------------------------------------------------------------------------

  /** The authors of the records, in input order (with repetitions). */
  function Authors(s: seq<Blog>): (r: seq<string>)
    ensures |r| == |s|
    ensures forall i :: 0 <= i < |s| ==> r[i] == s[i].author
  {
    seq(|s|, i requires 0 <= i < |s| => s[i].author)
  }

  /** Number of records written by `a`. */
  function Count(a: string, s: seq<Blog>): nat
  {
    if s == [] then 0
    else Count(a, s[..|s| - 1]) + (if s[|s| - 1].author == a then 1 else 0)
  }

  /** Sum of the likes of the records written by `a`. */
  function LikesOf(a: string, s: seq<Blog>): int
  {
    if s == [] then 0
    else LikesOf(a, s[..|s| - 1]) + (if s[|s| - 1].author == a then s[|s| - 1].likes else 0)
  }

  /** Sum of all likes, by recursion from the front (independent of the fold order). */
  function SumLikes(s: seq<Blog>): int
  {
    if s == [] then 0 else s[0].likes + SumLikes(s[1..])
  }

  /** Index of the first record written by `a`. */
  function FirstIndex(a: string, s: seq<Blog>): (k: nat)
    requires a in Authors(s)
    ensures k < |s| && s[k].author == a
    ensures forall j :: 0 <= j < k ==> s[j].author != a
  {
    var p := s[..|s| - 1];
    if a in Authors(p) then FirstIndex(a, p)
    else
      assert forall j :: 0 <= j < |p| ==> s[j].author == Authors(p)[j];
      |s| - 1
  }

  /** Record `k` is the first one by its author: it brings in a new author. */
  predicate FirstSeenAt(s: seq<Blog>, k: int)
    requires 0 <= k < |s|
  {
    s[k].author !in Authors(s[..k])
  }

  // ---------------------------------------------------------------------------
  // dummy
  // ---------------------------------------------------------------------------

  /** `dummy` ignores whatever it is called with and returns 1. */
  function Dummy(blogs: seq<Blog>): (r: int)
    ensures r == 1
  {
    1
  }

  // ---------------------------------------------------------------------------
  // totalLikes
  // ---------------------------------------------------------------------------

  /** `blogs.reduce((sum, item) => sum + item.likes, 0)`. */
  function TotalLikes(blogs: seq<Blog>): int
  {
    if blogs == [] then 0 else TotalLikes(blogs[..|blogs| - 1]) + blogs[|blogs| - 1].likes
  }

  /** Splitting the input splits the total. */
  lemma {:induction false} TotalLikesAppend(a: seq<Blog>, b: seq<Blog>)
    ensures TotalLikes(a + b) == TotalLikes(a) + TotalLikes(b)
    decreases |b|
  {
    if b == [] {
      assert a + b == a;
    } else {
      var b' := b[..|b| - 1];
      assert (a + b)[..|a + b| - 1] == a + b';
      assert (a + b)[|a + b| - 1] == b[|b| - 1];
      TotalLikesAppend(a, b');
    }
  }

  /** The fold computes the plain sum of the likes of the records. */
  lemma {:induction false} TotalLikesIsSum(blogs: seq<Blog>)
    ensures TotalLikes(blogs) == SumLikes(blogs)
    decreases |blogs|
  {
    if blogs != [] {
      TotalLikesIsSum(blogs[1..]);
      TotalLikesAppend([blogs[0]], blogs[1..]);
      assert [blogs[0]] + blogs[1..] == blogs;
      assert [blogs[0]][..0] == [];
    }
  }

  /** With no records the total is 0; appending one record adds its likes. */
  lemma TotalLikesEmptyAndSnoc(blogs: seq<Blog>, b: Blog)
    ensures TotalLikes([]) == 0
    ensures TotalLikes(blogs + [b]) == TotalLikes(blogs) + b.likes
  {
    TotalLikesAppend(blogs, [b]);
    assert [b][..0] == [];
  }

  /** Taking record `i` out of the list takes its likes out of the total. */
  lemma TotalLikesRemove(b: seq<Blog>, i: int)
    requires 0 <= i < |b|
    ensures TotalLikes(b) == TotalLikes(b[..i] + b[i + 1..]) + b[i].likes
  {
    var left, x, right := b[..i], b[i], b[i + 1..];
    assert b == (left + [x]) + right;
    TotalLikesAppend(left + [x], right);
    TotalLikesEmptyAndSnoc(left, x);
    TotalLikesAppend(left, right);
  }

  /** Taking record `i` out of the list takes one copy of it out of the multiset. */
  lemma MultisetRemove(b: seq<Blog>, i: int)
    requires 0 <= i < |b|
    ensures multiset(b[..i] + b[i + 1..]) == multiset(b) - multiset{b[i]}
  {
    assert b == b[..i] + [b[i]] + b[i + 1..];
    assert multiset(b) == multiset(b[..i]) + multiset{b[i]} + multiset(b[i + 1..]);
  }

  /** The total does not depend on the order of the records. */
  lemma {:induction false} TotalLikesPermutation(a: seq<Blog>, b: seq<Blog>)
    requires multiset(a) == multiset(b)
    ensures TotalLikes(a) == TotalLikes(b)
    decreases |a|
  {
    if a == [] {
      assert |b| == |multiset(b)| == 0;
    } else {
      var n := |a| - 1;
      assert a[n] in multiset(b);
      var i :| 0 <= i < |b| && b[i] == a[n];
      MultisetRemove(a, n);
      MultisetRemove(b, i);
      assert a[..n] + a[n + 1..] == a[..n];
      TotalLikesPermutation(a[..n], b[..i] + b[i + 1..]);
      TotalLikesRemove(b, i);
    }
  }

  /** With non-negative likes (as stored records have) the total is non-negative. */
  lemma {:induction false} TotalLikesNonNegative(blogs: seq<Blog>)
    requires forall i :: 0 <= i < |blogs| ==> blogs[i].likes >= 0
    ensures TotalLikes(blogs) >= 0
    decreases |blogs|
  {
    if blogs != [] {
      TotalLikesNonNegative(blogs[..|blogs| - 1]);
    }
  }

  // ---------------------------------------------------------------------------
  // favoriteBlog
  // ---------------------------------------------------------------------------

  /** The callback `(most, blog) => most.likes > blog.likes ? most : blog`. */
  function FavoriteStep(most: Blog, blog: Blog): Blog
  {
    if most.likes > blog.likes then most else blog
  }

  /**
   * `blogs.reduce(FavoriteStep)` with no initial value: the fold starts from
   * the first record, and JavaScript throws on an empty list.
   * The result is an input record with the most likes and, among the records
   * sharing that maximum, the LAST one: every later record has fewer likes.
   */
  function FavoriteBlog(blogs: seq<Blog>): (r: Blog)
    requires |blogs| > 0
    ensures r in blogs
    ensures forall i :: 0 <= i < |blogs| ==> blogs[i].likes <= r.likes
    ensures exists k :: 0 <= k < |blogs| && blogs[k] == r &&
              forall j :: k < j < |blogs| ==> blogs[j].likes < r.likes
  {
    if |blogs| == 1 then blogs[0]
    else
      var most := FavoriteBlog(blogs[..|blogs| - 1]);
      var last := blogs[|blogs| - 1];
      ghost var k :| 0 <= k < |blogs| - 1 && blogs[k] == most &&
        forall j :: k < j < |blogs| - 1 ==> blogs[j].likes < most.likes;
      assert most.likes > last.likes ==> forall j :: k < j < |blogs| ==> blogs[j].likes < most.likes;
      FavoriteStep(most, last)
  }

  /** Record `k` has the most likes, and no later record reaches that count. */
  predicate IsLastMaximum(blogs: seq<Blog>, k: int)
  {
    0 <= k < |blogs| &&
    (forall i :: 0 <= i < |blogs| ==> blogs[i].likes <= blogs[k].likes) &&
    (forall j :: k < j < |blogs| ==> blogs[j].likes < blogs[k].likes)
  }

  /** The tie-break pins the result down: it is the last record with the maximum. */
  lemma FavoriteBlogIsLastMaximum(blogs: seq<Blog>, k: int)
    requires IsLastMaximum(blogs, k)
    ensures FavoriteBlog(blogs) == blogs[k]
  {
    var r := FavoriteBlog(blogs);
    var m :| 0 <= m < |blogs| && blogs[m] == r &&
      forall j :: m < j < |blogs| ==> blogs[j].likes < r.likes;
    assert IsLastMaximum(blogs, m);
  }

  /** Reordering the input may change which record wins, but not its likes. */
  lemma FavoriteBlogLikesPermutation(a: seq<Blog>, b: seq<Blog>)
    requires |a| > 0 && multiset(a) == multiset(b)
    ensures |b| > 0 && FavoriteBlog(a).likes == FavoriteBlog(b).likes
  {
    assert |b| == |multiset(b)| == |multiset(a)| == |a|;
    var ra, rb := FavoriteBlog(a), FavoriteBlog(b);
    assert ra in multiset(b);
    assert rb in multiset(a);
    var i :| 0 <= i < |b| && b[i] == ra;
    var j :| 0 <= j < |a| && a[j] == rb;
  }

  // ---------------------------------------------------------------------------
  // mostBlogs
  // ---------------------------------------------------------------------------

  /**
   * The object that lodash `_.countBy` builds: its own keys in insertion order
   * and the number stored under each.
   */
  datatype CountObject = CountObject(keys: seq<string>, counts: map<string, nat>)

  /** One step of `_.countBy`: increment an existing key, or add it with count 1. */
  function CountKey(o: CountObject, key: string): CountObject
  {
    if key in o.counts then CountObject(o.keys, o.counts[key := o.counts[key] + 1])
    else CountObject(o.keys + [key], o.counts[key := 1])
  }

  /** `_.countBy(blogs, blog => blog.author)`. */
  function CountByAuthor(blogs: seq<Blog>): CountObject
  {
    if blogs == [] then CountObject([], map[])
    else CountKey(CountByAuthor(blogs[..|blogs| - 1]), blogs[|blogs| - 1].author)
  }

  /**
   * The tally has one key per author, in order of first appearance, and the
   * number under each key is that author's record count.
   */
  lemma {:induction false} CountByAuthorSpec(blogs: seq<Blog>)
    ensures forall a :: a in CountByAuthor(blogs).keys <==> a in CountByAuthor(blogs).counts
    ensures forall a :: a in CountByAuthor(blogs).counts <==> a in Authors(blogs)
    ensures forall a :: a in CountByAuthor(blogs).counts ==> CountByAuthor(blogs).counts[a] == Count(a, blogs)
    ensures forall i, j :: 0 <= i < j < |CountByAuthor(blogs).keys| ==>
              FirstIndex(CountByAuthor(blogs).keys[i], blogs) < FirstIndex(CountByAuthor(blogs).keys[j], blogs)
    decreases |blogs|
  {
    if blogs != [] {
      var p := blogs[..|blogs| - 1];
      var x := blogs[|blogs| - 1].author;
      var o := CountByAuthor(p);
      var o' := CountByAuthor(blogs);
      CountByAuthorSpec(p);
      AuthorsSnoc(blogs);
      FirstIndexSnoc(blogs);
      assert o' == CountKey(o, x);
      forall a | a in o'.counts
        ensures o'.counts[a] == Count(a, blogs)
      {
        assert Count(a, blogs) == Count(a, p) + (if x == a then 1 else 0);
        if a != x {
          assert a in o.counts && o'.counts[a] == o.counts[a];
        } else if x !in o.counts {
          CountAbsent(x, p);
        }
      }
      forall i, j | 0 <= i < j < |o'.keys|
        ensures FirstIndex(o'.keys[i], blogs) < FirstIndex(o'.keys[j], blogs)
      {
        assert o'.keys[i] == o.keys[i] && o.keys[i] in Authors(p);
        if j < |o.keys| {
          assert o'.keys[j] == o.keys[j] && o.keys[j] in Authors(p);
        } else {
          assert x !in Authors(p) && o'.keys[j] == x;
        }
      }
    }
  }

  /** An author with no record has count 0. */
  lemma {:induction false} CountAbsent(a: string, s: seq<Blog>)
    requires a !in Authors(s)
    ensures Count(a, s) == 0
    decreases |s|
  {
    if s != [] {
      AuthorsSnoc(s);
      CountAbsent(a, s[..|s| - 1]);
    }
  }

  lemma AuthorsSnoc(s: seq<Blog>)
    requires |s| > 0
    ensures Authors(s) == Authors(s[..|s| - 1]) + [s[|s| - 1].author]
  {
  }

  /** Authors already present keep their first index when a record is appended. */
  lemma FirstIndexSnoc(s: seq<Blog>)
    requires |s| > 0
    ensures forall a :: a in Authors(s[..|s| - 1]) ==> FirstIndex(a, s) == FirstIndex(a, s[..|s| - 1])
    ensures s[|s| - 1].author !in Authors(s[..|s| - 1]) ==> FirstIndex(s[|s| - 1].author, s) == |s| - 1
  {
  }

  /** A record brings in a new author exactly when it is that author's first. */
  lemma FirstSeenAtIsFirstIndex(s: seq<Blog>, k: int)
    requires 0 <= k < |s|
    ensures FirstSeenAt(s, k) <==> FirstIndex(s[k].author, s) == k
  {
    var a := s[k].author;
    var f := FirstIndex(a, s);
    if FirstSeenAt(s, k) {
      assert forall i :: 0 <= i < k ==> Authors(s[..k])[i] == s[i].author;
    } else {
      var i :| 0 <= i < k && Authors(s[..k])[i] == a;
      assert s[i].author == a;
    }
  }

  /** `{ author, blogs: blogMap[author] }`, and the fold's initial value `{}`. */
  datatype Summary = EmptyObject | AuthorBlogs(author: string, blogs: nat)

  /** `o.count`: neither object shape has a `count` field. */
  function CountField(o: Summary): JsValue
  {
    Undefined
  }

  /** `o.blogs`: present on the built objects, absent on `{}`. */
  function BlogsField(o: Summary): JsValue
  {
    match o
    case EmptyObject => Undefined
    case AuthorBlogs(_, n) => Number(n)
  }

  /** `_.keys(blogMap).map(author => ({ author, blogs: blogMap[author] }))`. */
  function Entries(o: CountObject): (es: seq<Summary>)
    requires forall a :: a in o.keys ==> a in o.counts
    ensures |es| == |o.keys|
  {
    seq(|o.keys|, i requires 0 <= i < |o.keys| => AuthorBlogs(o.keys[i], o.counts[o.keys[i]]))
  }

  /**
   * `es.reduce((pv, cv) => field(pv) > field(cv) ? pv : cv, init)`, where
   * `field` is the property the callback reads.
   */
  function Reduce(field: Summary -> JsValue, init: Summary, es: seq<Summary>): Summary
  {
    if es == [] then init
    else
      var pv := Reduce(field, init, es[..|es| - 1]);
      var cv := es[|es| - 1];
      if Greater(field(pv), field(cv)) then pv else cv
  }

  /** mostBlogs as written: the callback compares the absent `count` field. */
  function MostBlogs(blogs: seq<Blog>): Summary
  {
    var blogMap := CountByAuthor(blogs);
    CountByAuthorSpec(blogs);
    Reduce(CountField, EmptyObject, Entries(blogMap))
  }

  /** Comparing `undefined` is never true, so the fold always takes the current element. */
  lemma ReduceCountFieldIsLast(init: Summary, es: seq<Summary>)
    ensures Reduce(CountField, init, es) == if es == [] then init else es[|es| - 1]
  {
  }

  /**
   * mostBlogs returns `{}` on an empty list; otherwise it returns the LAST
   * author to appear for the first time, whatever the counts, together with
   * the number of records by that author.
   */
  lemma MostBlogsIsLastNewAuthor(blogs: seq<Blog>)
    ensures blogs == [] <==> MostBlogs(blogs) == EmptyObject
    ensures MostBlogs(blogs).AuthorBlogs? ==>
              var a := MostBlogs(blogs).author;
              a in Authors(blogs) &&
              MostBlogs(blogs).blogs == Count(a, blogs) &&
              exists k :: 0 <= k < |blogs| && blogs[k].author == a && FirstSeenAt(blogs, k) &&
                forall j :: k < j < |blogs| ==> !FirstSeenAt(blogs, j)
  {
    var o := CountByAuthor(blogs);
    CountByAuthorSpec(blogs);
    var es := Entries(o);
    ReduceCountFieldIsLast(EmptyObject, es);
    if blogs == [] {
    } else {
      assert blogs[0].author in Authors(blogs);
      var n := |o.keys| - 1;
      var a := o.keys[n];
      assert MostBlogs(blogs) == AuthorBlogs(a, o.counts[a]);
      var k := FirstIndex(a, blogs);
      FirstSeenAtIsFirstIndex(blogs, k);
      forall j | k < j < |blogs|
        ensures !FirstSeenAt(blogs, j)
      {
        FirstSeenAtIsFirstIndex(blogs, j);
        var b := blogs[j].author;
        assert b in Authors(blogs);
        var i :| 0 <= i < |o.keys| && o.keys[i] == b;
        if i < n {
          assert FirstIndex(b, blogs) < k;
        }
      }
    }
  }

  /** mostBlogs as evidently intended: the callback compares the `blogs` field. */
  function MostBlogsFixed(blogs: seq<Blog>): Summary
  {
    var blogMap := CountByAuthor(blogs);
    CountByAuthorSpec(blogs);
    Reduce(BlogsField, EmptyObject, Entries(blogMap))
  }

  /**
   * Folding with the `blogs` comparison from `{}` yields an element with the
   * largest count, and every later element has a smaller count.
   */
  lemma {:induction false} ReduceBlogsFieldIsMaximum(es: seq<Summary>)
    requires forall i :: 0 <= i < |es| ==> es[i].AuthorBlogs?
    ensures es == [] ==> Reduce(BlogsField, EmptyObject, es) == EmptyObject
    ensures es != [] ==>
              var r := Reduce(BlogsField, EmptyObject, es);
              (forall i :: 0 <= i < |es| ==> es[i].blogs <= r.blogs) &&
              exists k :: 0 <= k < |es| && es[k] == r &&
                forall j :: k < j < |es| ==> es[j].blogs < r.blogs
    decreases |es|
  {
    if es != [] {
      var p := es[..|es| - 1];
      ReduceBlogsFieldIsMaximum(p);
      var r := Reduce(BlogsField, EmptyObject, es);
      var cv := es[|es| - 1];
      if p != [] {
        var pv := Reduce(BlogsField, EmptyObject, p);
        if pv.blogs > cv.blogs {
          var k :| 0 <= k < |p| && p[k] == pv && forall j :: k < j < |p| ==> p[j].blogs < pv.blogs;
          assert forall j :: k < j < |es| ==> es[j].blogs < r.blogs;
        } else {
          assert r == cv;
        }
      }
    }
  }

  /**
   * The corrected mostBlogs returns `{}` on an empty list; otherwise an
   * author with the most records and that author's count. On a tie the
   * author who appeared for the first time later wins.
   */
  lemma MostBlogsFixedIsMostFrequent(blogs: seq<Blog>)
    ensures blogs == [] <==> MostBlogsFixed(blogs) == EmptyObject
    ensures MostBlogsFixed(blogs).AuthorBlogs? ==>
              var a := MostBlogsFixed(blogs).author;
              var n := MostBlogsFixed(blogs).blogs;
              a in Authors(blogs) && n == Count(a, blogs) &&
              (forall i :: 0 <= i < |blogs| ==> Count(blogs[i].author, blogs) <= n) &&
              (forall j :: 0 <= j < |blogs| && FirstIndex(a, blogs) < j && FirstSeenAt(blogs, j) ==>
                 Count(blogs[j].author, blogs) < n)
  {
    if blogs == [] {
      assert CountByAuthor(blogs).keys == [];
    } else {
      var o := CountByAuthor(blogs);
      CountByAuthorSpec(blogs);
      var k := MostBlogsFixedPick(blogs);
      var a := o.keys[k];
      var n := Count(a, blogs);
      forall i | 0 <= i < |blogs|
        ensures Count(blogs[i].author, blogs) <= n
      {
        var m := KeyIndex(blogs, blogs[i].author);
      }
      forall j | 0 <= j < |blogs| && FirstIndex(a, blogs) < j && FirstSeenAt(blogs, j)
        ensures Count(blogs[j].author, blogs) < n
      {
        FirstSeenAtIsFirstIndex(blogs, j);
        var m := KeyIndex(blogs, blogs[j].author);
        KeysOrderedByFirstIndex(blogs, k, m);
      }
    }
  }

  /** Every author of the input has a position among the tally's keys. */
  lemma KeyIndex(blogs: seq<Blog>, b: string) returns (m: int)
    requires b in Authors(blogs)
    ensures 0 <= m < |CountByAuthor(blogs).keys| && CountByAuthor(blogs).keys[m] == b
  {
    CountByAuthorSpec(blogs);
    m :| 0 <= m < |CountByAuthor(blogs).keys| && CountByAuthor(blogs).keys[m] == b;
  }

  /** Key positions follow first appearances. */
  lemma KeysOrderedByFirstIndex(blogs: seq<Blog>, i: int, j: int)
    requires 0 <= i < |CountByAuthor(blogs).keys| && 0 <= j < |CountByAuthor(blogs).keys|
    requires CountByAuthor(blogs).keys[i] in Authors(blogs) && CountByAuthor(blogs).keys[j] in Authors(blogs)
    requires FirstIndex(CountByAuthor(blogs).keys[i], blogs) < FirstIndex(CountByAuthor(blogs).keys[j], blogs)
    ensures i < j
  {
    CountByAuthorSpec(blogs);
  }

  /**
   * On non-empty input the corrected fold picks the key at some position
   * `k`: its count is the largest, and every later key's count is smaller.
   */
  lemma MostBlogsFixedPick(blogs: seq<Blog>) returns (k: int)
    requires blogs != []
    ensures 0 <= k < |CountByAuthor(blogs).keys|
    ensures var o := CountByAuthor(blogs);
            MostBlogsFixed(blogs) == AuthorBlogs(o.keys[k], Count(o.keys[k], blogs)) &&
            (forall m :: 0 <= m < |o.keys| ==> Count(o.keys[m], blogs) <= Count(o.keys[k], blogs)) &&
            (forall m :: k < m < |o.keys| ==> Count(o.keys[m], blogs) < Count(o.keys[k], blogs))
  {
    var o := CountByAuthor(blogs);
    CountByAuthorSpec(blogs);
    var es := Entries(o);
    ReduceBlogsFieldIsMaximum(es);
    assert blogs[0].author in Authors(blogs);
    assert es != [];
    var r := MostBlogsFixed(blogs);
    k :| 0 <= k < |es| && es[k] == r && forall j :: k < j < |es| ==> es[j].blogs < r.blogs;
    assert forall m :: 0 <= m < |o.keys| ==> es[m].blogs == Count(o.keys[m], blogs);
  }

  // ---------------------------------------------------------------------------
  // mostLikes
  // ---------------------------------------------------------------------------

  /**
   * lodash `_.maxBy(blogs, blog => blog.likes)` on a non-empty list: the first
   * record is taken, then replaced only by a record with strictly more likes,
   * so the FIRST record with the most likes is returned.
   */
  function MaxByLikes(blogs: seq<Blog>): (r: Blog)
    requires |blogs| > 0
    ensures forall i :: 0 <= i < |blogs| ==> blogs[i].likes <= r.likes
    ensures exists k :: 0 <= k < |blogs| && blogs[k] == r &&
              forall j :: 0 <= j < k ==> blogs[j].likes < r.likes
  {
    if |blogs| == 1 then blogs[0]
    else
      var best := MaxByLikes(blogs[..|blogs| - 1]);
      var last := blogs[|blogs| - 1];
      if last.likes > best.likes then
        assert forall j :: 0 <= j < |blogs| - 1 ==> blogs[j].likes < last.likes;
        last
      else
        ghost var k :| 0 <= k < |blogs| - 1 && blogs[k] == best &&
          forall j :: 0 <= j < k ==> blogs[j].likes < best.likes;
        best
  }

  /** The object `{ author: blog.author, likes: blog.likes }`. */
  datatype AuthorLikes = AuthorLikes(author: string, likes: int)

  /**
   * mostLikes: the author and likes of ONE record with the most likes (the
   * first such record); likes are not summed per author.
   */
  function MostLikes(blogs: seq<Blog>): (r: AuthorLikes)
    requires |blogs| > 0
    ensures forall i :: 0 <= i < |blogs| ==> blogs[i].likes <= r.likes
    ensures exists k :: 0 <= k < |blogs| && blogs[k].author == r.author && blogs[k].likes == r.likes &&
              forall j :: 0 <= j < k ==> blogs[j].likes < r.likes
  {
    var blog := MaxByLikes(blogs);
    AuthorLikes(blog.author, blog.likes)
  }

  /** The tie-break pins the result down: it is the first record with the maximum. */
  lemma MostLikesIsFirstMaximum(blogs: seq<Blog>, k: int)
    requires 0 <= k < |blogs|
    requires forall i :: 0 <= i < |blogs| ==> blogs[i].likes <= blogs[k].likes
    requires forall j :: 0 <= j < k ==> blogs[j].likes < blogs[k].likes
    ensures MostLikes(blogs) == AuthorLikes(blogs[k].author, blogs[k].likes)
  {
    var r := MostLikes(blogs);
    var m :| 0 <= m < |blogs| && blogs[m].author == r.author && blogs[m].likes == r.likes &&
      forall j :: 0 <= j < m ==> blogs[j].likes < r.likes;
    assert blogs[k].likes == r.likes;
  }

  /** The reported likes do not depend on the order of the records. */
  lemma MostLikesLikesPermutation(a: seq<Blog>, b: seq<Blog>)
    requires |a| > 0 && multiset(a) == multiset(b)
    ensures |b| > 0 && MostLikes(a).likes == MostLikes(b).likes
  {
    assert |b| == |multiset(b)| == |multiset(a)| == |a|;
    var ra, rb := MostLikes(a), MostLikes(b);
    var ka :| 0 <= ka < |a| && a[ka].author == ra.author && a[ka].likes == ra.likes &&
      forall j :: 0 <= j < ka ==> a[j].likes < ra.likes;
    var kb :| 0 <= kb < |b| && b[kb].author == rb.author && b[kb].likes == rb.likes &&
      forall j :: 0 <= j < kb ==> b[j].likes < rb.likes;
    assert a[ka] in multiset(b);
    assert b[kb] in multiset(a);
    var i :| 0 <= i < |b| && b[i] == a[ka];
    var j :| 0 <= j < |a| && a[j] == b[kb];
  }

  /** A single record's likes never exceed the sum over all records by that author. */
  lemma {:induction false} RecordLikesAtMostAuthorTotal(blogs: seq<Blog>, k: int)
    requires forall i :: 0 <= i < |blogs| ==> blogs[i].likes >= 0
    requires 0 <= k < |blogs|
    ensures blogs[k].likes <= LikesOf(blogs[k].author, blogs)
    decreases |blogs|
  {
    var p := blogs[..|blogs| - 1];
    if k < |blogs| - 1 {
      RecordLikesAtMostAuthorTotal(p, k);
    } else {
      LikesOfNonNegative(blogs[k].author, p);
    }
  }

  lemma {:induction false} LikesOfNonNegative(a: string, blogs: seq<Blog>)
    requires forall i :: 0 <= i < |blogs| ==> blogs[i].likes >= 0
    ensures LikesOf(a, blogs) >= 0
    decreases |blogs|
  {
    if blogs != [] {
      LikesOfNonNegative(a, blogs[..|blogs| - 1]);
    }
  }

  /**
   * With non-negative likes, mostLikes reports at most the author's total:
   * one record's count, not a per-author sum.
   */
  lemma MostLikesAtMostAuthorTotal(blogs: seq<Blog>)
    requires |blogs| > 0
    requires forall i :: 0 <= i < |blogs| ==> blogs[i].likes >= 0
    ensures MostLikes(blogs).likes <= LikesOf(MostLikes(blogs).author, blogs)
  {
    var r := MostLikes(blogs);
    var k :| 0 <= k < |blogs| && blogs[k].author == r.author && blogs[k].likes == r.likes &&
      forall j :: 0 <= j < k ==> blogs[j].likes < r.likes;
    RecordLikesAtMostAuthorTotal(blogs, k);
  }
}
