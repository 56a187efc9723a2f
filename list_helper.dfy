/**
  The statistics helpers of utils/list_helper.js: `dummy`, `totalLikes` and
  `favoriteBlog`, as pure functions over a sequence of blogs. Both folds are
  written the way `Array.prototype.reduce` evaluates them: left to right, the
  first with the seed 0, the second with no seed (the first element is the
  initial accumulator).
*/
module ListHelper {

  /** A blog as the helpers see it: a plain record whose `likes` is a number. */
  datatype Blog = Blog(title: string, author: string, url: string, likes: int)

  /** `dummy` answers 1 whatever list it is given, the empty one included. */
  function Dummy(blogs: seq<Blog>): (r: int)
    ensures r == 1
  {
    if |blogs| >= 0 then 1 else 1
  }

  // ---------------------------------------------------------------------------
  // totalLikes

  /** Reference definition: the sum of the `likes` of every blog. */
  function Sum(blogs: seq<Blog>): int
    decreases |blogs|
  {
    if blogs == [] then 0 else blogs[0].likes + Sum(blogs[1..])
  }

  /**
    `reduce` of the `totalLikes` reducer `(sum, blog) => sum + blog.likes`
    starting from accumulator `acc`: it adds the sum of the likes to `acc`.
  */
  function SumFrom(acc: int, blogs: seq<Blog>): (r: int)
    ensures r == acc + Sum(blogs)
    decreases |blogs|
  {
    if blogs == [] then acc else SumFrom(acc + blogs[0].likes, blogs[1..])
  }

  /** `totalLikes`: the reduction seeded with 0, so the sum of all likes; 0 for the empty list. */
  function TotalLikes(blogs: seq<Blog>): (r: int)
    ensures r == Sum(blogs)
    ensures blogs == [] ==> r == 0
  {
    SumFrom(0, blogs)
  }

  lemma {:induction false} SumAppend(a: seq<Blog>, b: seq<Blog>)
    ensures Sum(a + b) == Sum(a) + Sum(b)
    decreases |a|
  {
    if a == [] {
      assert a + b == b;
    } else {
      assert (a + b)[1..] == a[1..] + b;
      SumAppend(a[1..], b);
    }
  }

  /** `totalLikes` distributes over concatenation. */
  lemma TotalLikesAppend(a: seq<Blog>, b: seq<Blog>)
    ensures TotalLikes(a + b) == TotalLikes(a) + TotalLikes(b)
  {
    SumAppend(a, b);
  }

  /** Appending one blog at the right end adds its likes: the fold's last step. */
  lemma TotalLikesSnoc(blogs: seq<Blog>, b: Blog)
    ensures TotalLikes(blogs + [b]) == TotalLikes(blogs) + b.likes
  {
    TotalLikesAppend(blogs, [b]);
    assert [b][1..] == [];
    assert TotalLikes([b]) == SumFrom(b.likes, []);
  }

  // ---------------------------------------------------------------------------
  // favoriteBlog

  /**
    One step of the `favoriteBlog` reducer,
    `(prev, current) => (prev.likes > current.likes) ? prev : current`:
    the comparison is strict, so on equal likes `current` is kept.
  */
  function Keep(prev: Blog, current: Blog): (r: Blog)
    ensures r == prev || r == current
    ensures r.likes >= prev.likes && r.likes >= current.likes
    ensures prev.likes == current.likes ==> r == current
  {
    if prev.likes > current.likes then prev else current
  }

  /**
    `reduce` of the `favoriteBlog` reducer with accumulator `prev`: one of
    `prev` and the blogs of `rest`, with at least the likes of each of them.
  */
  function FavoriteFrom(prev: Blog, rest: seq<Blog>): (r: Blog)
    ensures r == prev || r in rest
    ensures r.likes >= prev.likes
    ensures forall b :: b in rest ==> b.likes <= r.likes
    decreases |rest|
  {
    if rest == [] then prev else FavoriteFrom(Keep(prev, rest[0]), rest[1..])
  }

  /**
    `favoriteBlog`: `reduce` without a seed, so the first blog is the initial
    accumulator. On an empty list `reduce` throws, hence the precondition.
    The answer is a blog of the list, and no blog of the list has more likes.
  */
  function FavoriteBlog(blogs: seq<Blog>): (r: Blog)
    requires |blogs| > 0
    ensures r in blogs
    ensures forall b :: b in blogs ==> b.likes <= r.likes
  {
    assert blogs == [blogs[0]] + blogs[1..];
    FavoriteFrom(blogs[0], blogs[1..])
  }

  /**
    Reference definition of the winner: position `k` holds a maximum of the
    likes, and every later position holds strictly fewer likes, so `k` is the
    LAST position with the maximal likes.
  */
  predicate IsLastMaximum(blogs: seq<Blog>, k: int)
  {
    && 0 <= k < |blogs|
    && (forall j :: 0 <= j < |blogs| ==> blogs[j].likes <= blogs[k].likes)
    && (forall j :: k < j < |blogs| ==> blogs[j].likes < blogs[k].likes)
  }

  /** At most one position is the last maximum. */
  lemma LastMaximumIsUnique(blogs: seq<Blog>, k1: int, k2: int)
    requires IsLastMaximum(blogs, k1) && IsLastMaximum(blogs, k2)
    ensures k1 == k2
  {
    var at1, at2 := blogs[k1], blogs[k2];
  }

  /** The reduction from `prev` over `rest` is the last maximum of `[prev] + rest`. */
  lemma {:induction false} FavoriteFromIsLastMaximum(prev: Blog, rest: seq<Blog>) returns (k: nat)
    ensures IsLastMaximum([prev] + rest, k)
    ensures FavoriteFrom(prev, rest) == ([prev] + rest)[k]
    decreases |rest|
  {
    var s := [prev] + rest;
    if rest == [] {
      k := 0;
    } else {
      var b := Keep(prev, rest[0]);
      var s' := [b] + rest[1..];
      var k' := FavoriteFromIsLastMaximum(b, rest[1..]);
      assert s[0] == prev && s[1] == rest[0] && s'[0] == b;
      assert forall j :: 2 <= j < |s| ==> s[j] == s'[j - 1];
      if k' > 0 {
        k := k' + 1;
        assert s[k] == s'[k'];
      } else if prev.likes > rest[0].likes {
        k := 0;
      } else {
        k := 1;
      }
    }
  }

  /**
    `favoriteBlog` returns the blog at the last position whose likes are
    maximal: a member of the list, with at least the likes of every blog in it,
    and with strictly more likes than every blog after it.
  */
  lemma FavoriteBlogIsLastMaximum(blogs: seq<Blog>) returns (k: nat)
    requires |blogs| > 0
    ensures IsLastMaximum(blogs, k)
    ensures FavoriteBlog(blogs) == blogs[k]
  {
    assert [blogs[0]] + blogs[1..] == blogs;
    k := FavoriteFromIsLastMaximum(blogs[0], blogs[1..]);
  }

  /** A list of one blog answers that blog. */
  lemma FavoriteBlogSingleton(b: Blog)
    ensures FavoriteBlog([b]) == b
  {
  }

  /**
    Ties go to the later blog: if the blog at position `i` has maximal likes
    and is followed by an equally liked blog at `j`, then whatever is returned
    sits at a position at or after `j`.
  */
  lemma FavoriteBlogTieGoesLater(blogs: seq<Blog>, i: int, j: int) returns (k: nat)
    requires 0 <= i < j < |blogs|
    requires forall m :: 0 <= m < |blogs| ==> blogs[m].likes <= blogs[i].likes
    requires blogs[j].likes == blogs[i].likes
    ensures j <= k < |blogs| && FavoriteBlog(blogs) == blogs[k]
    ensures blogs[k].likes == blogs[i].likes
  {
    k := FavoriteBlogIsLastMaximum(blogs);
  }

  // ---------------------------------------------------------------------------
  // Concrete cases

  /** The two-blog fixture of tests/test_helper.js totals 30 likes and favours the second. */
  lemma InitialBlogsFixture()
    ensures TotalLikes(InitialBlogs()) == 30
    ensures FavoriteBlog(InitialBlogs()) == InitialBlogs()[1]
  {
  }

  function InitialBlogs(): seq<Blog>
  {
    [ Blog("First Blog", "Author One", "http://example.com/first", 10),
      Blog("Second Blog", "Author Two", "http://example.com/second", 20) ]
  }

  /** Of two equally liked blogs the second one is returned, in either order. */
  lemma TieKeepsLast(a: Blog, b: Blog)
    requires a.likes == b.likes
    ensures FavoriteBlog([a, b]) == b && FavoriteBlog([b, a]) == a
  {
    assert [a, b][1..] == [b] && [b, a][1..] == [a];
    assert FavoriteFrom(Keep(a, b), []) == b;
    assert FavoriteFrom(Keep(b, a), []) == a;
  }
}
