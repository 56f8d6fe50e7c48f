/**
  `mostBlogs` (utils/mostBlogs.js): count the posts per author and take the
  entry that `maxBy` picks with the iteratee `x => x.author`. The
  comparison is therefore between author NAMES (JavaScript string `>`),
  not between counts: the result is the alphabetically last author, with
  that author's count.
*/
module MostBlogsUtil {
  import opened Wrappers
  import opened Posts
  import opened Lodash
  import opened StringOrder

  /** The `{author, blogs}` record the utility builds and returns. */
  datatype AuthorBlogs = AuthorBlogs(author: string, blogs: nat)

  /** `_.map(counts, (value, key) => ({author: key, blogs: value}))`. */
  function BlogsPerAuthor(cs: seq<Tally>): (es: seq<AuthorBlogs>)
    ensures |es| == |cs|
  {
    seq(|cs|, j requires 0 <= j < |cs| => AuthorBlogs(cs[j].key, cs[j].value))
  }

  /** The iteratee `x => x.author` compared with JavaScript's string `>`. */
  predicate LaterName(a: AuthorBlogs, b: AuthorBlogs)
  {
    Less(b.author, a.author)
  }

  /** `mostBlogs` as written; `None` stands for `undefined` on no entries. */
  function MostBlogs(s: seq<Post>): Option<AuthorBlogs>
  {
    MaxBy(BlogsPerAuthor(CountByAuthor(s)), LaterName)
  }

  /** How many posts `a` wrote. */
  function BlogCount(s: seq<Post>, a: string): nat
  {
    |PostsBy(s, a)|
  }

  lemma LaterNameIsStrictWeakOrder()
    ensures StrictWeakOrder(LaterName)
  {
    forall a: AuthorBlogs, b: AuthorBlogs, c: AuthorBlogs | LaterName(a, b) && LaterName(b, c)
      ensures LaterName(a, c)
    {
      LessTransitive(c.author, b.author, a.author);
    }
    forall a: AuthorBlogs, b: AuthorBlogs, c: AuthorBlogs | LaterName(a, c)
      ensures LaterName(a, b) || LaterName(b, c)
    {
      if !LaterName(b, c) && b.author != c.author {
        LessTotal(b.author, c.author);
        LessTransitive(b.author, c.author, a.author);
      }
    }
  }

  /** The entries of `mostBlogs` are the `groupBy` keys with the lengths of their arrays. */
  lemma EntriesAreGroupSizes(s: seq<Post>)
    ensures |BlogsPerAuthor(CountByAuthor(s))| == |GroupByAuthor(s)|
    ensures forall j :: 0 <= j < |GroupByAuthor(s)| ==>
              BlogsPerAuthor(CountByAuthor(s))[j] == AuthorBlogs(GroupByAuthor(s)[j].key, |GroupByAuthor(s)[j].value|)
  {
    CountByAuthorIsGroupSizes(s);
  }

  /** There is an entry exactly when there is a post. */
  lemma {:induction false} MostBlogsNone(s: seq<Post>)
    ensures MostBlogs(s).None? <==> s == []
  {
    GroupByAuthorCorrect(s);
    EntriesAreGroupSizes(s);
    if s != [] {
      assert Find(Keys(GroupByAuthor(s)), s[0].author) < |GroupByAuthor(s)|;
    }
  }

  /** The keys of `groupBy` are pairwise different. */
  lemma GroupKeysDistinct(s: seq<Post>)
    ensures DistinctKeys(GroupByAuthor(s))
  {
    GroupByAuthorCorrect(s);
  }

  /** The group whose entry `maxBy` picks: its key is later than every other key. */
  lemma MostBlogsPick(s: seq<Post>) returns (k: nat)
    requires s != []
    ensures k < |GroupByAuthor(s)|
    ensures MostBlogs(s) == Some(AuthorBlogs(GroupByAuthor(s)[k].key, |GroupByAuthor(s)[k].value|))
    ensures forall j :: 0 <= j < |GroupByAuthor(s)| && j != k ==>
              Less(GroupByAuthor(s)[j].key, GroupByAuthor(s)[k].key)
  {
    var gs := GroupByAuthor(s);
    var es := BlogsPerAuthor(CountByAuthor(s));
    EntriesAreGroupSizes(s);
    MostBlogsNone(s);
    LaterNameIsStrictWeakOrder();
    MaxByFirstMaximum(es, LaterName);
    k :| && 0 <= k < |es| && MaxBy(es, LaterName) == Some(es[k])
         && (forall j :: 0 <= j < k ==> LaterName(es[k], es[j]))
         && (forall j :: k < j < |es| ==> !LaterName(es[j], es[k]));
    GroupKeysDistinct(s);
    forall j | 0 <= j < |gs| && j != k
      ensures Less(gs[j].key, gs[k].key)
    {
      if j < k {
        assert LaterName(es[k], es[j]);
      } else {
        assert !LaterName(es[j], es[k]);
        assert gs[j].key != gs[k].key;
        LessTotal(gs[j].key, gs[k].key);
      }
    }
  }

  /**
    For a non-empty input the result names an author of the input with
    that author's post count (so at least 1), and every author of the input
    is that author or sorts before it: selection is by name.
  */
  lemma {:induction false} MostBlogsCorrect(s: seq<Post>)
    requires s != []
    ensures MostBlogs(s).Some?
    ensures var r := MostBlogs(s).value;
            && HasAuthor(s, r.author)
            && r.blogs == BlogCount(s, r.author)
            && r.blogs >= 1
            && (forall i :: 0 <= i < |s| ==> s[i].author == r.author || Less(s[i].author, r.author))
  {
    var gs := GroupByAuthor(s);
    GroupByAuthorCorrect(s);
    var k := MostBlogsPick(s);
    assert HasAuthor(s, gs[k].key) && gs[k].value == PostsBy(s, gs[k].key);
    PostsByNonEmpty(s, gs[k].key);
    forall i | 0 <= i < |s|
      ensures s[i].author == gs[k].key || Less(s[i].author, gs[k].key)
    {
      var j := Find(Keys(gs), s[i].author);
      assert gs[j].key == s[i].author;
    }
  }

  /** Reordering the posts does not change the result. */
  lemma {:induction false} MostBlogsPermutation(s: seq<Post>, t: seq<Post>)
    requires multiset(s) == multiset(t)
    ensures MostBlogs(s) == MostBlogs(t)
  {
    MostBlogsNone(s);
    MostBlogsNone(t);
    if s != [] {
      assert t != [] by { assert |t| == |multiset(t)| == |multiset(s)| == |s|; }
      MostBlogsCorrect(s);
      MostBlogsCorrect(t);
      var rs, rt := MostBlogs(s).value, MostBlogs(t).value;
      HasAuthorPermutation(s, t, rs.author);
      HasAuthorPermutation(t, s, rt.author);
      var i :| 0 <= i < |t| && t[i].author == rs.author;
      var i' :| 0 <= i' < |s| && s[i'].author == rt.author;
      if rs.author != rt.author {
        LessAsymmetric(rs.author, rt.author);
      }
      PostsByPermutation(s, t, rs.author);
    }
  }

  /** Two posts by "A" and one by "B". */
  function TwoByAOneByB(): seq<Post>
  {
    [Post("", "A", "", 0), Post("", "A", "", 0), Post("", "B", "", 0)]
  }

  lemma TwoByAOneByBCounts()
    ensures BlogCount(TwoByAOneByB(), "A") == 2 && BlogCount(TwoByAOneByB(), "B") == 1
    ensures forall i :: 0 <= i < |TwoByAOneByB()| ==> TwoByAOneByB()[i].author in {"A", "B"}
  {
    var s := TwoByAOneByB();
    assert s[..2] == [s[0], s[1]] && [s[0], s[1]][..1] == [s[0]] && [s[0]][..0] == [];
    assert PostsBy([s[0]], "A") == [s[0]];
    assert PostsBy([s[0], s[1]], "A") == [s[0], s[1]];
    assert PostsBy([s[0]], "B") == [];
    assert PostsBy([s[0], s[1]], "B") == [];
  }

  /**
    The returned count need not be the largest: with two posts by "A" and
    one by "B" the result is `{author: "B", blogs: 1}`.
  */
  lemma MostBlogsNotTheLargestCount()
    ensures MostBlogs(TwoByAOneByB()) == Some(AuthorBlogs("B", 1))
    ensures BlogCount(TwoByAOneByB(), "A") == 2
  {
    var s := TwoByAOneByB();
    MostBlogsCorrect(s);
    TwoByAOneByBCounts();
    var r := MostBlogs(s).value;
    var i :| 0 <= i < |s| && s[i].author == r.author;
    assert !Less("B", "A");
    assert s[2].author == "B";
  }

  /** The evidently intended iteratee `x => x.blogs` compared with `>`. */
  predicate MoreBlogs(a: AuthorBlogs, b: AuthorBlogs)
  {
    a.blogs > b.blogs
  }

  /** `mostBlogs` with the count as the iteratee. */
  function MostBlogsByCount(s: seq<Post>): Option<AuthorBlogs>
  {
    MaxBy(BlogsPerAuthor(CountByAuthor(s)), MoreBlogs)
  }

  lemma CountPick(s: seq<Post>) returns (k: nat)
    requires s != []
    ensures k < |GroupByAuthor(s)|
    ensures MostBlogsByCount(s) == Some(AuthorBlogs(GroupByAuthor(s)[k].key, |GroupByAuthor(s)[k].value|))
    ensures forall j :: 0 <= j < k ==> |GroupByAuthor(s)[j].value| < |GroupByAuthor(s)[k].value|
    ensures forall j :: k < j < |GroupByAuthor(s)| ==> |GroupByAuthor(s)[j].value| <= |GroupByAuthor(s)[k].value|
  {
    var es := BlogsPerAuthor(CountByAuthor(s));
    EntriesAreGroupSizes(s);
    MostBlogsNone(s);
    MaxByFirstMaximum(es, MoreBlogs);
    k :| && 0 <= k < |es| && MaxBy(es, MoreBlogs) == Some(es[k])
         && (forall j :: 0 <= j < k ==> MoreBlogs(es[k], es[j]))
         && (forall j :: k < j < |es| ==> !MoreBlogs(es[j], es[k]));
    forall j | 0 <= j < k
      ensures |GroupByAuthor(s)[j].value| < |GroupByAuthor(s)[k].value|
    {
      assert MoreBlogs(es[k], es[j]);
    }
    forall j | k < j < |es|
      ensures |GroupByAuthor(s)[j].value| <= |GroupByAuthor(s)[k].value|
    {
      assert !MoreBlogs(es[j], es[k]);
    }
  }

  /**
    The corrected utility returns an author of the input with the largest
    post count, the author seen first among those tied.
  */
  lemma {:induction false} MostBlogsByCountCorrect(s: seq<Post>)
    requires s != []
    ensures MostBlogsByCount(s).Some?
    ensures var r := MostBlogsByCount(s).value;
            && HasAuthor(s, r.author)
            && r.blogs == BlogCount(s, r.author)
            && (forall i :: 0 <= i < |s| ==> BlogCount(s, s[i].author) <= r.blogs)
            && (forall i :: 0 <= i < FirstIndex(s, r.author) ==> BlogCount(s, s[i].author) < r.blogs)
  {
    var gs := GroupByAuthor(s);
    GroupByAuthorCorrect(s);
    var k := CountPick(s);
    assert HasAuthor(s, gs[k].key) && gs[k].value == PostsBy(s, gs[k].key);
    forall i | 0 <= i < |s|
      ensures BlogCount(s, s[i].author) <= BlogCount(s, gs[k].key)
      ensures i < FirstIndex(s, gs[k].key) ==> BlogCount(s, s[i].author) < BlogCount(s, gs[k].key)
    {
      var j := Find(Keys(gs), s[i].author);
      assert gs[j].key == s[i].author;
      if i < FirstIndex(s, gs[k].key) {
        assert FirstIndex(s, gs[j].key) <= i;
        assert FirstIndex(s, gs[j].key) < FirstIndex(s, gs[k].key);
      }
    }
  }

  /** On the same input the corrected utility returns "A" with 2. */
  lemma MostBlogsByCountOnExample()
    ensures MostBlogsByCount(TwoByAOneByB()) == Some(AuthorBlogs("A", 2))
  {
    var s := TwoByAOneByB();
    MostBlogsByCountCorrect(s);
    TwoByAOneByBCounts();
    var r := MostBlogsByCount(s).value;
    assert BlogCount(s, s[0].author) <= r.blogs;
    var i :| 0 <= i < |s| && s[i].author == r.author;
  }
}
