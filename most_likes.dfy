/**
  `mostLikes` (utils/mostLikes.js): group the posts by author, sum each
  author's likes, and take the entry with the largest sum.
*/
module MostLikesUtil {
  import opened Wrappers
  import opened Posts
  import opened Lodash
  import opened TotalLikesUtil

  /** The `{author, likes}` record the utility builds and returns. */
  datatype AuthorLikes = AuthorLikes(author: string, likes: int)

  /**
    `_.map(groups, (value, key) => ({author: key, likes: _.sumBy(value, 'likes')}))`;
    `_.sumBy` adds the likes of a group left to right, which is `SumLikes`.
  */
  function LikesPerAuthor(gs: seq<Group>): (es: seq<AuthorLikes>)
    ensures |es| == |gs|
  {
    seq(|gs|, j requires 0 <= j < |gs| => AuthorLikes(gs[j].key, SumLikes(gs[j].value)))
  }

  /** The iteratee `x => x.likes` compared with `>`. */
  predicate MoreLikes(a: AuthorLikes, b: AuthorLikes)
  {
    a.likes > b.likes
  }

  /** `mostLikes`; `None` stands for the `undefined` that `maxBy` gives on no entries. */
  function MostLikes(s: seq<Post>): Option<AuthorLikes>
  {
    MaxBy(LikesPerAuthor(GroupByAuthor(s)), MoreLikes)
  }

  /** The likes of all posts written by `a`. */
  function AuthorTotal(s: seq<Post>, a: string): int
  {
    SumLikes(PostsBy(s, a))
  }

  lemma MoreLikesIsStrictWeakOrder()
    ensures StrictWeakOrder(MoreLikes)
  {
  }

  /** There is an entry exactly when there is a post. */
  lemma {:induction false} MostLikesNone(s: seq<Post>)
    ensures MostLikes(s).None? <==> s == []
  {
    GroupByAuthorCorrect(s);
    if s != [] {
      assert Find(Keys(GroupByAuthor(s)), s[0].author) < |GroupByAuthor(s)|;
    }
  }

  /** The group whose entry `maxBy` picks: the first one with the largest sum. */
  lemma MostLikesPick(s: seq<Post>) returns (k: nat)
    requires s != []
    ensures k < |GroupByAuthor(s)|
    ensures MostLikes(s) == Some(AuthorLikes(GroupByAuthor(s)[k].key, SumLikes(GroupByAuthor(s)[k].value)))
    ensures forall j :: 0 <= j < k ==>
              SumLikes(GroupByAuthor(s)[j].value) < SumLikes(GroupByAuthor(s)[k].value)
    ensures forall j :: k < j < |GroupByAuthor(s)| ==>
              SumLikes(GroupByAuthor(s)[j].value) <= SumLikes(GroupByAuthor(s)[k].value)
  {
    var es := LikesPerAuthor(GroupByAuthor(s));
    MostLikesNone(s);
    MoreLikesIsStrictWeakOrder();
    MaxByFirstMaximum(es, MoreLikes);
    k :| && 0 <= k < |es| && MaxBy(es, MoreLikes) == Some(es[k])
         && (forall j :: 0 <= j < k ==> MoreLikes(es[k], es[j]))
         && (forall j :: k < j < |es| ==> !MoreLikes(es[j], es[k]));
    forall j | 0 <= j < k
      ensures SumLikes(GroupByAuthor(s)[j].value) < SumLikes(GroupByAuthor(s)[k].value)
    {
      assert MoreLikes(es[k], es[j]);
    }
    forall j | k < j < |es|
      ensures SumLikes(GroupByAuthor(s)[j].value) <= SumLikes(GroupByAuthor(s)[k].value)
    {
      assert !MoreLikes(es[j], es[k]);
    }
  }

  /** An author's sum against the sum of the picked group `k`. */
  lemma AuthorAgainstPick(s: seq<Post>, gs: seq<Group>, k: nat, i: nat)
    requires ExactMembers(s, gs) && CoversAuthors(s, gs) && FirstAppearanceOrder(s, gs)
    requires k < |gs| && i < |s|
    requires forall j :: 0 <= j < k ==> SumLikes(gs[j].value) < SumLikes(gs[k].value)
    requires forall j :: k < j < |gs| ==> SumLikes(gs[j].value) <= SumLikes(gs[k].value)
    ensures AuthorTotal(s, s[i].author) <= AuthorTotal(s, gs[k].key)
    ensures i < FirstIndex(s, gs[k].key) ==> AuthorTotal(s, s[i].author) < AuthorTotal(s, gs[k].key)
  {
    var j := Find(Keys(gs), s[i].author);
    assert gs[j].key == s[i].author;
    assert gs[j].value == PostsBy(s, gs[j].key) && gs[k].value == PostsBy(s, gs[k].key);
    if i < FirstIndex(s, gs[k].key) {
      var fj, fk := FirstIndex(s, gs[j].key), FirstIndex(s, gs[k].key);
      assert fj <= i < fk;
      assert j != k;
    }
  }

  /**
    For a non-empty input the result names an author of the input together
    with that author's summed likes; no author has more, and every author
    whose first post comes before the result's first post has strictly
    fewer (ties go to the author seen first).
  */
  lemma {:induction false} MostLikesCorrect(s: seq<Post>)
    requires s != []
    ensures MostLikes(s).Some?
    ensures var r := MostLikes(s).value;
            && HasAuthor(s, r.author)
            && r.likes == AuthorTotal(s, r.author)
            && (forall i :: 0 <= i < |s| ==> AuthorTotal(s, s[i].author) <= r.likes)
            && (forall i :: 0 <= i < FirstIndex(s, r.author) ==> AuthorTotal(s, s[i].author) < r.likes)
  {
    var gs := GroupByAuthor(s);
    GroupByAuthorCorrect(s);
    var k := MostLikesPick(s);
    assert HasAuthor(s, gs[k].key) && gs[k].value == PostsBy(s, gs[k].key);
    forall i | 0 <= i < |s|
      ensures AuthorTotal(s, s[i].author) <= AuthorTotal(s, gs[k].key)
      ensures i < FirstIndex(s, gs[k].key) ==> AuthorTotal(s, s[i].author) < AuthorTotal(s, gs[k].key)
    {
      AuthorAgainstPick(s, gs, k, i);
    }
  }

  /** When one author wrote every post, the result is that author with the total likes. */
  lemma {:induction false} MostLikesSoleAuthor(s: seq<Post>, a: string)
    requires s != []
    requires forall i :: 0 <= i < |s| ==> s[i].author == a
    ensures MostLikes(s) == Some(AuthorLikes(a, TotalLikes(s)))
  {
    MostLikesCorrect(s);
    var r := MostLikes(s).value;
    var i :| 0 <= i < |s| && s[i].author == r.author;
    PostsBySoleAuthor(s, a);
    TotalLikesIsSum(s);
  }
}
