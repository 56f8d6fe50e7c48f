/** `totalLikes` (utils/total_likes.js): the likes of all posts, added up. */
module TotalLikesUtil {
  import opened Posts

  /** `array.map(likes)`. */
  function Likes(s: seq<Post>): (r: seq<int>)
    ensures |r| == |s|
  {
    seq(|s|, i requires 0 <= i < |s| => s[i].likes)
  }

  /** `xs.reduce(reducer, init)` with `reducer = (sum, item) => sum + item`: a left fold. */
  function Reduce(xs: seq<int>, init: int): int
  {
    if xs == [] then init else Reduce(xs[..|xs| - 1], init) + xs[|xs| - 1]
  }

  /** `totalLikes`, with its shortcut for the empty array. */
  function TotalLikes(s: seq<Post>): int
  {
    if |s| == 0 then 0 else Reduce(Likes(s), 0)
  }

  /** The result is the sum of every post's likes, left to right. */
  lemma {:induction false} TotalLikesIsSum(s: seq<Post>)
    ensures TotalLikes(s) == SumLikes(s)
  {
    ReduceLikes(s, 0);
  }

  lemma {:induction false} ReduceLikes(s: seq<Post>, init: int)
    ensures Reduce(Likes(s), init) == init + SumLikes(s)
  {
    if s != [] {
      assert Likes(s)[..|s| - 1] == Likes(s[..|s| - 1]);
      ReduceLikes(s[..|s| - 1], init);
    }
  }

  /** An empty input gives 0. */
  lemma TotalLikesEmpty()
    ensures TotalLikes([]) == 0
  {
  }

  /** The shortcut for `[]` agrees with the general branch: `reduce` over no likes from 0 is 0. */
  lemma {:induction false} ShortcutAgrees(s: seq<Post>)
    ensures TotalLikes(s) == Reduce(Likes(s), 0)
  {
    if s == [] {
      assert Likes(s) == [];
    }
  }

  /** Appending a post adds exactly its likes. */
  lemma {:induction false} TotalLikesAppend(s: seq<Post>, p: Post)
    ensures TotalLikes(s + [p]) == TotalLikes(s) + p.likes
  {
    TotalLikesIsSum(s);
    TotalLikesIsSum(s + [p]);
    assert (s + [p])[..|s + [p]| - 1] == s;
  }

  lemma {:induction false} TotalLikesConcat(s: seq<Post>, t: seq<Post>)
    ensures TotalLikes(s + t) == TotalLikes(s) + TotalLikes(t)
  {
    TotalLikesIsSum(s);
    TotalLikesIsSum(t);
    TotalLikesIsSum(s + t);
    SumLikesConcat(s, t);
  }

  /** With no negative likes the total is non-negative and at least each post's likes. */
  lemma {:induction false} TotalLikesBounds(s: seq<Post>)
    requires forall i :: 0 <= i < |s| ==> s[i].likes >= 0
    ensures TotalLikes(s) >= 0
    ensures forall i :: 0 <= i < |s| ==> s[i].likes <= TotalLikes(s)
  {
    TotalLikesIsSum(s);
    SumLikesBounds(s);
  }

  lemma {:induction false} SumLikesBounds(s: seq<Post>)
    requires forall i :: 0 <= i < |s| ==> s[i].likes >= 0
    ensures SumLikes(s) >= 0
    ensures forall i :: 0 <= i < |s| ==> s[i].likes <= SumLikes(s)
  {
    if s != [] {
      var init := s[..|s| - 1];
      SumLikesBounds(init);
      forall i | 0 <= i < |s|
        ensures s[i].likes <= SumLikes(s)
      {
        if i < |init| { assert s[i] == init[i]; }
      }
    }
  }

  /** A one-post input gives that post's likes. */
  lemma TotalLikesSingle(p: Post)
    ensures TotalLikes([p]) == p.likes
  {
    TotalLikesIsSum([p]);
    assert [p][..0] == [];
  }
}
