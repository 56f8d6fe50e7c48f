/**
  `favouritePost` (utils/favouritePost.js): `reduce` without an initial
  value, keeping the accumulated post only when its likes are strictly
  greater than the current post's.
*/
module FavouritePostUtil {
  import opened Posts

  /**
    `reduce` with no initial value throws on `[]`, so callers must pass a
    non-empty array. The result is a post of the input with the most likes.
  */
  function FavouritePost(s: seq<Post>): (r: Post)
    requires |s| > 0
    ensures r in s
    ensures forall i :: 0 <= i < |s| ==> s[i].likes <= r.likes
  {
    if |s| == 1 then s[0]
    else
      var prev, current := FavouritePost(s[..|s| - 1]), s[|s| - 1];
      assert forall i :: 0 <= i < |s| - 1 ==> s[i] == s[..|s| - 1][i];
      if prev.likes > current.likes then prev else current
  }

  /**
    Ties go to the LAST post with the most likes: the result sits at some
    position after which every post has strictly fewer likes.
  */
  lemma {:induction false} FavouritePostLastOfTies(s: seq<Post>)
    requires |s| > 0
    ensures exists k ::
              && 0 <= k < |s| && s[k] == FavouritePost(s)
              && forall j :: k < j < |s| ==> s[j].likes < FavouritePost(s).likes
  {
    if |s| == 1 {
      assert s[0] == FavouritePost(s);
    } else {
      var init := s[..|s| - 1];
      FavouritePostLastOfTies(init);
      var k :| 0 <= k < |init| && init[k] == FavouritePost(init)
                && forall j :: k < j < |init| ==> init[j].likes < FavouritePost(init).likes;
      if FavouritePost(init).likes > s[|s| - 1].likes {
        assert s[k] == FavouritePost(s);
        forall j | k < j < |s|
          ensures s[j].likes < FavouritePost(s).likes
        {
          if j < |init| { assert s[j] == init[j]; }
        }
      } else {
        assert s[|s| - 1] == FavouritePost(s);
      }
    }
  }

  /** A one-post input returns that post. */
  lemma FavouritePostSingle(p: Post)
    ensures FavouritePost([p]) == p
  {
  }

  /** Of two posts, the first is returned only when it has strictly more likes. */
  lemma FavouritePostPair(a: Post, b: Post)
    ensures FavouritePost([a, b]) == if a.likes > b.likes then a else b
  {
    assert [a, b][..1] == [a];
  }
}
