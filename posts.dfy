/**
  Post records as the aggregation utilities see them, and the reference
  definitions (sums, per-author selections, first appearances) that the
  utilities are specified against.
*/
module Posts {

  /** A post record; the utilities read only `author` and `likes`. */
  datatype Post = Post(title: string, author: string, url: string, likes: int)

  /** The sum of the posts' likes, added left to right. */
  function SumLikes(s: seq<Post>): int
  {
    if s == [] then 0 else SumLikes(s[..|s| - 1]) + s[|s| - 1].likes
  }

  lemma {:induction false} SumLikesConcat(a: seq<Post>, b: seq<Post>)
    ensures SumLikes(a + b) == SumLikes(a) + SumLikes(b)
  {
    if b == [] {
      assert a + b == a;
    } else {
      assert (a + b)[..|a + b| - 1] == a + b[..|b| - 1];
      SumLikesConcat(a, b[..|b| - 1]);
    }
  }

  /** Some post in `s` is written by `a`. */
  predicate HasAuthor(s: seq<Post>, a: string)
  {
    exists i :: 0 <= i < |s| && s[i].author == a
  }

  /** The posts of `s` written by `a`, in input order. */
  function PostsBy(s: seq<Post>, a: string): (r: seq<Post>)
    ensures |r| <= |s|
    ensures forall i :: 0 <= i < |r| ==> r[i].author == a && r[i] in s
  {
    if s == [] then []
    else if s[|s| - 1].author == a then PostsBy(s[..|s| - 1], a) + [s[|s| - 1]]
    else PostsBy(s[..|s| - 1], a)
  }

  /** The position of the first post written by `a`. */
  function FirstIndex(s: seq<Post>, a: string): (k: nat)
    requires HasAuthor(s, a)
    ensures k < |s| && s[k].author == a
    ensures forall i :: 0 <= i < k ==> s[i].author != a
  {
    if s[0].author == a then 0
    else
      assert HasAuthor(s[1..], a) by {
        var i :| 0 <= i < |s| && s[i].author == a;
        assert s[1..][i - 1] == s[i];
      }
      1 + FirstIndex(s[1..], a)
  }

  lemma {:induction false} PostsByConcat(s: seq<Post>, t: seq<Post>, a: string)
    ensures PostsBy(s + t, a) == PostsBy(s, a) + PostsBy(t, a)
  {
    if t == [] {
      assert s + t == s;
    } else {
      assert (s + t)[..|s + t| - 1] == s + t[..|t| - 1];
      PostsByConcat(s, t[..|t| - 1], a);
    }
  }

  /** `a` wrote some post of `s` exactly when `a` has a post in its selection. */
  lemma {:induction false} PostsByNonEmpty(s: seq<Post>, a: string)
    ensures HasAuthor(s, a) <==> PostsBy(s, a) != []
  {
    if s != [] {
      var init := s[..|s| - 1];
      PostsByNonEmpty(init, a);
      if HasAuthor(init, a) {
        var i :| 0 <= i < |init| && init[i].author == a;
        assert s[i] == init[i];
      }
      if HasAuthor(s, a) && s[|s| - 1].author != a {
        var i :| 0 <= i < |s| && s[i].author == a;
        assert init[i] == s[i];
      }
    }
  }

  /** When every post is by `a`, the selection for `a` is the whole input. */
  lemma {:induction false} PostsBySoleAuthor(s: seq<Post>, a: string)
    requires forall i :: 0 <= i < |s| ==> s[i].author == a
    ensures PostsBy(s, a) == s
  {
    if s != [] {
      PostsBySoleAuthor(s[..|s| - 1], a);
      assert s[..|s| - 1] + [s[|s| - 1]] == s;
    }
  }

  /** Reordering the input does not change which authors occur in it. */
  lemma HasAuthorPermutation(s: seq<Post>, t: seq<Post>, a: string)
    requires multiset(s) == multiset(t)
    ensures HasAuthor(s, a) ==> HasAuthor(t, a)
  {
    if HasAuthor(s, a) {
      var i :| 0 <= i < |s| && s[i].author == a;
      assert s[i] in multiset(t);
      var j :| 0 <= j < |t| && t[j] == s[i];
    }
  }

  /** Reordering the input does not change how many posts an author wrote. */
  lemma {:induction false} PostsByPermutation(s: seq<Post>, t: seq<Post>, a: string)
    requires multiset(s) == multiset(t)
    ensures |PostsBy(s, a)| == |PostsBy(t, a)|
    decreases |s|
  {
    if s == [] {
      assert |t| == |multiset(t)| == 0;
    } else {
      var x := s[|s| - 1];
      var init := s[..|s| - 1];
      assert s == init + [x];
      assert x in multiset(t);
      var i :| 0 <= i < |t| && t[i] == x;
      var rest := t[..i] + t[i + 1..];
      assert t == t[..i] + [x] + t[i + 1..];
      assert multiset(init) == multiset(s) - multiset{x};
      assert multiset(rest) == multiset(t) - multiset{x};
      PostsByPermutation(init, rest, a);
      PostsByConcat(t[..i] + [x], t[i + 1..], a);
      PostsByConcat(t[..i], [x], a);
      PostsByConcat(t[..i], t[i + 1..], a);
      PostsByConcat(init, [x], a);
    }
  }
}
