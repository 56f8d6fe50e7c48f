/**
  The three lodash collection helpers the utilities use, written out as
  left folds over the input (each result is computed from the result for
  the input without its last element):

  - `groupBy(posts, 'author')`: an object from author to that author's
    posts, whose keys appear in first-appearance order;
  - `countBy(posts, 'author')`: an object from author to a post count,
    keys again in first-appearance order;
  - `maxBy(entries, iteratee)`: `undefined` on empty input, otherwise the
    first entry that no later entry strictly exceeds.

  An object's key/value entries are modelled as a sequence of pairs in key
  insertion order.
*/
module Lodash {
  import opened Wrappers
  import opened Posts

  /** One key/value entry of an object built by `groupBy` or `countBy`. */
  datatype Entry<V> = Entry(key: string, value: V)

  /** One key of a `groupBy` result with its array of posts. */
  type Group = Entry<seq<Post>>

  /** One key of a `countBy` result with its count. */
  type Tally = Entry<nat>

  /** The position of key `k` in `keys`, or `|keys|` when `k` is not a key. */
  function Find(keys: seq<string>, k: string): (j: nat)
    ensures j <= |keys|
    ensures j < |keys| ==> keys[j] == k
    ensures forall i :: 0 <= i < j && i < |keys| ==> keys[i] != k
  {
    if keys == [] then 0
    else if keys[0] == k then 0
    else 1 + Find(keys[1..], k)
  }

  /** The keys of an object's entries, in order. */
  function Keys<V>(es: seq<Entry<V>>): (keys: seq<string>)
    ensures |keys| == |es|
    ensures forall j :: 0 <= j < |es| ==> keys[j] == es[j].key
  {
    seq(|es|, j requires 0 <= j < |es| => es[j].key)
  }

  /** One step of `groupBy`: push `p` onto its author's array, creating the key if new. */
  function AddToGroups(gs: seq<Group>, p: Post): seq<Group>
  {
    var j := Find(Keys(gs), p.author);
    if j == |gs| then gs + [Entry(p.author, [p])]
    else gs[j := Entry(gs[j].key, gs[j].value + [p])]
  }

  /** `_.groupBy(s, 'author')`. */
  function GroupByAuthor(s: seq<Post>): seq<Group>
  {
    if s == [] then [] else AddToGroups(GroupByAuthor(s[..|s| - 1]), s[|s| - 1])
  }

  /** One step of `countBy`: increment the author's count, creating the key at 1 if new. */
  function AddToTallies(cs: seq<Tally>, a: string): seq<Tally>
  {
    var j := Find(Keys(cs), a);
    if j == |cs| then cs + [Entry(a, 1)]
    else cs[j := Entry(cs[j].key, cs[j].value + 1)]
  }

  /** `_.valueBy(s, 'author')`. */
  function CountByAuthor(s: seq<Post>): seq<Tally>
  {
    if s == [] then [] else AddToTallies(CountByAuthor(s[..|s| - 1]), s[|s| - 1].author)
  }

  /** The keys of `gs` are pairwise different. */
  ghost predicate DistinctKeys(gs: seq<Group>)
  {
    forall j1, j2 :: 0 <= j1 < j2 < |gs| ==> gs[j1].key != gs[j2].key
  }

  /** Every key is an author of `s` and holds exactly that author's posts, in input order. */
  ghost predicate ExactMembers(s: seq<Post>, gs: seq<Group>)
  {
    forall j :: 0 <= j < |gs| ==> HasAuthor(s, gs[j].key) && gs[j].value == PostsBy(s, gs[j].key)
  }

  /** Every author of `s` is a key. */
  ghost predicate CoversAuthors(s: seq<Post>, gs: seq<Group>)
  {
    forall i :: 0 <= i < |s| ==> Find(Keys(gs), s[i].author) < |gs|
  }

  /** Keys are ordered by their author's first appearance in `s`. */
  ghost predicate FirstAppearanceOrder(s: seq<Post>, gs: seq<Group>)
    requires ExactMembers(s, gs)
  {
    forall j1, j2 :: 0 <= j1 < j2 < |gs| ==> FirstIndex(s, gs[j1].key) < FirstIndex(s, gs[j2].key)
  }

  /** What `groupBy` promises about its result `gs` for input `s`. */
  ghost predicate GroupsOf(s: seq<Post>, gs: seq<Group>)
  {
    DistinctKeys(gs) && ExactMembers(s, gs) && CoversAuthors(s, gs) && FirstAppearanceOrder(s, gs)
  }

  lemma FirstIndexSnoc(s: seq<Post>, p: Post, a: string)
    requires HasAuthor(s, a)
    ensures HasAuthor(s + [p], a) && FirstIndex(s + [p], a) == FirstIndex(s, a)
  {
    var f := FirstIndex(s, a);
    assert (s + [p])[f] == s[f];
  }

  lemma NoAuthorNoPosts(s: seq<Post>, a: string)
    requires !HasAuthor(s, a)
    ensures PostsBy(s, a) == []
  {
    PostsByNonEmpty(s, a);
  }

  /** The author of a post that is not yet a key has not written any earlier post. */
  lemma NewKeyIsNewAuthor(s: seq<Post>, gs: seq<Group>, a: string)
    requires CoversAuthors(s, gs)
    requires Find(Keys(gs), a) == |gs|
    ensures !HasAuthor(s, a)
  {
  }

  /** Every key of `gs` keeps its first appearance when `p` is added after `s`. */
  lemma KeysKeepFirstIndex(s: seq<Post>, gs: seq<Group>, p: Post)
    requires ExactMembers(s, gs)
    ensures forall j :: 0 <= j < |gs| ==>
              HasAuthor(s + [p], gs[j].key) && FirstIndex(s + [p], gs[j].key) == FirstIndex(s, gs[j].key)
  {
    forall j | 0 <= j < |gs|
      ensures HasAuthor(s + [p], gs[j].key) && FirstIndex(s + [p], gs[j].key) == FirstIndex(s, gs[j].key)
    {
      FirstIndexSnoc(s, p, gs[j].key);
    }
  }

  lemma NewKeyMembers(s: seq<Post>, gs: seq<Group>, p: Post)
    requires ExactMembers(s, gs) && CoversAuthors(s, gs)
    requires Find(Keys(gs), p.author) == |gs|
    ensures ExactMembers(s + [p], gs + [Entry(p.author, [p])])
  {
    var s', gs' := s + [p], gs + [Entry(p.author, [p])];
    assert s'[..|s'| - 1] == s;
    NewKeyIsNewAuthor(s, gs, p.author);
    NoAuthorNoPosts(s, p.author);
    assert HasAuthor(s', p.author) by { assert s'[|s|].author == p.author; }
    KeysKeepFirstIndex(s, gs, p);
    forall j | 0 <= j < |gs'|
      ensures HasAuthor(s', gs'[j].key) && gs'[j].value == PostsBy(s', gs'[j].key)
    {
      if j < |gs| {
        assert gs'[j] == gs[j];
        assert Keys(gs)[j] == gs[j].key;
      }
    }
  }

  lemma NewKeyOrder(s: seq<Post>, gs: seq<Group>, p: Post)
    requires ExactMembers(s, gs) && CoversAuthors(s, gs) && FirstAppearanceOrder(s, gs)
    requires Find(Keys(gs), p.author) == |gs|
    ensures ExactMembers(s + [p], gs + [Entry(p.author, [p])])
    ensures FirstAppearanceOrder(s + [p], gs + [Entry(p.author, [p])])
  {
    var s', gs' := s + [p], gs + [Entry(p.author, [p])];
    NewKeyMembers(s, gs, p);
    NewKeyIsNewAuthor(s, gs, p.author);
    KeysKeepFirstIndex(s, gs, p);
    assert HasAuthor(s', p.author) by { assert s'[|s|].author == p.author; }
    assert FirstIndex(s', p.author) == |s|;
    forall j1, j2 | 0 <= j1 < j2 < |gs'|
      ensures FirstIndex(s', gs'[j1].key) < FirstIndex(s', gs'[j2].key)
    {
      assert gs'[j1] == gs[j1];
      if j2 < |gs| { assert gs'[j2] == gs[j2]; }
    }
  }

  lemma NewKeyCovers(s: seq<Post>, gs: seq<Group>, p: Post)
    requires CoversAuthors(s, gs) && DistinctKeys(gs)
    requires Find(Keys(gs), p.author) == |gs|
    ensures CoversAuthors(s + [p], gs + [Entry(p.author, [p])])
    ensures DistinctKeys(gs + [Entry(p.author, [p])])
  {
    var s', gs' := s + [p], gs + [Entry(p.author, [p])];
    forall i | 0 <= i < |s'|
      ensures Find(Keys(gs'), s'[i].author) < |gs'|
    {
      if i < |s| {
        assert s'[i] == s[i];
        var j := Find(Keys(gs), s[i].author);
        assert Keys(gs')[j] == s[i].author;
      } else {
        assert Keys(gs')[|gs|] == s'[i].author;
      }
    }
    forall j1, j2 | 0 <= j1 < j2 < |gs'|
      ensures gs'[j1].key != gs'[j2].key
    {
      assert Keys(gs)[j1] == gs[j1].key;
    }
  }

  lemma ExistingKeyMembers(s: seq<Post>, gs: seq<Group>, p: Post, k: nat)
    requires ExactMembers(s, gs) && DistinctKeys(gs)
    requires k == Find(Keys(gs), p.author) < |gs|
    ensures ExactMembers(s + [p], gs[k := Entry(gs[k].key, gs[k].value + [p])])
  {
    var s', gs' := s + [p], gs[k := Entry(gs[k].key, gs[k].value + [p])];
    assert s'[..|s'| - 1] == s;
    KeysKeepFirstIndex(s, gs, p);
    forall j | 0 <= j < |gs'|
      ensures HasAuthor(s', gs'[j].key) && gs'[j].value == PostsBy(s', gs'[j].key)
    {
      assert Keys(gs)[k] == gs[k].key;
    }
  }

  lemma ExistingKeyOrder(s: seq<Post>, gs: seq<Group>, p: Post, k: nat)
    requires ExactMembers(s, gs) && DistinctKeys(gs) && FirstAppearanceOrder(s, gs)
    requires k == Find(Keys(gs), p.author) < |gs|
    ensures ExactMembers(s + [p], gs[k := Entry(gs[k].key, gs[k].value + [p])])
    ensures FirstAppearanceOrder(s + [p], gs[k := Entry(gs[k].key, gs[k].value + [p])])
  {
    var s', gs' := s + [p], gs[k := Entry(gs[k].key, gs[k].value + [p])];
    ExistingKeyMembers(s, gs, p, k);
    KeysKeepFirstIndex(s, gs, p);
    forall j1, j2 | 0 <= j1 < j2 < |gs'|
      ensures FirstIndex(s', gs'[j1].key) < FirstIndex(s', gs'[j2].key)
    {
      assert gs'[j1].key == gs[j1].key && gs'[j2].key == gs[j2].key;
    }
  }

  lemma ExistingKeyCovers(s: seq<Post>, gs: seq<Group>, p: Post, k: nat)
    requires CoversAuthors(s, gs) && DistinctKeys(gs)
    requires k == Find(Keys(gs), p.author) < |gs|
    ensures CoversAuthors(s + [p], gs[k := Entry(gs[k].key, gs[k].value + [p])])
    ensures DistinctKeys(gs[k := Entry(gs[k].key, gs[k].value + [p])])
  {
    var s', gs' := s + [p], gs[k := Entry(gs[k].key, gs[k].value + [p])];
    assert Keys(gs') == Keys(gs);
    forall i | 0 <= i < |s'|
      ensures Find(Keys(gs'), s'[i].author) < |gs'|
    {
      if i < |s| {
        assert s'[i] == s[i];
      } else {
        assert Keys(gs')[k] == s'[i].author;
      }
    }
  }

  /** `groupBy` keeps what `GroupsOf` states. */
  lemma {:induction false} GroupByAuthorCorrect(s: seq<Post>)
    ensures GroupsOf(s, GroupByAuthor(s))
  {
    if s != [] {
      var init, p := s[..|s| - 1], s[|s| - 1];
      assert s == init + [p];
      GroupByAuthorCorrect(init);
      var gs := GroupByAuthor(init);
      var k := Find(Keys(gs), p.author);
      if k == |gs| {
        NewKeyOrder(init, gs, p);
        NewKeyCovers(init, gs, p);
      } else {
        ExistingKeyOrder(init, gs, p, k);
        ExistingKeyCovers(init, gs, p, k);
      }
    }
  }

  /** `countBy` counts what `groupBy` collects: the same keys, each with its array's length. */
  lemma {:induction false} CountByAuthorIsGroupSizes(s: seq<Post>)
    ensures |CountByAuthor(s)| == |GroupByAuthor(s)|
    ensures forall j :: 0 <= j < |CountByAuthor(s)| ==>
      CountByAuthor(s)[j] == Entry(GroupByAuthor(s)[j].key, |GroupByAuthor(s)[j].value|)
  {
    if s != [] {
      var init, p := s[..|s| - 1], s[|s| - 1];
      CountByAuthorIsGroupSizes(init);
      assert Keys(GroupByAuthor(init)) == Keys(CountByAuthor(init));
    }
  }

  /** `other` beats `best` in `maxBy` exactly when `greater(other, best)`. */
  function MaxBy<T>(xs: seq<T>, greater: (T, T) -> bool): (r: Option<T>)
    ensures r.None? <==> xs == []
  {
    if xs == [] then None
    else match MaxBy(xs[..|xs| - 1], greater)
      case None => Some(xs[|xs| - 1])
      case Some(best) => if greater(xs[|xs| - 1], best) then Some(xs[|xs| - 1]) else Some(best)
  }

  /**
    `greater` is a strict weak order: transitive, and whenever `a` beats
    `c`, any `b` is either beaten by `a` or beats `c`. Comparing numbers or
    strings with `>`, through a key, is such an order.
  */
  ghost predicate StrictWeakOrder<T(!new)>(greater: (T, T) -> bool)
  {
    && (forall a, b, c :: greater(a, b) && greater(b, c) ==> greater(a, c))
    && (forall a, b, c :: greater(a, c) ==> greater(a, b) || greater(b, c))
  }

  /**
    `maxBy` returns an element that beats every element before it and that
    no element after it beats: a maximum, the first one on ties.
  */
  lemma {:induction false} MaxByFirstMaximum<T(!new)>(xs: seq<T>, greater: (T, T) -> bool)
    requires xs != []
    requires StrictWeakOrder(greater)
    ensures exists k ::
              && 0 <= k < |xs| && MaxBy(xs, greater) == Some(xs[k])
              && (forall j :: 0 <= j < k ==> greater(xs[k], xs[j]))
              && (forall j :: k < j < |xs| ==> !greater(xs[j], xs[k]))
  {
    var init, x := xs[..|xs| - 1], xs[|xs| - 1];
    if init == [] {
      assert MaxBy(xs, greater) == Some(xs[0]);
    } else {
      MaxByFirstMaximum(init, greater);
      var k :| 0 <= k < |init| && MaxBy(init, greater) == Some(init[k])
        && (forall j :: 0 <= j < k ==> greater(init[k], init[j]))
        && (forall j :: k < j < |init| ==> !greater(init[j], init[k]));
      var best := init[k];
      assert xs[k] == best;
      if greater(x, best) {
        forall j | 0 <= j < |xs| - 1
          ensures greater(xs[|xs| - 1], xs[j])
        {
          assert xs[j] == init[j];
          if j < k {
            assert greater(best, init[j]);
          } else if k < j {
            assert !greater(init[j], best);
          }
        }
      } else {
        forall j | k < j < |xs|
          ensures !greater(xs[j], xs[k])
        {
          if j < |init| { assert xs[j] == init[j]; }
        }
        forall j | 0 <= j < k
          ensures greater(xs[k], xs[j])
        {
          assert xs[j] == init[j];
        }
      }
    }
  }
}
