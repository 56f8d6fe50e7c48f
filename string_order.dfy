/**
  The relational operators of JavaScript on strings: lexicographic
  comparison of the characters, where a proper prefix comes first.
  Dafny's own `<` on sequences means "proper prefix", so the order is
  defined here.
*/
module StringOrder {

  /** `a < b` on JavaScript strings. */
  predicate Less(a: string, b: string)
  {
    if b == [] then false
    else if a == [] then true
    else if a[0] != b[0] then a[0] < b[0]
    else Less(a[1..], b[1..])
  }

  /**
    The textbook lexicographic order: `a` is a proper prefix of `b`, or the
    two agree up to a position where `a` has the smaller character.
  */
  ghost predicate LexBefore(a: string, b: string)
  {
    || (|a| < |b| && a == b[..|a|])
    || (exists k :: 0 <= k < |a| && k < |b| && a[..k] == b[..k] && a[k] < b[k])
  }

  lemma LexBeforeEmpty(a: string, b: string)
    ensures b == [] ==> !LexBefore(a, b)
    ensures a == [] && b != [] ==> LexBefore(a, b)
  {
  }

  /** When the first characters differ, they decide. */
  lemma LexBeforeHeadsDiffer(a: string, b: string)
    requires a != [] && b != [] && a[0] != b[0]
    ensures LexBefore(a, b) <==> a[0] < b[0]
  {
    if a[0] < b[0] {
      assert a[..0] == b[..0];
    }
    if |a| < |b| {
      assert b[..|a|][0] == b[0];
    }
  }

  lemma LexBeforeTailForward(a: string, b: string)
    requires a != [] && b != [] && a[0] == b[0]
    requires LexBefore(a[1..], b[1..])
    ensures LexBefore(a, b)
  {
    if |a[1..]| < |b[1..]| && a[1..] == b[1..][..|a[1..]|] {
      assert a == [a[0]] + a[1..] && b[..|a|] == [b[0]] + b[1..][..|a[1..]|];
    } else {
      var k :| 0 <= k < |a[1..]| && k < |b[1..]| && a[1..][..k] == b[1..][..k] && a[1..][k] < b[1..][k];
      assert a[..k + 1] == [a[0]] + a[1..][..k];
      assert b[..k + 1] == [b[0]] + b[1..][..k];
      assert a[k + 1] < b[k + 1];
    }
  }

  lemma LexBeforeTailBackward(a: string, b: string)
    requires a != [] && b != [] && a[0] == b[0]
    requires LexBefore(a, b)
    ensures LexBefore(a[1..], b[1..])
  {
    if |a| < |b| && a == b[..|a|] {
      assert a[1..] == b[1..][..|a[1..]|];
    } else {
      var k :| 0 <= k < |a| && k < |b| && a[..k] == b[..k] && a[k] < b[k];
      assert k > 0;
      assert a[1..][..k - 1] == a[..k][1..] == b[..k][1..] == b[1..][..k - 1];
      assert a[1..][k - 1] < b[1..][k - 1];
    }
  }

  /** The recursive definition agrees with the textbook one. */
  lemma {:induction false} LessIsLexicographic(a: string, b: string)
    ensures Less(a, b) <==> LexBefore(a, b)
  {
    LexBeforeEmpty(a, b);
    if a != [] && b != [] {
      if a[0] != b[0] {
        LexBeforeHeadsDiffer(a, b);
      } else {
        LessIsLexicographic(a[1..], b[1..]);
        if LexBefore(a[1..], b[1..]) {
          LexBeforeTailForward(a, b);
        }
        if LexBefore(a, b) {
          LexBeforeTailBackward(a, b);
        }
      }
    }
  }

  lemma {:induction false} LessIrreflexive(a: string)
    ensures !Less(a, a)
  {
    if a != [] {
      LessIrreflexive(a[1..]);
    }
  }

  lemma {:induction false} LessTransitive(a: string, b: string, c: string)
    requires Less(a, b) && Less(b, c)
    ensures Less(a, c)
  {
    if a != [] && a[0] == b[0] && b[0] == c[0] {
      LessTransitive(a[1..], b[1..], c[1..]);
    }
  }

  /** Two different strings are always ordered one way or the other. */
  lemma {:induction false} LessTotal(a: string, b: string)
    requires a != b
    ensures Less(a, b) || Less(b, a)
  {
    if a != [] && b != [] && a[0] == b[0] {
      assert a == [a[0]] + a[1..] && b == [b[0]] + b[1..];
      LessTotal(a[1..], b[1..]);
    }
  }

  lemma LessAsymmetric(a: string, b: string)
    requires Less(a, b)
    ensures !Less(b, a)
  {
    if Less(b, a) {
      LessTransitive(a, b, a);
      LessIrreflexive(a);
    }
  }
}
