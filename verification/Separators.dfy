/** Keys built by joining texts with a separator character. */
module Separators {
  function Join(sep: char, a: string, x: string): string {
    a + [sep] + x
  }

  // The second join splits the same text later: b continues a past a separator, by as much as y is
  // shorter than x.
  ghost predicate Shifted(sep: char, a: string, x: string, b: string, y: string, between: string) {
    b == Join(sep, a, between) && x == Join(sep, between, y)
  }

  lemma ShiftedJoins(sep: char, a: string, x: string, b: string, y: string, between: string)
    requires Shifted(sep, a, x, b, y, between)
    ensures Join(sep, a, x) == Join(sep, b, y)
  {
    assert a + [sep] + (between + [sep] + y) == (a + [sep] + between) + [sep] + y;
  }

  lemma LaterSplit(sep: char, a: string, x: string, b: string, y: string) returns (between: string)
    requires Join(sep, a, x) == Join(sep, b, y) && |a| < |b|
    ensures Shifted(sep, a, x, b, y, between)
  {
    var joined := Join(sep, b, y);
    between := b[|a| + 1..];
    assert a == Join(sep, a, x)[..|a|] == joined[..|a|] == b[..|a|];
    assert b[|a|] == joined[|a|] == sep;
    assert x == joined[|a| + 1..] == between + [sep] + y;
  }

  lemma SameSplit(sep: char, a: string, x: string, b: string, y: string)
    requires Join(sep, a, x) == Join(sep, b, y) && |a| == |b|
    ensures a == b && x == y
  {
    var left, right := Join(sep, a, x), Join(sep, b, y);
    assert a == left[..|a|] && b == right[..|b|];
    assert x == left[|a| + 1..] && y == right[|b| + 1..];
  }

  // Two joins agree exactly when their parts do or one splits the text later than the other.
  lemma JoinsAgreeExactly(sep: char, a: string, x: string, b: string, y: string)
    ensures Join(sep, a, x) == Join(sep, b, y) <==>
              || (a == b && x == y)
              || (exists between :: Shifted(sep, a, x, b, y, between))
              || (exists between :: Shifted(sep, b, y, a, x, between))
  {
    if Join(sep, a, x) == Join(sep, b, y) {
      if |a| == |b| {
        SameSplit(sep, a, x, b, y);
      } else if |a| < |b| {
        var between := LaterSplit(sep, a, x, b, y);
      } else {
        var between := LaterSplit(sep, b, y, a, x);
      }
    }
    if between :| Shifted(sep, a, x, b, y, between) {
      ShiftedJoins(sep, a, x, b, y, between);
    }
    if between :| Shifted(sep, b, y, a, x, between) {
      ShiftedJoins(sep, b, y, a, x, between);
    }
  }

  lemma ShiftHasSeparator(sep: char, a: string, x: string, b: string, y: string, between: string)
    requires Shifted(sep, a, x, b, y, between)
    ensures sep in b
  {
    assert b[|a|] == sep;
  }

  // A text splits at its first separator in only one way.
  lemma SplitsOnce(sep: char, a: string, x: string, b: string, y: string)
    requires sep !in a && sep !in b
    requires Join(sep, a, x) == Join(sep, b, y)
    ensures a == b && x == y
  {
    JoinsAgreeExactly(sep, a, x, b, y);
    forall between: string
      ensures !Shifted(sep, a, x, b, y, between) && !Shifted(sep, b, y, a, x, between)
    {
      if Shifted(sep, a, x, b, y, between) {
        ShiftHasSeparator(sep, a, x, b, y, between);
      }
      if Shifted(sep, b, y, a, x, between) {
        ShiftHasSeparator(sep, b, y, a, x, between);
      }
    }
  }
}
