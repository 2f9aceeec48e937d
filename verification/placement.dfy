/** Where a form stands inside a longer sequence, for the round trips. */
module Placements {

  /** `form` stands in `s` at `pos`. */
  ghost predicate At<T>(s: seq<T>, pos: nat, form: seq<T>) {
    pos + |form| <= |s| && s[pos..pos + |form|] == form
  }

  lemma AtSplits<T>(s: seq<T>, pos: nat, a: seq<T>, b: seq<T>)
    requires At(s, pos, a + b)
    ensures At(s, pos, a) && At(s, pos + |a|, b)
  {
    assert (a + b)[..|a|] == a && (a + b)[|a|..] == b;
    assert s[pos..pos + |a|] == s[pos..pos + |a + b|][..|a|];
    assert s[pos + |a|..pos + |a| + |b|] == s[pos..pos + |a + b|][|a|..];
  }

  lemma AtFirst<T>(s: seq<T>, pos: nat, form: seq<T>)
    requires At(s, pos, form) && form != []
    ensures pos < |s| && s[pos] == form[0]
  {
    assert s[pos..pos + |form|][0] == s[pos];
  }

  lemma AtFits<T>(s: seq<T>, pos: nat, form: seq<T>)
    requires At(s, pos, form)
    ensures pos + |form| <= |s|
  {
  }
}
