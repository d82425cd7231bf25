/** Sequences obtained from others by leaving out elements. */
module Subsequences {
  /** s is obtained from l by leaving out elements. */
  ghost predicate Subsequence<T>(s: seq<T>, l: seq<T>) {
    s == [] || (l != [] && ((s[0] == l[0] && Subsequence(s[1..], l[1..])) || Subsequence(s, l[1..])))
  }

  lemma SubsequenceSkip<T>(s: seq<T>, l: seq<T>, x: T)
    requires Subsequence(s, l)
    ensures Subsequence(s, [x] + l)
  {
    assert ([x] + l)[1..] == l;
  }

  lemma {:induction false} SubsequenceAppend<T>(s: seq<T>, l: seq<T>, x: T)
    requires Subsequence(s, l)
    ensures Subsequence(s + [x], l + [x])
    ensures Subsequence(s, l + [x])
  {
    if l == [] {
      assert s + [x] == [x] && l + [x] == [x];
    } else {
      assert (l + [x])[1..] == l[1..] + [x];
      if s != [] && s[0] == l[0] && Subsequence(s[1..], l[1..]) {
        assert (s + [x])[1..] == s[1..] + [x];
        SubsequenceAppend(s[1..], l[1..], x);
      } else {
        SubsequenceAppend(s, l[1..], x);
      }
    }
  }

  lemma {:induction false} SubsequenceTail<T>(s: seq<T>, l: seq<T>)
    requires Subsequence(s, l) && s != []
    ensures Subsequence(s[1..], l) && Subsequence(s[1..], l[1..])
    decreases l
  {
    if !(s[0] == l[0] && Subsequence(s[1..], l[1..])) {
      SubsequenceTail(s, l[1..]);
    }
    SubsequenceSkip(s[1..], l[1..], l[0]);
    assert [l[0]] + l[1..] == l;
  }

  lemma {:induction false} SubsequenceMembers<T>(s: seq<T>, l: seq<T>)
    requires Subsequence(s, l)
    ensures forall x :: x in s ==> x in l
  {
    if s != [] {
      if s[0] == l[0] && Subsequence(s[1..], l[1..]) {
        SubsequenceMembers(s[1..], l[1..]);
        assert s == [l[0]] + s[1..];
      } else {
        SubsequenceMembers(s, l[1..]);
      }
    }
  }
}
