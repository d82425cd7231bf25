/** The ascending list of the elements of a finite set, as Python's `sorted` gives it. */
module SortedKeys {
  /** A string key, known by its rank in string order. */
  datatype Key = Key(rank: int)

  ghost predicate Ascending(s: seq<Key>) {
    forall i, j :: 0 <= i < j < |s| ==> s[i].rank < s[j].rank
  }

  predicate IsMinimum(m: Key, s: set<Key>) {
    m in s && forall x :: x in s ==> m.rank <= x.rank
  }

  lemma {:induction false} MinimumExists(s: set<Key>)
    requires s != {}
    ensures exists m :: m in s && IsMinimum(m, s)
  {
    var some :| some in s;
    if s - {some} == {} {
      assert s == {some};
      assert IsMinimum(some, s);
    } else {
      MinimumExists(s - {some});
      var rest :| rest in s - {some} && IsMinimum(rest, s - {some});
      assert IsMinimum(if rest.rank < some.rank then rest else some, s);
    }
  }

  function Minimum(s: set<Key>): (m: Key)
    requires s != {}
    ensures IsMinimum(m, s)
  {
    MinimumExists(s);
    var m :| m in s && IsMinimum(m, s);
    m
  }

  function Sorted(s: set<Key>): (r: seq<Key>)
    ensures Ascending(r) && |r| == |s|
    ensures forall x :: x in r <==> x in s
    ensures forall k :: 0 <= k < |r| ==> r[k] in s
  {
    if s == {} then []
    else
      var m := Minimum(s);
      [m] + Sorted(s - {m})
  }
}
