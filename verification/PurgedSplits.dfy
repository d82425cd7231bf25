/** Combinatorial purged splits: every choice of evaluation groups, with an embargo around each. */
module PurgedSplits {
  import opened Wrappers
  import opened WalkForward

  datatype Group = Group(start: nat, end: nat)

  // ---------- Contiguous groups ----------

  /** Where group g of `count` begins among n rows: the first n % count groups are one longer. */
  function GroupStart(n: nat, count: nat, g: nat): nat
    requires count > 0
  {
    g * (n / count) + if g < n % count then g else n % count
  }

  function GroupAt(n: nat, count: nat, g: nat): Group
    requires count > 0
  {
    GroupStartGrows(n, count, g);
    Group(GroupStart(n, count, g), GroupStart(n, count, g + 1))
  }

  function Groups(n: nat, count: nat): (groups: seq<Group>)
    requires count > 0
    ensures |groups| == count
  {
    seq(count, g requires 0 <= g < count => GroupAt(n, count, g))
  }

  lemma GroupStartGrows(n: nat, count: nat, g: nat)
    requires count > 0
    ensures GroupStart(n, count, g + 1) - GroupStart(n, count, g) == n / count + if g < n % count then 1 else 0
  {
    assert (g + 1) * (n / count) == g * (n / count) + n / count;
  }

  /** Advances `start` group by group. */
  method ContiguousGroups(n: nat, count: nat) returns (groups: seq<Group>)
    requires count > 0
    ensures groups == Groups(n, count)
  {
    var baseSize, remainder := n / count, n % count;
    groups := [];
    var start := 0;
    for g := 0 to count
      invariant start == GroupStart(n, count, g)
      invariant groups == Groups(n, count)[..g]
    {
      GroupStartGrows(n, count, g);
      var size := baseSize + if g < remainder then 1 else 0;
      groups := groups + [Group(start, start + size)];
      start := start + size;
    }
  }

  /** The groups tile 0..n without gaps; their sizes differ by at most one and never grow from a group to the next. */
  lemma GroupsPartition(n: nat, count: nat)
    requires count > 0
    ensures var groups := Groups(n, count);
            && groups[0].start == 0 && groups[count - 1].end == n
            && (forall g :: 0 < g < count ==> groups[g].start == groups[g - 1].end)
            && (forall g :: 0 <= g < count ==> n / count <= groups[g].end - groups[g].start <= n / count + 1)
            && (forall g :: 0 < g < count ==> groups[g].end - groups[g].start <= groups[g - 1].end - groups[g - 1].start)
  {
    assert count * (n / count) + n % count == n;
    forall g | 0 <= g < count
      ensures n / count <= Groups(n, count)[g].end - Groups(n, count)[g].start <= n / count + 1
    {
      GroupStartGrows(n, count, g);
    }
    forall g | 0 < g < count
      ensures var groups := Groups(n, count); groups[g].end - groups[g].start <= groups[g - 1].end - groups[g - 1].start
    {
      GroupStartGrows(n, count, g - 1);
      GroupStartGrows(n, count, g);
    }
  }

  /** The group of row i. */
  ghost predicate InGroup(i: nat, group: Group) {
    group.start <= i < group.end
  }

  lemma {:induction false} GroupStartMonotone(n: nat, count: nat, g: nat, h: nat)
    requires count > 0 && g <= h
    ensures GroupStart(n, count, g) <= GroupStart(n, count, h)
    decreases h - g
  {
    if g < h {
      GroupStartGrows(n, count, h - 1);
      GroupStartMonotone(n, count, g, h - 1);
    }
  }

  lemma {:induction false} FindGroup(n: nat, count: nat, i: nat, upto: nat) returns (g: nat)
    requires count > 0 && upto <= count && i < GroupStart(n, count, upto)
    ensures g < upto && InGroup(i, Groups(n, count)[g])
  {
    assert upto > 0;
    if i >= GroupStart(n, count, upto - 1) {
      g := upto - 1;
    } else {
      g := FindGroup(n, count, i, upto - 1);
    }
  }

  /** Every row lies in exactly one group. */
  lemma OneGroupPerRow(n: nat, count: nat, i: nat) returns (g: nat)
    requires count > 0 && i < n
    ensures g < count && forall h :: 0 <= h < count ==> (InGroup(i, Groups(n, count)[h]) <==> h == g)
  {
    GroupsPartition(n, count);
    g := FindGroup(n, count, i, count);
    forall h | 0 <= h < count && InGroup(i, Groups(n, count)[h])
      ensures h == g
    {
      if h < g {
        GroupStartMonotone(n, count, h + 1, g);
      } else if g < h {
        GroupStartMonotone(n, count, g + 1, h);
      }
    }
  }

  // ---------- Combinations ----------

  /** The evaluation groups of one split. */
  datatype Choice = Choice(picks: seq<int>)

  function Prepend(x: int, lists: seq<Choice>): (r: seq<Choice>)
    ensures |r| == |lists| && forall i :: 0 <= i < |r| ==> r[i] == Choice([x] + lists[i].picks)
  {
    seq(|lists|, i requires 0 <= i < |lists| => Choice([x] + lists[i].picks))
  }

  /** The k-element ascending lists over lo..hi, in lexicographic order. */
  function Combinations(lo: nat, hi: nat, k: nat): seq<Choice>
    requires lo <= hi
    decreases hi - lo
  {
    if k == 0 then [Choice([])]
    else if lo == hi then []
    else Prepend(lo, Combinations(lo + 1, hi, k - 1)) + Combinations(lo + 1, hi, k)
  }

  function Binomial(n: nat, k: nat): nat {
    if k == 0 then 1 else if n == 0 then 0 else Binomial(n - 1, k - 1) + Binomial(n - 1, k)
  }

  ghost predicate IsCombination(c: Choice, lo: nat, hi: nat, k: nat) {
    && |c.picks| == k
    && (forall i :: 0 <= i < k ==> lo <= c.picks[i] < hi)
    && (forall i, j :: 0 <= i < j < k ==> c.picks[i] < c.picks[j])
  }

  function Rest(c: Choice): Choice
    requires c.picks != []
  {
    Choice(c.picks[1..])
  }

  lemma InPrepended(x: int, lists: seq<Choice>, c: Choice)
    ensures c in Prepend(x, lists) <==> c.picks != [] && c.picks[0] == x && Rest(c) in lists
  {
    var r := Prepend(x, lists);
    if c in r {
      var i :| 0 <= i < |r| && r[i] == c;
      assert Rest(c) == lists[i];
    }
    if c.picks != [] && c.picks[0] == x && Rest(c) in lists {
      var i :| 0 <= i < |lists| && lists[i] == Rest(c);
      assert c.picks == [x] + c.picks[1..];
      assert r[i] == c;
    }
  }

  lemma CombinationTail(c: Choice, lo: nat, hi: nat, k: nat)
    requires k > 0 && lo < hi
    ensures IsCombination(c, lo, hi, k)
       <==> IsCombination(c, lo + 1, hi, k)
            || (c.picks != [] && c.picks[0] == lo && IsCombination(Rest(c), lo + 1, hi, k - 1))
  {
    if c.picks != [] && c.picks[0] == lo && IsCombination(Rest(c), lo + 1, hi, k - 1) {
      assert forall i :: 1 <= i < k ==> c.picks[i] == Rest(c).picks[i - 1];
    }
  }

  lemma CombinationsStep(lo: nat, hi: nat, k: nat, c: Choice)
    requires k > 0 && lo < hi
    ensures c in Combinations(lo, hi, k)
       <==> c in Prepend(lo, Combinations(lo + 1, hi, k - 1)) || c in Combinations(lo + 1, hi, k)
  {
  }

  ghost predicate AllCombinations(list: seq<Choice>, lo: nat, hi: nat, k: nat) {
    forall c :: c in list ==> IsCombination(c, lo, hi, k)
  }

  lemma JoinedCombinations(lo: nat, hi: nat, k: nat, starting: seq<Choice>, others: seq<Choice>)
    requires k > 0 && lo < hi && AllCombinations(starting, lo + 1, hi, k - 1) && AllCombinations(others, lo + 1, hi, k)
    ensures AllCombinations(Prepend(lo, starting) + others, lo, hi, k)
  {
    forall c | c in Prepend(lo, starting) + others
      ensures IsCombination(c, lo, hi, k)
    {
      InPrepended(lo, starting, c);
      CombinationTail(c, lo, hi, k);
    }
  }

  lemma NothingLeftToPick(lo: nat, hi: nat, k: nat)
    requires lo <= hi && (k == 0 || lo == hi)
    ensures AllCombinations(Combinations(lo, hi, k), lo, hi, k)
  {
  }

  lemma {:induction false} OnlyCombinations(lo: nat, hi: nat, k: nat)
    requires lo <= hi
    ensures AllCombinations(Combinations(lo, hi, k), lo, hi, k)
    decreases hi - lo
  {
    if k == 0 || lo == hi {
      NothingLeftToPick(lo, hi, k);
    } else {
      OnlyCombinations(lo + 1, hi, k - 1);
      OnlyCombinations(lo + 1, hi, k);
      JoinedCombinations(lo, hi, k, Combinations(lo + 1, hi, k - 1), Combinations(lo + 1, hi, k));
    }
  }

  lemma {:induction false} EveryCombination(lo: nat, hi: nat, k: nat, c: Choice)
    requires lo <= hi && IsCombination(c, lo, hi, k)
    ensures c in Combinations(lo, hi, k)
    decreases hi - lo
  {
    if k == 0 {
      assert c == Choice([]);
    } else {
      assert lo <= c.picks[0] < hi;
      CombinationsStep(lo, hi, k, c);
      CombinationTail(c, lo, hi, k);
      if IsCombination(c, lo + 1, hi, k) {
        EveryCombination(lo + 1, hi, k, c);
      } else {
        InPrepended(lo, Combinations(lo + 1, hi, k - 1), c);
        EveryCombination(lo + 1, hi, k - 1, Rest(c));
      }
    }
  }

  /** The enumeration is sound and complete. */
  lemma CombinationsAreAll(lo: nat, hi: nat, k: nat, c: Choice)
    requires lo <= hi
    ensures c in Combinations(lo, hi, k) <==> IsCombination(c, lo, hi, k)
  {
    if c in Combinations(lo, hi, k) {
      OnlyCombinations(lo, hi, k);
    } else if IsCombination(c, lo, hi, k) {
      EveryCombination(lo, hi, k, c);
    }
  }

  lemma {:induction false} CombinationCount(lo: nat, hi: nat, k: nat)
    requires lo <= hi
    ensures |Combinations(lo, hi, k)| == Binomial(hi - lo, k)
    decreases hi - lo
  {
    if k > 0 && lo < hi {
      CombinationCount(lo + 1, hi, k - 1);
      CombinationCount(lo + 1, hi, k);
    }
  }

  function Size(lo: nat, hi: nat, k: nat): nat
    requires lo <= hi
  {
    |Combinations(lo, hi, k)|
  }

  lemma SizeIsBinomial(lo: nat, hi: nat, k: nat)
    requires lo <= hi
    ensures Size(lo, hi, k) == Binomial(hi - lo, k)
  {
    CombinationCount(lo, hi, k);
  }

  /** How many of the lists contain g. */
  function Containing(lists: seq<Choice>, g: int): nat {
    if lists == [] then 0 else Containing(lists[1..], g) + (if g in lists[0].picks then 1 else 0)
  }

  lemma {:induction false} ContainingSum(a: seq<Choice>, b: seq<Choice>, g: int)
    ensures Containing(a + b, g) == Containing(a, g) + Containing(b, g)
  {
    if a == [] {
      assert a + b == b;
    } else {
      ContainingSum(a[1..], b, g);
      assert (a + b)[1..] == a[1..] + b;
    }
  }

  lemma {:induction false} ContainingPrepended(x: int, lists: seq<Choice>, g: int)
    ensures Containing(Prepend(x, lists), g) == if g == x then |lists| else Containing(lists, g)
  {
    if lists != [] {
      ContainingPrepended(x, lists[1..], g);
      assert Prepend(x, lists)[1..] == Prepend(x, lists[1..]);
    }
  }

  lemma {:induction false} NoneContaining(lists: seq<Choice>, g: int)
    requires forall i :: 0 <= i < |lists| ==> g !in lists[i].picks
    ensures Containing(lists, g) == 0
  {
    if lists != [] {
      NoneContaining(lists[1..], g);
    }
  }

  lemma {:induction false} NotBelow(lo: nat, hi: nat, k: nat, g: int)
    requires g < lo <= hi
    ensures Containing(Combinations(lo, hi, k), g) == 0
  {
    var lists := Combinations(lo, hi, k);
    OnlyCombinations(lo, hi, k);
    forall i | 0 <= i < |lists|
      ensures g !in lists[i].picks
    {
      assert lists[i] in lists;
    }
    NoneContaining(lists, g);
  }

  lemma ContainingStep(lo: nat, hi: nat, k: nat, g: int)
    requires lo <= g < hi && k > 0
    ensures Containing(Combinations(lo, hi, k), g)
         == (if g == lo then |Combinations(lo + 1, hi, k - 1)| else Containing(Combinations(lo + 1, hi, k - 1), g))
            + Containing(Combinations(lo + 1, hi, k), g)
  {
    ContainingSum(Prepend(lo, Combinations(lo + 1, hi, k - 1)), Combinations(lo + 1, hi, k), g);
    ContainingPrepended(lo, Combinations(lo + 1, hi, k - 1), g);
  }

  /** In how many k-element combinations over lo..hi g occurs. */
  function Occurrences(lo: nat, hi: nat, k: nat, g: int): nat
    requires lo <= hi
  {
    Containing(Combinations(lo, hi, k), g)
  }

  lemma FirstOccurs(lo: nat, hi: nat, k: nat)
    requires lo < hi && k > 0
    ensures Occurrences(lo, hi, k, lo) == Size(lo + 1, hi, k - 1)
  {
    ContainingStep(lo, hi, k, lo);
    NotBelow(lo + 1, hi, k, lo);
  }

  lemma LaterOccurs(lo: nat, hi: nat, k: nat, g: int)
    requires k > 0 && lo < g < hi
    ensures Occurrences(lo, hi, k, g) == Occurrences(lo + 1, hi, k - 1, g) + Occurrences(lo + 1, hi, k, g)
  {
    ContainingStep(lo, hi, k, g);
  }

  lemma ContainedInNone(lo: nat, hi: nat, g: int)
    requires lo <= hi
    ensures Occurrences(lo, hi, 0, g) == 0
  {
    NoneContaining([Choice([])], g);
  }

  /** Occurrences of the element at distance d from the first of n, by the same case split as the enumeration. */
  function Expected(n: nat, d: nat, k: nat): nat
    requires d < n
  {
    if k == 0 then 0
    else if d == 0 then Binomial(n - 1, k - 1)
    else Expected(n - 1, d - 1, k - 1) + Expected(n - 1, d - 1, k)
  }

  lemma {:induction false} ExpectedIsBinomial(n: nat, d: nat, k: nat)
    requires d < n && k > 0
    ensures Expected(n, d, k) == Binomial(n - 1, k - 1)
  {
    if d > 0 {
      ExpectedIsBinomial(n - 1, d - 1, k);
      if k > 1 {
        ExpectedIsBinomial(n - 1, d - 1, k - 1);
      }
    }
  }

  ghost predicate OccursAsExpected(lo: nat, hi: nat, k: nat, g: int)
    requires lo <= g < hi
  {
    Occurrences(lo, hi, k, g) == Expected(hi - lo, g - lo, k)
  }

  lemma FirstAsExpected(lo: nat, hi: nat, k: nat)
    requires lo < hi
    ensures OccursAsExpected(lo, hi, k, lo)
  {
    if k == 0 {
      ContainedInNone(lo, hi, lo);
    } else {
      FirstOccurs(lo, hi, k);
      SizeIsBinomial(lo + 1, hi, k - 1);
    }
  }

  lemma ExpectedStep(n: nat, d: nat, k: nat)
    requires 0 < d < n && k > 0
    ensures Expected(n, d, k) == Expected(n - 1, d - 1, k - 1) + Expected(n - 1, d - 1, k)
  {
  }

  lemma LaterAsExpected(lo: nat, hi: nat, k: nat, g: int)
    requires lo < g < hi && k > 0
    requires OccursAsExpected(lo + 1, hi, k, g) && OccursAsExpected(lo + 1, hi, k - 1, g)
    ensures OccursAsExpected(lo, hi, k, g)
  {
    LaterOccurs(lo, hi, k, g);
    ExpectedStep(hi - lo, g - lo, k);
  }

  lemma {:induction false} OccurrencesAreExpected(lo: nat, hi: nat, k: nat, g: int)
    requires lo <= g < hi
    ensures OccursAsExpected(lo, hi, k, g)
    decreases hi - lo
  {
    if g == lo {
      FirstAsExpected(lo, hi, k);
    } else if k == 0 {
      ContainedInNone(lo, hi, g);
    } else {
      OccurrencesAreExpected(lo + 1, hi, k, g);
      OccurrencesAreExpected(lo + 1, hi, k - 1, g);
      LaterAsExpected(lo, hi, k, g);
    }
  }

  /** Each g in lo..hi is in exactly Binomial(hi - lo - 1, k - 1) of the k-element combinations. */
  lemma OccurrenceCount(lo: nat, hi: nat, k: nat, g: int)
    requires lo <= g < hi && k > 0
    ensures Occurrences(lo, hi, k, g) == Binomial(hi - lo - 1, k - 1)
  {
    OccurrencesAreExpected(lo, hi, k, g);
    ExpectedIsBinomial(hi - lo, g - lo, k);
  }

  // ---------- One split ----------

  function Range(first: int, end: int): set<int>
    decreases end - first
  {
    if end <= first then {} else Range(first, end - 1) + {end - 1}
  }

  lemma {:induction false} InRange(i: int, first: int, end: int)
    ensures i in Range(first, end) <==> first <= i < end
    decreases end - first
  {
    if first < end {
      InRange(i, first, end - 1);
    }
  }

  function Max(a: int, b: int): int {
    if a < b then b else a
  }

  function Min(a: int, b: int): int {
    if a < b then a else b
  }

  /** The choice names existing groups. */
  predicate InGroups(choice: Choice, groups: seq<Group>) {
    forall j :: 0 <= j < |choice.picks| ==> 0 <= choice.picks[j] < |groups|
  }

  ghost predicate ValidChoice(choice: Choice, groups: seq<Group>) {
    choice.picks != [] && InGroups(choice, groups)
  }

  ghost predicate AllValid(choices: seq<Choice>, groups: seq<Group>) {
    forall j :: 0 <= j < |choices| ==> ValidChoice(choices[j], groups)
  }

  /** Row i belongs to a chosen group. */
  predicate Evaluated(i: int, choice: Choice, groups: seq<Group>)
    requires InGroups(choice, groups)
  {
    exists j :: 0 <= j < |choice.picks| && groups[choice.picks[j]].start <= i < groups[choice.picks[j]].end
  }

  /** Row i lies within the embargo before or after a chosen group. */
  predicate Embargoed(i: int, choice: Choice, groups: seq<Group>, embargo: nat, n: nat)
    requires InGroups(choice, groups)
  {
    exists j :: 0 <= j < |choice.picks| && NearGroup(i, groups[choice.picks[j]], embargo, n)
  }

  /** The positions before n that satisfy p, in ascending order. */
  function Positions(n: nat, p: int -> bool): (r: seq<nat>)
    ensures forall i :: i in r <==> 0 <= i < n && p(i)
    ensures forall i :: 0 <= i < |r| ==> r[i] < n
    ensures forall i, j :: 0 <= i < j < |r| ==> r[i] < r[j]
  {
    if n == 0 then [] else Positions(n - 1, p) + (if p(n - 1) then [n - 1] else [])
  }

  datatype IndexSplit = IndexSplit(train: seq<nat>, eval: seq<nat>) {
    /** All positions lie before n. */
    ghost predicate Within(n: nat) {
      (forall j :: 0 <= j < |train| ==> train[j] < n) && (forall j :: 0 <= j < |eval| ==> eval[j] < n)
    }
  }

  function SplitFor(choice: Choice, groups: seq<Group>, embargo: nat, n: nat): (split: IndexSplit)
    requires InGroups(choice, groups)
    ensures split.Within(n)
  {
    IndexSplit(
      Positions(n, i => !Evaluated(i, choice, groups) && !Embargoed(i, choice, groups, embargo, n)),
      Positions(n, i => Evaluated(i, choice, groups)))
  }

  /** The rows before `end` and from `start` on that lie within the embargo of the group. */
  function EmbargoRange(g: Group, embargo: nat, n: nat): set<int> {
    Range(Max(0, g.start - embargo), g.start) + Range(g.end, Min(n, g.end + embargo))
  }

  predicate NearGroup(i: int, g: Group, embargo: nat, n: nat) {
    Max(0, g.start - embargo) <= i < g.start || g.end <= i < Min(n, g.end + embargo)
  }

  lemma InEmbargoRange(i: int, g: Group, embargo: nat, n: nat)
    ensures i in EmbargoRange(g, embargo, n) <==> NearGroup(i, g, embargo, n)
  {
    InRange(i, Max(0, g.start - embargo), g.start);
    InRange(i, g.end, Min(n, g.end + embargo));
  }

  function EvaluatedSet(choice: Choice, groups: seq<Group>, upto: nat): set<int>
    requires InGroups(choice, groups) && upto <= |choice.picks|
  {
    if upto == 0 then {}
    else
      var g := groups[choice.picks[upto - 1]];
      EvaluatedSet(choice, groups, upto - 1) + Range(g.start, g.end)
  }

  function EmbargoedSet(choice: Choice, groups: seq<Group>, embargo: nat, n: nat, upto: nat): set<int>
    requires InGroups(choice, groups) && upto <= |choice.picks|
  {
    if upto == 0 then {}
    else EmbargoedSet(choice, groups, embargo, n, upto - 1) + EmbargoRange(groups[choice.picks[upto - 1]], embargo, n)
  }

  lemma {:induction false} InEvaluatedSet(choice: Choice, groups: seq<Group>, upto: nat, i: int)
    requires InGroups(choice, groups) && upto <= |choice.picks|
    ensures i in EvaluatedSet(choice, groups, upto)
       <==> exists j :: 0 <= j < upto && groups[choice.picks[j]].start <= i < groups[choice.picks[j]].end
  {
    if upto > 0 {
      var g := groups[choice.picks[upto - 1]];
      InEvaluatedSet(choice, groups, upto - 1, i);
      InRange(i, g.start, g.end);
    }
  }

  lemma {:induction false} InEmbargoedSet(choice: Choice, groups: seq<Group>, embargo: nat, n: nat, upto: nat, i: int)
    requires InGroups(choice, groups) && upto <= |choice.picks|
    ensures i in EmbargoedSet(choice, groups, embargo, n, upto)
       <==> exists j :: 0 <= j < upto && NearGroup(i, groups[choice.picks[j]], embargo, n)
  {
    if upto > 0 {
      InEmbargoedSet(choice, groups, embargo, n, upto - 1, i);
      InEmbargoRange(i, groups[choice.picks[upto - 1]], embargo, n);
    }
  }

  /** Grows the index sets group by group. */
  method CollectIndexes(choice: Choice, groups: seq<Group>, embargo: nat, n: nat)
    returns (evalIndexes: set<int>, embargoIndexes: set<int>)
    requires InGroups(choice, groups)
    ensures evalIndexes == EvaluatedSet(choice, groups, |choice.picks|)
    ensures embargoIndexes == EmbargoedSet(choice, groups, embargo, n, |choice.picks|)
  {
    evalIndexes, embargoIndexes := {}, {};
    for k := 0 to |choice.picks|
      invariant evalIndexes == EvaluatedSet(choice, groups, k)
      invariant embargoIndexes == EmbargoedSet(choice, groups, embargo, n, k)
    {
      var g := groups[choice.picks[k]];
      evalIndexes := evalIndexes + Range(g.start, g.end);
      embargoIndexes := embargoIndexes + EmbargoRange(g, embargo, n);
    }
  }

  /** Filters the rows with the two index sets. */
  method PurgedSplit(choice: Choice, groups: seq<Group>, embargo: nat, n: nat) returns (split: IndexSplit)
    requires InGroups(choice, groups)
    ensures split == SplitFor(choice, groups, embargo, n)
  {
    var evalIndexes, embargoIndexes := CollectIndexes(choice, groups, embargo, n);
    var inEval := (i: int) => i in evalIndexes;
    var inTrain := (i: int) => i !in evalIndexes && i !in embargoIndexes;
    forall i | 0 <= i < n
      ensures inEval(i) == Evaluated(i, choice, groups)
      ensures inTrain(i) == (!Evaluated(i, choice, groups) && !Embargoed(i, choice, groups, embargo, n))
    {
      InEvaluatedSet(choice, groups, |choice.picks|, i);
      InEmbargoedSet(choice, groups, embargo, n, |choice.picks|, i);
    }
    SamePositions(n, inTrain, i => !Evaluated(i, choice, groups) && !Embargoed(i, choice, groups, embargo, n));
    SamePositions(n, inEval, i => Evaluated(i, choice, groups));
    split := IndexSplit(Positions(n, inTrain), Positions(n, inEval));
  }

  lemma {:induction false} SamePositions(n: nat, p: int -> bool, q: int -> bool)
    requires forall i :: 0 <= i < n ==> p(i) == q(i)
    ensures Positions(n, p) == Positions(n, q)
  {
    if n > 0 {
      SamePositions(n - 1, p, q);
    }
  }

  function Distance(a: int, b: int): nat {
    if a < b then b - a else a - b
  }

  /** The training rows are exactly the rows farther than the embargo from every evaluation row. */
  lemma TrainingIsFarFromEvaluation(choice: Choice, groups: seq<Group>, embargo: nat, n: nat, i: nat)
    requires ValidChoice(choice, groups) && i < n
    requires forall g :: 0 <= g < |groups| ==> groups[g].start < groups[g].end <= n
    ensures var split := SplitFor(choice, groups, embargo, n);
            (i in split.train <==> forall e :: e in split.eval ==> Distance(i, e) > embargo)
  {
    var split := SplitFor(choice, groups, embargo, n);
    if i !in split.train {
      assert Evaluated(i, choice, groups) || Embargoed(i, choice, groups, embargo, n);
      if Evaluated(i, choice, groups) {
        assert i in split.eval && Distance(i, i) <= embargo;
      } else {
        var j :| 0 <= j < |choice.picks| && NearGroup(i, groups[choice.picks[j]], embargo, n);
        var g := groups[choice.picks[j]];
        var e: nat := if i < g.start then g.start else g.end - 1;
        assert Evaluated(e, choice, groups);
        assert e in split.eval && Distance(i, e) <= embargo;
      }
    } else {
      forall e | e in split.eval
        ensures Distance(i, e) > embargo
      {
        var j :| 0 <= j < |choice.picks| && groups[choice.picks[j]].start <= e < groups[choice.picks[j]].end;
        var g := groups[choice.picks[j]];
        assert !(g.start <= i < g.end) && !NearGroup(i, g, embargo, n);
      }
    }
  }

  // ---------- All splits ----------

  function AllSplits(choices: seq<Choice>, groups: seq<Group>, embargo: nat, n: nat): (r: seq<IndexSplit>)
    requires AllValid(choices, groups)
    ensures forall j :: 0 <= j < |r| ==> r[j].Within(n)
  {
    if choices == [] then []
    else
      assert ValidChoice(choices[0], groups);
      var split := SplitFor(choices[0], groups, embargo, n);
      var rest := AllSplits(choices[1..], groups, embargo, n);
      if split.train == [] || split.eval == [] then rest else [split] + rest
  }

  lemma ChoicesAreValid(n: nat, count: nat, k: nat)
    requires count > 0 && k > 0
    ensures AllCombinations(Combinations(0, count, k), 0, count, k)
    ensures AllValid(Combinations(0, count, k), Groups(n, count))
  {
    var choices := Combinations(0, count, k);
    OnlyCombinations(0, count, k);
    forall j | 0 <= j < |choices|
      ensures ValidChoice(choices[j], Groups(n, count))
    {
      assert choices[j] in choices;
    }
  }

  function Splits(n: nat, count: nat, k: nat, embargo: nat): (r: seq<IndexSplit>)
    requires count > 0 && k > 0
    ensures forall j :: 0 <= j < |r| ==> r[j].Within(n)
  {
    ChoicesAreValid(n, count, k);
    AllSplits(Combinations(0, count, k), Groups(n, count), embargo, n)
  }

  function SelectRows(rows: seq<Row>, indexes: seq<nat>): (r: seq<Row>)
    requires forall j :: 0 <= j < |indexes| ==> indexes[j] < |rows|
    ensures |r| == |indexes| && forall j :: 0 <= j < |r| ==> r[j] == rows[indexes[j]]
  {
    seq(|indexes|, j requires 0 <= j < |indexes| => rows[indexes[j]])
  }

  function RowsOf(rows: seq<Row>, split: IndexSplit): Split
    requires split.Within(|rows|)
  {
    Split(SelectRows(rows, split.train), SelectRows(rows, split.eval))
  }

  function RowSplits(rows: seq<Row>, splits: seq<IndexSplit>): seq<Split>
    requires forall j :: 0 <= j < |splits| ==> splits[j].Within(|rows|)
  {
    seq(|splits|, j requires 0 <= j < |splits| => RowsOf(rows, splits[j]))
  }

  /** The splits kept are exactly those of the choices that leave a row on both sides. */
  lemma {:induction false} SplitMembers(choices: seq<Choice>, groups: seq<Group>, embargo: nat, n: nat, split: IndexSplit)
    requires AllValid(choices, groups)
    ensures split in AllSplits(choices, groups, embargo, n)
       <==> split.train != [] && split.eval != []
            && exists c :: c in choices && ValidChoice(c, groups) && split == SplitFor(c, groups, embargo, n)
  {
    if choices != [] {
      assert ValidChoice(choices[0], groups);
      assert forall c :: c in choices <==> c == choices[0] || c in choices[1..];
      SplitMembers(choices[1..], groups, embargo, n, split);
    }
  }

  /** The rows of a split are the ordered rows at its positions, side by side. */
  ghost predicate RowsAt(split: Split, ordered: seq<Row>, at: IndexSplit) {
    && |split.train| == |at.train| && |split.eval| == |at.eval| && at.Within(|ordered|)
    && (forall j :: 0 <= j < |at.train| ==> split.train[j] == ordered[at.train[j]])
    && (forall j :: 0 <= j < |at.eval| ==> split.eval[j] == ordered[at.eval[j]])
  }

  predicate ValidParameters(n: nat, groupCount: int, evalGroupCount: int, embargo: int) {
    2 <= groupCount <= n && 0 < evalGroupCount < groupCount && embargo >= 0
  }

  /** The splits the generator yields, as rows in time order. */
  function CombinatorialPurgedSplits(rows: seq<Row>, groupCount: int, evalGroupCount: int, embargo: int)
    : Result<seq<Split>, SplitError>
  {
    var ordered := SortByTime(rows);
    if !ValidParameters(|ordered|, groupCount, evalGroupCount, embargo) then Failure(InvalidParameter)
    else Success(RowSplits(ordered, Splits(|ordered|, groupCount, evalGroupCount, embargo)))
  }

  /** The split of a choice of groups over the ordered rows, with a row on both sides. */
  ghost predicate PurgedBy(split: Split, ordered: seq<Row>, c: Choice, count: nat, k: nat, embargo: nat)
    requires count > 0
  {
    var groups := Groups(|ordered|, count);
    && IsCombination(c, 0, count, k) && ValidChoice(c, groups)
    && split.train != [] && split.eval != []
    && RowsAt(split, ordered, SplitFor(c, groups, embargo, |ordered|))
  }

  lemma SplitIsPurged(ordered: seq<Row>, count: nat, k: nat, embargo: nat, at: IndexSplit) returns (c: Choice)
    requires 0 < k < count && at in Splits(|ordered|, count, k, embargo)
    ensures at.Within(|ordered|) && PurgedBy(RowsOf(ordered, at), ordered, c, count, k, embargo)
  {
    var n, choices, groups := |ordered|, Combinations(0, count, k), Groups(|ordered|, count);
    ChoicesAreValid(n, count, k);
    SplitMembers(choices, groups, embargo, n, at);
    c :| c in choices && ValidChoice(c, groups) && at == SplitFor(c, groups, embargo, n);
  }

  lemma SortKeepsLength(rows: seq<Row>)
    ensures |SortByTime(rows)| == |rows|
  {
    assert |multiset(SortByTime(rows))| == |multiset(rows)|;
  }

  /** Splits are refused exactly for parameters that leave no groups, none to train on, or too few rows. */
  lemma RefusedParameters(rows: seq<Row>, groupCount: int, evalGroupCount: int, embargo: int)
    ensures CombinatorialPurgedSplits(rows, groupCount, evalGroupCount, embargo).Failure?
       <==> groupCount < 2 || evalGroupCount <= 0 || evalGroupCount >= groupCount || embargo < 0 || |rows| < groupCount
  {
    SortKeepsLength(rows);
  }

  lemma RowSplitIsPurged(ordered: seq<Row>, count: nat, k: nat, embargo: nat, splits: seq<IndexSplit>, j: nat) returns (c: Choice)
    requires 0 < k < count && splits == Splits(|ordered|, count, k, embargo) && j < |splits|
    ensures j < |RowSplits(ordered, splits)| && PurgedBy(RowSplits(ordered, splits)[j], ordered, c, count, k, embargo)
  {
    assert splits[j] in splits;
    c := SplitIsPurged(ordered, count, k, embargo, splits[j]);
  }

  lemma ValidIsYielded(rows: seq<Row>, groupCount: int, evalGroupCount: int, embargo: int, ordered: seq<Row>)
    requires ordered == SortByTime(rows) && ValidParameters(|ordered|, groupCount, evalGroupCount, embargo)
    ensures CombinatorialPurgedSplits(rows, groupCount, evalGroupCount, embargo)
         == Success(RowSplits(ordered, Splits(|ordered|, groupCount, evalGroupCount, embargo)))
  {
  }

  /** Every split yielded is that of some choice of groups: training rows on one side, evaluation rows on the other. */
  lemma YieldedSplitsArePurged(rows: seq<Row>, groupCount: int, evalGroupCount: int, embargo: int, splits: seq<Split>, j: nat)
    returns (c: Choice)
    requires ValidParameters(|rows|, groupCount, evalGroupCount, embargo) && j < |splits|
    requires CombinatorialPurgedSplits(rows, groupCount, evalGroupCount, embargo) == Success(splits)
    ensures PurgedBy(splits[j], SortByTime(rows), c, groupCount, evalGroupCount, embargo)
  {
    var ordered := SortByTime(rows);
    SortKeepsLength(rows);
    ValidIsYielded(rows, groupCount, evalGroupCount, embargo, ordered);
    c := RowSplitIsPurged(ordered, groupCount, evalGroupCount, embargo,
                          Splits(|ordered|, groupCount, evalGroupCount, embargo), j);
  }

  /** The loop over the choices of evaluation groups. */
  lemma RestOfSplits(choices: seq<Choice>, groups: seq<Group>, embargo: nat, n: nat, c: nat)
    requires AllValid(choices, groups) && c < |choices|
    ensures AllValid(choices[c..], groups) && AllValid(choices[c + 1..], groups) && ValidChoice(choices[c], groups)
    ensures var split, rest := SplitFor(choices[c], groups, embargo, n), AllSplits(choices[c + 1..], groups, embargo, n);
            AllSplits(choices[c..], groups, embargo, n)
            == if split.train == [] || split.eval == [] then rest else [split] + rest
  {
    assert choices[c..][0] == choices[c] && choices[c..][1..] == choices[c + 1..];
  }

  lemma OneSplitMore(ordered: seq<Row>, indexes: seq<IndexSplit>, split: IndexSplit, rest: seq<IndexSplit>)
    requires (forall j :: 0 <= j < |indexes| ==> indexes[j].Within(|ordered|)) && split.Within(|ordered|)
    ensures indexes + ([split] + rest) == (indexes + [split]) + rest
    ensures RowSplits(ordered, indexes + [split]) == RowSplits(ordered, indexes) + [RowsOf(ordered, split)]
  {
  }

  /** The splits of the choices before `rest`, as rows, and those still to come. */
  ghost predicate Yielded(splits: seq<Split>, ordered: seq<Row>, indexes: seq<IndexSplit>, rest: seq<Choice>,
                          choices: seq<Choice>, groups: seq<Group>, embargo: nat)
    requires AllValid(choices, groups)
  {
    && AllValid(rest, groups)
    && (forall j :: 0 <= j < |indexes| ==> indexes[j].Within(|ordered|))
    && splits == RowSplits(ordered, indexes)
    && indexes + AllSplits(rest, groups, embargo, |ordered|) == AllSplits(choices, groups, embargo, |ordered|)
  }

  lemma YieldNext(splits: seq<Split>, ordered: seq<Row>, indexes: seq<IndexSplit>, c: nat,
                  choices: seq<Choice>, groups: seq<Group>, embargo: nat, split: IndexSplit)
    requires AllValid(choices, groups) && c < |choices|
    requires Yielded(splits, ordered, indexes, choices[c..], choices, groups, embargo)
    requires ValidChoice(choices[c], groups) && split == SplitFor(choices[c], groups, embargo, |ordered|)
    ensures if split.train == [] || split.eval == []
            then Yielded(splits, ordered, indexes, choices[c + 1..], choices, groups, embargo)
            else Yielded(splits + [RowsOf(ordered, split)], ordered, indexes + [split],
                         choices[c + 1..], choices, groups, embargo)
  {
    RestOfSplits(choices, groups, embargo, |ordered|, c);
    OneSplitMore(ordered, indexes, split, AllSplits(choices[c + 1..], groups, embargo, |ordered|));
  }

  lemma YieldedFirst(ordered: seq<Row>, choices: seq<Choice>, groups: seq<Group>, embargo: nat)
    requires AllValid(choices, groups)
    ensures Yielded([], ordered, [], choices[0..], choices, groups, embargo)
  {
    assert choices[0..] == choices;
    assert [] + AllSplits(choices, groups, embargo, |ordered|) == AllSplits(choices, groups, embargo, |ordered|);
  }

  lemma YieldedLast(splits: seq<Split>, ordered: seq<Row>, indexes: seq<IndexSplit>, choices: seq<Choice>, groups: seq<Group>,
                    embargo: nat)
    requires AllValid(choices, groups) && Yielded(splits, ordered, indexes, choices[|choices|..], choices, groups, embargo)
    ensures splits == RowSplits(ordered, AllSplits(choices, groups, embargo, |ordered|))
  {
    assert AllSplits(choices[|choices|..], groups, embargo, |ordered|) == [];
  }

  method YieldPurgedSplits(ordered: seq<Row>, choices: seq<Choice>, groups: seq<Group>, embargo: nat)
    returns (splits: seq<Split>)
    requires AllValid(choices, groups)
    ensures splits == RowSplits(ordered, AllSplits(choices, groups, embargo, |ordered|))
  {
    splits := [];
    ghost var indexes: seq<IndexSplit> := [];
    YieldedFirst(ordered, choices, groups, embargo);
    for c := 0 to |choices|
      invariant Yielded(splits, ordered, indexes, choices[c..], choices, groups, embargo)
    {
      var split := PurgedSplit(choices[c], groups, embargo, |ordered|);
      YieldNext(splits, ordered, indexes, c, choices, groups, embargo, split);
      if split.train == [] || split.eval == [] {
        continue;
      }
      indexes := indexes + [split];
      splits := splits + [RowsOf(ordered, split)];
    }
    YieldedLast(splits, ordered, indexes, choices, groups, embargo);
  }

  method PurgedSplitsOfRows(rows: seq<Row>, groupCount: int, evalGroupCount: int, embargo: int)
    returns (r: Result<seq<Split>, SplitError>)
    ensures r == CombinatorialPurgedSplits(rows, groupCount, evalGroupCount, embargo)
  {
    var ordered := SortByTime(rows);
    if groupCount < 2 || evalGroupCount <= 0 || evalGroupCount >= groupCount || embargo < 0 || |ordered| < groupCount {
      return Failure(InvalidParameter);
    }
    var groups := ContiguousGroups(|ordered|, groupCount);
    ChoicesAreValid(|ordered|, groupCount, evalGroupCount);
    var splits := YieldPurgedSplits(ordered, Combinations(0, groupCount, evalGroupCount), groups, embargo);
    r := Success(splits);
  }

  /** How many splits evaluate row i. */
  function TimesEvaluated(splits: seq<IndexSplit>, i: nat): nat {
    if splits == [] then 0 else TimesEvaluated(splits[1..], i) + if i in splits[0].eval then 1 else 0
  }

  /** A group that a proper choice leaves out. */
  lemma {:induction false} UnchosenGroup(c: Choice, count: nat, k: nat, j: nat) returns (g: nat)
    requires IsCombination(c, 0, count, k) && k < count && j <= k
    requires forall i :: 0 <= i < j ==> c.picks[i] == i
    ensures g < count && g !in c.picks
    decreases k - j
  {
    if j < k && c.picks[j] == j {
      g := UnchosenGroup(c, count, k, j + 1);
    } else {
      g := j;
      assert j > 0 ==> c.picks[j - 1] == j - 1;
      assert j < k ==> c.picks[j] > j;
    }
  }

  lemma GroupsAreNonEmpty(n: nat, count: nat)
    requires 0 < count <= n
    ensures forall g :: 0 <= g < count ==> Groups(n, count)[g].start < Groups(n, count)[g].end <= n
  {
    assert n / count >= 1;
    forall g | 0 <= g < count
      ensures Groups(n, count)[g].start < Groups(n, count)[g].end <= n
    {
      GroupStartGrows(n, count, g);
      GroupStartMonotone(n, count, g + 1, count);
      assert count * (n / count) + n % count == n;
    }
  }

  /** A row is evaluated by a choice exactly when its group is chosen. */
  lemma EvaluatedMeansChosen(n: nat, count: nat, c: Choice, i: nat, g: nat)
    requires count > 0 && g < count && ValidChoice(c, Groups(n, count))
    requires forall h :: 0 <= h < count ==> (InGroup(i, Groups(n, count)[h]) <==> h == g)
    ensures Evaluated(i, c, Groups(n, count)) <==> g in c.picks
  {
    var groups := Groups(n, count);
    if g in c.picks {
      var j :| 0 <= j < |c.picks| && c.picks[j] == g;
      assert InGroup(i, groups[c.picks[j]]);
    }
    if Evaluated(i, c, groups) {
      var j :| 0 <= j < |c.picks| && groups[c.picks[j]].start <= i < groups[c.picks[j]].end;
      assert InGroup(i, groups[c.picks[j]]);
    }
  }

  /** Without an embargo no split is dropped. */
  lemma SplitIsKept(n: nat, count: nat, k: nat, c: Choice)
    requires 0 < k < count <= n && IsCombination(c, 0, count, k) && ValidChoice(c, Groups(n, count))
    ensures SplitFor(c, Groups(n, count), 0, n).train != [] && SplitFor(c, Groups(n, count), 0, n).eval != []
  {
    var groups := Groups(n, count);
    GroupsAreNonEmpty(n, count);
    assert groups[c.picks[0]].start in SplitFor(c, groups, 0, n).eval by {
      assert Evaluated(groups[c.picks[0]].start, c, groups);
    }
    var free := UnchosenGroup(c, count, k, 0);
    var i := groups[free].start;
    var g := OneGroupPerRow(n, count, i);
    assert InGroup(i, groups[free]);
    EvaluatedMeansChosen(n, count, c, i, g);
    assert i in SplitFor(c, groups, 0, n).train;
  }

  lemma {:induction false} CountSplits(n: nat, count: nat, k: nat, choices: seq<Choice>, i: nat, g: nat)
    requires 0 < k < count <= n && i < n && g < count
    requires forall h :: 0 <= h < count ==> (InGroup(i, Groups(n, count)[h]) <==> h == g)
    requires AllCombinations(choices, 0, count, k) && AllValid(choices, Groups(n, count))
    ensures var splits := AllSplits(choices, Groups(n, count), 0, n);
            |splits| == |choices| && TimesEvaluated(splits, i) == Containing(choices, g)
  {
    if choices != [] {
      var c := choices[0];
      assert c in choices && ValidChoice(c, Groups(n, count));
      SplitIsKept(n, count, k, c);
      EvaluatedMeansChosen(n, count, c, i, g);
      CountSplits(n, count, k, choices[1..], i, g);
      var split, rest := SplitFor(c, Groups(n, count), 0, n), AllSplits(choices[1..], Groups(n, count), 0, n);
      assert ([split] + rest)[1..] == rest;
    }
  }

  lemma SplitsFollowChoices(n: nat, count: nat, k: nat, i: nat) returns (g: nat)
    requires 0 < k < count <= n && i < n
    ensures g < count && |Splits(n, count, k, 0)| == Size(0, count, k)
    ensures TimesEvaluated(Splits(n, count, k, 0), i) == Occurrences(0, count, k, g)
  {
    g := OneGroupPerRow(n, count, i);
    ChoicesAreValid(n, count, k);
    CountSplits(n, count, k, Combinations(0, count, k), i, g);
  }

  lemma CountsFromZero(count: nat, k: nat, g: nat)
    requires g < count && k > 0
    ensures Size(0, count, k) == Binomial(count, k) && Occurrences(0, count, k, g) == Binomial(count - 1, k - 1)
  {
    SizeIsBinomial(0, count, k);
    OccurrenceCount(0, count, k, g);
  }

  /** Without an embargo there are C(G, k) splits and every row is evaluated in C(G - 1, k - 1) of them. */
  lemma EveryRowEvaluatedEquallyOften(n: nat, count: nat, k: nat, i: nat)
    requires 0 < k < count <= n && i < n
    ensures |Splits(n, count, k, 0)| == Binomial(count, k)
    ensures TimesEvaluated(Splits(n, count, k, 0), i) == Binomial(count - 1, k - 1)
  {
    var g := SplitsFollowChoices(n, count, k, i);
    CountsFromZero(count, k, g);
  }
}
