/** The public track record: accuracy and Brier score of graded claims by dimension and rolling window. */
module AnalystMetrics {
  import opened LinearAlgebra
  import opened Subsequences

  const PROVISIONAL_MIN := 30
  const DAY := 86400

  const WINDOWS := [7, 30, 0]

  datatype Dimension = Overall | ClaimType | Category | ModelVersion | PromptVersion

  datatype ClaimRecord = ClaimRecord(
    resolvedAt: int,
    status: string,
    confidence: real,
    direction: string,
    category: string,
    modelVersion: string,
    promptVersion: string)

  datatype GroupKey = GroupKey(dimension: Dimension, name: string)

  datatype BucketKey = BucketKey(group: GroupKey, window: int)

  /** One entry of the insertion-ordered dictionary of buckets. */
  datatype Bucket = Bucket(key: BucketKey, claims: seq<ClaimRecord>)

  datatype Aggregate = Aggregate(key: BucketKey, n: nat, accuracy: real, brier: real, provisional: bool)

  function Graded(record: ClaimRecord): bool {
    record.status == "correct" || record.status == "incorrect"
  }

  function InWindow(resolvedAt: int, now: int, window: int): bool {
    window == 0 || resolvedAt >= now - window * DAY
  }

  function OrElse(text: string, default: string): string {
    if text == "" then default else text
  }

  function GroupKeys(record: ClaimRecord): seq<GroupKey> {
    [GroupKey(Overall, "all"),
     GroupKey(ClaimType, record.direction),
     GroupKey(Category, OrElse(record.category, "Uncategorized")),
     GroupKey(ModelVersion, OrElse(record.modelVersion, "unknown")),
     GroupKey(PromptVersion, OrElse(record.promptVersion, "v1"))]
  }

  function Brier(record: ClaimRecord): real {
    var miss := record.confidence - (if record.status == "correct" then 1.0 else 0.0);
    Times(miss, miss)
  }

  // ---------- Bucketing ----------

  function Find(buckets: seq<Bucket>, key: BucketKey): (i: nat)
    ensures i <= |buckets|
    ensures i < |buckets| ==> buckets[i].key == key
    ensures forall j :: 0 <= j < i ==> buckets[j].key != key
  {
    if buckets == [] then 0
    else if buckets[0].key == key then 0
    else 1 + Find(buckets[1..], key)
  }

  /** Appends a claim to the bucket of its key, which a first claim creates. */
  function Insert(buckets: seq<Bucket>, key: BucketKey, record: ClaimRecord): seq<Bucket> {
    var i := Find(buckets, key);
    if i == |buckets| then buckets + [Bucket(key, [record])]
    else buckets[i := Bucket(key, buckets[i].claims + [record])]
  }

  /** One insertion. */
  datatype Entry = Entry(key: BucketKey, record: ClaimRecord)

  /** The insertions of a record into one window, up to its group key k. */
  function KeyEntries(record: ClaimRecord, window: int, k: nat): seq<Entry>
    requires k <= |GroupKeys(record)|
  {
    if k == 0 then []
    else KeyEntries(record, window, k - 1) + [Entry(BucketKey(GroupKeys(record)[k - 1], window), record)]
  }

  function WindowEntries(record: ClaimRecord, windows: seq<int>, now: int): seq<Entry> {
    if windows == [] then []
    else
      var window := windows[|windows| - 1];
      WindowEntries(record, windows[..|windows| - 1], now)
      + (if InWindow(record.resolvedAt, now, window) then KeyEntries(record, window, |GroupKeys(record)|) else [])
  }

  function Entries(records: seq<ClaimRecord>, windows: seq<int>, now: int): seq<Entry> {
    if records == [] then []
    else
      var record := records[|records| - 1];
      Entries(records[..|records| - 1], windows, now)
      + (if Graded(record) then WindowEntries(record, windows, now) else [])
  }

  function Grouped(entries: seq<Entry>): seq<Bucket> {
    if entries == [] then []
    else
      var last := entries[|entries| - 1];
      Insert(Grouped(entries[..|entries| - 1]), last.key, last.record)
  }

  function CorrectCount(claims: seq<ClaimRecord>): (c: nat)
    ensures c <= |claims|
  {
    if claims == [] then 0
    else CorrectCount(claims[..|claims| - 1]) + (if claims[|claims| - 1].status == "correct" then 1 else 0)
  }

  function BrierSum(claims: seq<ClaimRecord>): real {
    if claims == [] then 0.0
    else BrierSum(claims[..|claims| - 1]) + Brier(claims[|claims| - 1])
  }

  function AggregateOf(bucket: Bucket, provisionalMin: int): Aggregate
    requires bucket.claims != []
  {
    var n := |bucket.claims|;
    Aggregate(bucket.key, n, Quotient(CorrectCount(bucket.claims) as real, n as real),
              Quotient(BrierSum(bucket.claims), n as real), n < provisionalMin)
  }

  function AggregatesOf(buckets: seq<Bucket>, provisionalMin: int): (out: seq<Aggregate>)
    requires NonEmpty(buckets)
    ensures |out| == |buckets|
  {
    seq(|buckets|, i requires 0 <= i < |buckets| => AggregateOf(buckets[i], provisionalMin))
  }

  ghost predicate NonEmpty(buckets: seq<Bucket>) {
    forall i :: 0 <= i < |buckets| ==> buckets[i].claims != []
  }

  ghost predicate DistinctKeys(buckets: seq<Bucket>) {
    forall i, j :: 0 <= i < j < |buckets| ==> buckets[i].key != buckets[j].key
  }

  lemma InsertKeeps(buckets: seq<Bucket>, key: BucketKey, record: ClaimRecord)
    requires NonEmpty(buckets) && DistinctKeys(buckets)
    ensures NonEmpty(Insert(buckets, key, record)) && DistinctKeys(Insert(buckets, key, record))
  {
  }

  lemma {:induction false} GroupedIsProper(entries: seq<Entry>)
    ensures NonEmpty(Grouped(entries)) && DistinctKeys(Grouped(entries))
  {
    if entries != [] {
      GroupedIsProper(entries[..|entries| - 1]);
      InsertKeeps(Grouped(entries[..|entries| - 1]), entries[|entries| - 1].key, entries[|entries| - 1].record);
    }
  }

  lemma GroupedPush(entries: seq<Entry>, entry: Entry)
    ensures Grouped(entries + [entry]) == Insert(Grouped(entries), entry.key, entry.record)
  {
    assert (entries + [entry])[..|entries|] == entries;
  }

  /** The aggregates of the records, one for every bucket, in order of first insertion. */
  method AggregateClaims(records: seq<ClaimRecord>, now: int, windows: seq<int> := WINDOWS,
                         provisionalMin: int := PROVISIONAL_MIN) returns (out: seq<Aggregate>)
    ensures NonEmpty(Grouped(Entries(records, windows, now)))
    ensures out == AggregatesOf(Grouped(Entries(records, windows, now)), provisionalMin)
  {
    var buckets := BucketClaims(records, now, windows);
    GroupedIsProper(Entries(records, windows, now));
    out := [];
    for i := 0 to |buckets|
      invariant |out| == i
      invariant forall j :: 0 <= j < i ==> out[j] == AggregateOf(buckets[j], provisionalMin)
    {
      out := out + [AggregateOf(buckets[i], provisionalMin)];
    }
  }

  method BucketClaims(records: seq<ClaimRecord>, now: int, windows: seq<int>) returns (buckets: seq<Bucket>)
    ensures buckets == Grouped(Entries(records, windows, now))
  {
    buckets := [];
    for i := 0 to |records|
      invariant buckets == Grouped(Entries(records[..i], windows, now))
    {
      EntriesPush(records[..i], records[i], windows, now);
      assert records[..i] + [records[i]] == records[..i + 1];
      if !Graded(records[i]) {
        continue;
      }
      buckets := BucketRecord(buckets, Entries(records[..i], windows, now), records[i], now, windows);
    }
    assert records[..|records|] == records;
  }

  lemma EntriesPush(records: seq<ClaimRecord>, record: ClaimRecord, windows: seq<int>, now: int)
    ensures Entries(records + [record], windows, now)
         == if Graded(record) then Entries(records, windows, now) + WindowEntries(record, windows, now)
            else Entries(records, windows, now)
  {
    assert (records + [record])[..|records|] == records;
  }

  lemma WindowPush(record: ClaimRecord, windows: seq<int>, window: int, now: int)
    ensures WindowEntries(record, windows + [window], now)
         == if InWindow(record.resolvedAt, now, window)
            then WindowEntries(record, windows, now) + KeyEntries(record, window, |GroupKeys(record)|)
            else WindowEntries(record, windows, now)
  {
    assert (windows + [window])[..|windows|] == windows;
  }

  /** The insertions after earlier ones and the first j windows of a record. */
  ghost function Upto(done: seq<Entry>, record: ClaimRecord, windows: seq<int>, j: nat, now: int): seq<Entry>
    requires j <= |windows|
  {
    done + WindowEntries(record, windows[..j], now)
  }

  lemma UptoNext(done: seq<Entry>, record: ClaimRecord, windows: seq<int>, j: nat, now: int)
    requires j < |windows|
    ensures Upto(done, record, windows, j + 1, now)
         == if InWindow(record.resolvedAt, now, windows[j])
            then Upto(done, record, windows, j, now) + KeyEntries(record, windows[j], |GroupKeys(record)|)
            else Upto(done, record, windows, j, now)
  {
    WindowPush(record, windows[..j], windows[j], now);
    assert windows[..j] + [windows[j]] == windows[..j + 1];
    Associate(done, WindowEntries(record, windows[..j], now), KeyEntries(record, windows[j], |GroupKeys(record)|));
  }

  lemma UptoEnds(done: seq<Entry>, record: ClaimRecord, windows: seq<int>, now: int)
    ensures Upto(done, record, windows, 0, now) == done
    ensures Upto(done, record, windows, |windows|, now) == done + WindowEntries(record, windows, now)
  {
    assert windows[..|windows|] == windows && windows[..0] == [] && done + [] == done;
  }

  lemma Associate(a: seq<Entry>, b: seq<Entry>, c: seq<Entry>)
    ensures a + (b + c) == (a + b) + c
  {
  }

  method BucketRecord(before: seq<Bucket>, ghost done: seq<Entry>, record: ClaimRecord, now: int, windows: seq<int>)
    returns (buckets: seq<Bucket>)
    requires before == Grouped(done)
    ensures buckets == Grouped(done + WindowEntries(record, windows, now))
  {
    buckets := before;
    UptoEnds(done, record, windows, now);
    for j := 0 to |windows|
      invariant buckets == Grouped(Upto(done, record, windows, j, now))
    {
      UptoNext(done, record, windows, j, now);
      if InWindow(record.resolvedAt, now, windows[j]) {
        buckets := BucketKeys(buckets, Upto(done, record, windows, j, now), record, windows[j]);
      }
    }
  }

  method BucketKeys(before: seq<Bucket>, ghost done: seq<Entry>, record: ClaimRecord, window: int)
    returns (buckets: seq<Bucket>)
    requires before == Grouped(done)
    ensures buckets == Grouped(done + KeyEntries(record, window, |GroupKeys(record)|))
  {
    buckets := before;
    var keys := GroupKeys(record);
    assert done + [] == done;
    for k := 0 to |keys|
      invariant buckets == Grouped(done + KeyEntries(record, window, k))
    {
      var key := BucketKey(keys[k], window);
      GroupedPush(done + KeyEntries(record, window, k), Entry(key, record));
      assert done + KeyEntries(record, window, k + 1) == done + KeyEntries(record, window, k) + [Entry(key, record)];
      buckets := Insert(buckets, key, record);
    }
  }

  // ---------- One pass is the filter ----------

  /** The claims of a bucket; none if there is no such bucket. */
  function ClaimsAt(buckets: seq<Bucket>, key: BucketKey): seq<ClaimRecord> {
    var i := Find(buckets, key);
    if i < |buckets| then buckets[i].claims else []
  }

  /** A record's name in a dimension. */
  function NameIn(record: ClaimRecord, dimension: Dimension): string {
    match dimension
    case Overall => "all"
    case ClaimType => record.direction
    case Category => OrElse(record.category, "Uncategorized")
    case ModelVersion => OrElse(record.modelVersion, "unknown")
    case PromptVersion => OrElse(record.promptVersion, "v1")
  }

  /** What a selection of insertions asks for: one key, or every key of a dimension and window. */
  datatype Pattern = Exactly(key: BucketKey) | AnyName(dimension: Dimension, window: int)

  function Window(pattern: Pattern): int {
    match pattern
    case Exactly(key) => key.window
    case AnyName(_, window) => window
  }

  predicate Fits(key: BucketKey, pattern: Pattern) {
    match pattern
    case Exactly(wanted) => key == wanted
    case AnyName(dimension, window) => key.group.dimension == dimension && key.window == window
  }

  predicate Belongs(record: ClaimRecord, pattern: Pattern, now: int) {
    && Graded(record)
    && InWindow(record.resolvedAt, now, Window(pattern))
    && (pattern.Exactly? ==> NameIn(record, pattern.key.group.dimension) == pattern.key.group.name)
  }

  function Count(windows: seq<int>, window: int): nat {
    if windows == [] then 0
    else Count(windows[..|windows| - 1], window) + (if windows[|windows| - 1] == window then 1 else 0)
  }

  function Copies(record: ClaimRecord, n: nat): (s: seq<ClaimRecord>)
    ensures |s| == n
  {
    seq(n, _ => record)
  }

  /** The records belonging to a pattern, each the given number of times. */
  function Filtered(records: seq<ClaimRecord>, pattern: Pattern, now: int, times: nat): seq<ClaimRecord> {
    if records == [] then []
    else
      var record := records[|records| - 1];
      Filtered(records[..|records| - 1], pattern, now, times)
      + (if Belongs(record, pattern, now) then Copies(record, times) else [])
  }

  /** The records inserted under a pattern, in order. */
  function Selected(entries: seq<Entry>, pattern: Pattern): seq<ClaimRecord> {
    if entries == [] then []
    else
      var last := entries[|entries| - 1];
      Selected(entries[..|entries| - 1], pattern) + (if Fits(last.key, pattern) then [last.record] else [])
  }

  lemma {:induction false} SelectedSum(a: seq<Entry>, b: seq<Entry>, pattern: Pattern)
    ensures Selected(a + b, pattern) == Selected(a, pattern) + Selected(b, pattern)
  {
    if b == [] {
      assert a + b == a;
    } else {
      SelectedSum(a, b[..|b| - 1], pattern);
      assert (a + b)[..|a + b| - 1] == a + b[..|b| - 1];
    }
  }

  lemma FindIs(buckets: seq<Bucket>, key: BucketKey, i: nat)
    requires i < |buckets| && buckets[i].key == key && forall j :: 0 <= j < i ==> buckets[j].key != key
    ensures Find(buckets, key) == i
  {
  }

  lemma InsertClaims(buckets: seq<Bucket>, key: BucketKey, record: ClaimRecord, other: BucketKey)
    ensures ClaimsAt(Insert(buckets, key, record), other)
         == ClaimsAt(buckets, other) + (if key == other then [record] else [])
    ensures (Find(Insert(buckets, key, record), other) < |Insert(buckets, key, record)|)
        <==> (key == other || Find(buckets, other) < |buckets|)
  {
    var i, j := Find(buckets, key), Find(buckets, other);
    var after := Insert(buckets, key, record);
    if key == other {
      FindIs(after, other, i);
    } else if j < |buckets| {
      FindIs(after, other, j);
    }
  }

  /** The position of a dimension among the group keys. */
  function Position(dimension: Dimension): nat {
    match dimension
    case Overall => 0
    case ClaimType => 1
    case Category => 2
    case ModelVersion => 3
    case PromptVersion => 4
  }

  lemma GroupKeyAt(record: ClaimRecord, k: nat)
    requires k < |GroupKeys(record)|
    ensures Position(GroupKeys(record)[k].dimension) == k
    ensures GroupKeys(record)[k] == GroupKey(GroupKeys(record)[k].dimension, NameIn(record, GroupKeys(record)[k].dimension))
  {
  }

  lemma SelectedPush(entries: seq<Entry>, entry: Entry, pattern: Pattern)
    ensures Selected(entries + [entry], pattern)
         == Selected(entries, pattern) + (if Fits(entry.key, pattern) then [entry.record] else [])
  {
    assert (entries + [entry])[..|entries|] == entries;
  }

  lemma SamePosition(d: Dimension, e: Dimension)
    requires Position(d) == Position(e)
    ensures d == e
  {
  }

  function DimensionOf(pattern: Pattern): Dimension {
    match pattern
    case Exactly(key) => key.group.dimension
    case AnyName(dimension, _) => dimension
  }

  /** The group key at a position fits a pattern exactly if the pattern asks for that position and the record belongs. */
  lemma KeyFits(record: ClaimRecord, window: int, k: nat, pattern: Pattern, now: int)
    requires k < |GroupKeys(record)| && Graded(record) && InWindow(record.resolvedAt, now, window)
    ensures Fits(BucketKey(GroupKeys(record)[k], window), pattern)
       <==> Window(pattern) == window && Position(DimensionOf(pattern)) == k && Belongs(record, pattern, now)
  {
    GroupKeyAt(record, k);
    if Position(DimensionOf(pattern)) == k {
      SamePosition(DimensionOf(pattern), GroupKeys(record)[k].dimension);
    }
  }

  /** Among its first k group keys a record is inserted at most once per window under any one pattern. */
  ghost predicate SelectedOnce(record: ClaimRecord, window: int, k: nat, pattern: Pattern, now: int)
    requires k <= |GroupKeys(record)|
  {
    Selected(KeyEntries(record, window, k), pattern)
    == if Window(pattern) == window && Position(DimensionOf(pattern)) < k && Belongs(record, pattern, now) then [record] else []
  }

  lemma OneKeyMore(record: ClaimRecord, window: int, k: nat, pattern: Pattern, now: int)
    requires k < |GroupKeys(record)| && Graded(record) && InWindow(record.resolvedAt, now, window)
    requires SelectedOnce(record, window, k, pattern, now)
    ensures SelectedOnce(record, window, k + 1, pattern, now)
  {
    KeyFits(record, window, k, pattern, now);
    SelectedPush(KeyEntries(record, window, k), Entry(BucketKey(GroupKeys(record)[k], window), record), pattern);
  }

  lemma {:induction false} SelectedOfKeys(record: ClaimRecord, window: int, k: nat, pattern: Pattern, now: int)
    requires k <= |GroupKeys(record)| && Graded(record) && InWindow(record.resolvedAt, now, window)
    ensures SelectedOnce(record, window, k, pattern, now)
  {
    if k > 0 {
      SelectedOfKeys(record, window, k - 1, pattern, now);
      OneKeyMore(record, window, k - 1, pattern, now);
    }
  }

  function CopiesIf(record: ClaimRecord, belongs: bool, n: nat): seq<ClaimRecord> {
    if belongs then Copies(record, n) else []
  }

  lemma OneCopyMore(record: ClaimRecord, belongs: bool, n: nat)
    ensures CopiesIf(record, belongs, n) + (if belongs then [record] else []) == CopiesIf(record, belongs, n + 1)
    ensures CopiesIf(record, belongs, n) + [] == CopiesIf(record, belongs, n)
  {
  }

  lemma CountPush(windows: seq<int>, last: int, window: int)
    ensures Count(windows + [last], window) == Count(windows, window) + (if last == window then 1 else 0)
  {
    assert (windows + [last])[..|windows|] == windows;
  }

  /** The insertions of a record, window by window. */
  ghost predicate CopiesSelected(record: ClaimRecord, windows: seq<int>, now: int, pattern: Pattern) {
    Selected(WindowEntries(record, windows, now), pattern)
    == CopiesIf(record, Belongs(record, pattern, now), Count(windows, Window(pattern)))
  }

  /** A record's insertions under one window. */
  lemma SelectedOfWindow(record: ClaimRecord, window: int, now: int, pattern: Pattern)
    requires Graded(record) && InWindow(record.resolvedAt, now, window)
    ensures Selected(KeyEntries(record, window, |GroupKeys(record)|), pattern)
         == if Window(pattern) == window && Belongs(record, pattern, now) then [record] else []
  {
    SelectedOfKeys(record, window, |GroupKeys(record)|, pattern, now);
  }

  lemma OneWindowMore(record: ClaimRecord, windows: seq<int>, window: int, now: int, pattern: Pattern)
    requires Graded(record) && CopiesSelected(record, windows, now, pattern)
    ensures CopiesSelected(record, windows + [window], now, pattern)
  {
    WindowPush(record, windows, window, now);
    CountPush(windows, window, Window(pattern));
    if InWindow(record.resolvedAt, now, window) {
      SelectedOfWindow(record, window, now, pattern);
      SelectedSum(WindowEntries(record, windows, now), KeyEntries(record, window, |GroupKeys(record)|), pattern);
      OneCopyMore(record, Belongs(record, pattern, now), Count(windows, Window(pattern)));
    }
  }

  lemma {:induction false} SelectedOfWindows(record: ClaimRecord, windows: seq<int>, now: int, pattern: Pattern)
    requires Graded(record)
    ensures CopiesSelected(record, windows, now, pattern)
  {
    if windows != [] {
      var init, window := windows[..|windows| - 1], windows[|windows| - 1];
      SelectedOfWindows(record, init, now, pattern);
      OneWindowMore(record, init, window, now, pattern);
      assert init + [window] == windows;
    }
  }

  lemma {:induction false} SelectedIsFiltered(records: seq<ClaimRecord>, windows: seq<int>, now: int, pattern: Pattern)
    ensures Selected(Entries(records, windows, now), pattern)
         == Filtered(records, pattern, now, Count(windows, Window(pattern)))
  {
    if records != [] {
      var init, record := records[..|records| - 1], records[|records| - 1];
      SelectedIsFiltered(init, windows, now, pattern);
      EntriesPush(init, record, windows, now);
      assert init + [record] == records;
      if Graded(record) {
        SelectedOfWindows(record, windows, now, pattern);
        SelectedSum(Entries(init, windows, now), WindowEntries(record, windows, now), pattern);
      }
    }
  }

  lemma {:induction false} GroupedIsSelected(entries: seq<Entry>, key: BucketKey)
    ensures ClaimsAt(Grouped(entries), key) == Selected(entries, Exactly(key))
  {
    if entries != [] {
      var last := entries[|entries| - 1];
      GroupedIsSelected(entries[..|entries| - 1], key);
      InsertClaims(Grouped(entries[..|entries| - 1]), last.key, last.record, key);
    }
  }

  /** One-pass bucketing is the filter: the bucket of a key holds exactly its records, in order. */
  lemma BucketIsFilter(records: seq<ClaimRecord>, windows: seq<int>, now: int, key: BucketKey)
    ensures var buckets := Grouped(Entries(records, windows, now));
            var claims := Filtered(records, Exactly(key), now, Count(windows, key.window));
            && ClaimsAt(buckets, key) == claims
            && (Find(buckets, key) < |buckets| <==> claims != [])
  {
    SelectedIsFiltered(records, windows, now, Exactly(key));
    GroupedIsSelected(Entries(records, windows, now), key);
    GroupedIsProper(Entries(records, windows, now));
  }

  lemma {:induction false} WiderWindowKeepsClaims(records: seq<ClaimRecord>, group: GroupKey, now: int, narrow: int, wide: int)
    requires 0 < narrow && (wide == 0 || narrow <= wide)
    ensures Subsequence(Filtered(records, Exactly(BucketKey(group, narrow)), now, 1),
                        Filtered(records, Exactly(BucketKey(group, wide)), now, 1))
  {
    if records != [] {
      var init, record := records[..|records| - 1], records[|records| - 1];
      var few := Filtered(init, Exactly(BucketKey(group, narrow)), now, 1);
      var many := Filtered(init, Exactly(BucketKey(group, wide)), now, 1);
      WiderWindowKeepsClaims(init, group, now, narrow, wide);
      SubsequenceAppend(few, many, record);
      assert Copies(record, 1) == [record] && few + [] == few && many + [] == many;
    }
  }

  /** The claims of a group over seven days are among those over thirty, and those among those of all time. */
  lemma WindowsAreNested(records: seq<ClaimRecord>, group: GroupKey, now: int)
    ensures var buckets := Grouped(Entries(records, WINDOWS, now));
            && Subsequence(ClaimsAt(buckets, BucketKey(group, 7)), ClaimsAt(buckets, BucketKey(group, 30)))
            && Subsequence(ClaimsAt(buckets, BucketKey(group, 30)), ClaimsAt(buckets, BucketKey(group, 0)))
  {
    BucketIsFilter(records, WINDOWS, now, BucketKey(group, 7));
    BucketIsFilter(records, WINDOWS, now, BucketKey(group, 30));
    BucketIsFilter(records, WINDOWS, now, BucketKey(group, 0));
    EachWindowOnce();
    WiderWindowKeepsClaims(records, group, now, 7, 30);
    WiderWindowKeepsClaims(records, group, now, 30, 0);
  }

  lemma EachWindowOnce()
    ensures Count(WINDOWS, 7) == Count(WINDOWS, 30) == Count(WINDOWS, 0) == 1
  {
    assert WINDOWS[..2] == [7, 30] && [7, 30][..1] == [7] && [7][..0] == [];
  }

  // ---------- Conservation ----------

  /** Claims, correct claims, and the sum of their Brier scores. */
  datatype Totals = Totals(n: int, correct: real, brier: real)

  const NOTHING := Totals(0, 0.0, 0.0)

  function Plus(a: Totals, b: Totals): Totals {
    Totals(a.n + b.n, a.correct + b.correct, a.brier + b.brier)
  }

  /** What one claim adds to the totals. */
  type Share = ClaimRecord -> Totals

  function One(record: ClaimRecord): Totals {
    Totals(1, if record.status == "correct" then 1.0 else 0.0, Brier(record))
  }

  function TotalsOf(claims: seq<ClaimRecord>, one: Share): Totals {
    if claims == [] then NOTHING else Plus(TotalsOf(claims[..|claims| - 1], one), one(claims[|claims| - 1]))
  }

  lemma {:induction false} TotalsAre(claims: seq<ClaimRecord>)
    ensures TotalsOf(claims, One) == Totals(|claims|, CorrectCount(claims) as real, BrierSum(claims))
  {
    if claims != [] {
      TotalsAre(claims[..|claims| - 1]);
    }
  }

  /** What an aggregate says of its claims: its rates times their number. */
  function TotalsIn(a: Aggregate): Totals {
    Totals(a.n, Times(a.n as real, a.accuracy), Times(a.n as real, a.brier))
  }

  /** All a dimension says of a window, summed over its keys. */
  function DimensionTotals(out: seq<Aggregate>, dimension: Dimension, window: int): Totals {
    if out == [] then NOTHING
    else
      var last := out[|out| - 1];
      Plus(DimensionTotals(out[..|out| - 1], dimension, window),
           if Fits(last.key, AnyName(dimension, window)) then TotalsIn(last) else NOTHING)
  }

  function BucketTotals(buckets: seq<Bucket>, pattern: Pattern, one: Share): Totals {
    if buckets == [] then NOTHING
    else
      var last := buckets[|buckets| - 1];
      Plus(BucketTotals(buckets[..|buckets| - 1], pattern, one),
           FittingTotals(last, pattern, one))
  }

  function FittingTotals(bucket: Bucket, pattern: Pattern, one: Share): Totals {
    if Fits(bucket.key, pattern) then TotalsOf(bucket.claims, one) else NOTHING
  }

  function FittingShare(key: BucketKey, record: ClaimRecord, pattern: Pattern, one: Share): Totals {
    if Fits(key, pattern) then one(record) else NOTHING
  }

  lemma AggregateKeepsTotals(bucket: Bucket, provisionalMin: int)
    requires bucket.claims != []
    ensures TotalsIn(AggregateOf(bucket, provisionalMin)) == TotalsOf(bucket.claims, One)
  {
    TotalsAre(bucket.claims);
    MultiplyBack(CorrectCount(bucket.claims) as real, |bucket.claims| as real);
    MultiplyBack(BrierSum(bucket.claims), |bucket.claims| as real);
  }

  lemma {:induction false} AggregatesKeepTotals(buckets: seq<Bucket>, provisionalMin: int, dimension: Dimension, window: int)
    requires NonEmpty(buckets)
    ensures DimensionTotals(AggregatesOf(buckets, provisionalMin), dimension, window)
         == BucketTotals(buckets, AnyName(dimension, window), One)
  {
    if buckets != [] {
      var init, last := buckets[..|buckets| - 1], buckets[|buckets| - 1];
      AggregatesKeepTotals(init, provisionalMin, dimension, window);
      AggregateKeepsTotals(last, provisionalMin);
      assert AggregatesOf(buckets, provisionalMin)[..|init|] == AggregatesOf(init, provisionalMin);
    }
  }

  lemma TotalsPush(claims: seq<ClaimRecord>, record: ClaimRecord, one: Share)
    ensures TotalsOf(claims + [record], one) == Plus(TotalsOf(claims, one), one(record))
  {
    assert (claims + [record])[..|claims|] == claims;
  }

  lemma PlusRegroups(a: Totals, b: Totals, c: Totals)
    ensures Plus(Plus(a, b), c) == Plus(Plus(a, c), b) == Plus(a, Plus(b, c))
    ensures Plus(a, NOTHING) == a == Plus(NOTHING, a)
  {
  }

  lemma BucketPush(buckets: seq<Bucket>, bucket: Bucket, pattern: Pattern, one: Share)
    ensures BucketTotals(buckets + [bucket], pattern, one)
         == Plus(BucketTotals(buckets, pattern, one), FittingTotals(bucket, pattern, one))
  {
    assert (buckets + [bucket])[..|buckets|] == buckets;
  }

  lemma ClaimPush(key: BucketKey, claims: seq<ClaimRecord>, record: ClaimRecord, pattern: Pattern, one: Share)
    ensures FittingTotals(Bucket(key, claims + [record]), pattern, one)
         == Plus(FittingTotals(Bucket(key, claims), pattern, one), FittingShare(key, record, pattern, one))
  {
    TotalsPush(claims, record, one);
    PlusRegroups(NOTHING, NOTHING, NOTHING);
  }

  lemma UpdateLast(init: seq<Bucket>, last: Bucket, record: ClaimRecord, pattern: Pattern, one: Share)
    ensures BucketTotals(init + [Bucket(last.key, last.claims + [record])], pattern, one)
         == Plus(BucketTotals(init + [last], pattern, one), FittingShare(last.key, record, pattern, one))
  {
    BucketPush(init, last, pattern, one);
    BucketPush(init, Bucket(last.key, last.claims + [record]), pattern, one);
    ClaimPush(last.key, last.claims, record, pattern, one);
    PlusRegroups(BucketTotals(init, pattern, one), FittingTotals(last, pattern, one),
                 FittingShare(last.key, record, pattern, one));
  }

  /** One more claim in bucket i. */
  lemma {:induction false} BucketUpdate(buckets: seq<Bucket>, i: nat, record: ClaimRecord, pattern: Pattern, one: Share)
    requires i < |buckets|
    ensures BucketTotals(buckets[i := Bucket(buckets[i].key, buckets[i].claims + [record])], pattern, one)
         == Plus(BucketTotals(buckets, pattern, one), FittingShare(buckets[i].key, record, pattern, one))
  {
    var changed := Bucket(buckets[i].key, buckets[i].claims + [record]);
    var init, last := buckets[..|buckets| - 1], buckets[|buckets| - 1];
    assert init + [last] == buckets;
    if i == |init| {
      assert buckets[i := changed] == init + [changed];
      UpdateLast(init, last, record, pattern, one);
    } else {
      assert buckets[i := changed] == init[i := changed] + [last];
      BucketUpdate(init, i, record, pattern, one);
      BucketPush(init[i := changed], last, pattern, one);
      BucketPush(init, last, pattern, one);
      PlusRegroups(BucketTotals(init, pattern, one), FittingTotals(last, pattern, one),
                   FittingShare(changed.key, record, pattern, one));
    }
  }

  lemma InsertTotals(buckets: seq<Bucket>, key: BucketKey, record: ClaimRecord, pattern: Pattern, one: Share)
    ensures BucketTotals(Insert(buckets, key, record), pattern, one)
         == Plus(BucketTotals(buckets, pattern, one), FittingShare(key, record, pattern, one))
  {
    var i := Find(buckets, key);
    if i == |buckets| {
      assert [] + [record] == [record];
      ClaimPush(key, [], record, pattern, one);
      PlusRegroups(FittingShare(key, record, pattern, one), NOTHING, NOTHING);
      BucketPush(buckets, Bucket(key, [record]), pattern, one);
    } else {
      BucketUpdate(buckets, i, record, pattern, one);
    }
  }

  lemma SelectedTotals(entries: seq<Entry>, entry: Entry, pattern: Pattern, one: Share)
    ensures TotalsOf(Selected(entries + [entry], pattern), one)
         == Plus(TotalsOf(Selected(entries, pattern), one), FittingShare(entry.key, entry.record, pattern, one))
  {
    SelectedPush(entries, entry, pattern);
    TotalsPush(Selected(entries, pattern), entry.record, one);
    PlusRegroups(TotalsOf(Selected(entries, pattern), one), NOTHING, NOTHING);
    assert Selected(entries, pattern) + [] == Selected(entries, pattern);
  }

  lemma {:induction false} GroupedKeepsTotals(entries: seq<Entry>, pattern: Pattern, one: Share)
    ensures BucketTotals(Grouped(entries), pattern, one) == TotalsOf(Selected(entries, pattern), one)
  {
    if entries != [] {
      var init, last := entries[..|entries| - 1], entries[|entries| - 1];
      assert init + [last] == entries;
      GroupedKeepsTotals(init, pattern, one);
      GroupedPush(init, last);
      InsertTotals(Grouped(init), last.key, last.record, pattern, one);
      SelectedTotals(init, last, pattern, one);
    }
  }

  lemma {:induction false} EveryNameFits(records: seq<ClaimRecord>, dimension: Dimension, window: int, now: int, times: nat)
    ensures Filtered(records, AnyName(dimension, window), now, times)
         == Filtered(records, Exactly(BucketKey(GroupKey(Overall, "all"), window)), now, times)
  {
    if records != [] {
      EveryNameFits(records[..|records| - 1], dimension, window, now, times);
    }
  }

  lemma DimensionAddsUp(records: seq<ClaimRecord>, windows: seq<int>, now: int, provisionalMin: int,
                        dimension: Dimension, window: int)
    requires NonEmpty(Grouped(Entries(records, windows, now)))
    ensures DimensionTotals(AggregatesOf(Grouped(Entries(records, windows, now)), provisionalMin), dimension, window)
         == TotalsOf(Filtered(records, Exactly(BucketKey(GroupKey(Overall, "all"), window)), now, Count(windows, window)), One)
  {
    var entries := Entries(records, windows, now);
    AggregatesKeepTotals(Grouped(entries), provisionalMin, dimension, window);
    GroupedKeepsTotals(entries, AnyName(dimension, window), One);
    SelectedIsFiltered(records, windows, now, AnyName(dimension, window));
    EveryNameFits(records, dimension, window, now, Count(windows, window));
  }

  /**
   * In every dimension and window, counts, correct counts and Brier sums over the keys add up to those
   * of the graded records in the window, and so to those of the overall dimension.
   */
  lemma EveryDimensionAddsUp(records: seq<ClaimRecord>, windows: seq<int>, now: int, provisionalMin: int,
                             dimension: Dimension, window: int)
    ensures var buckets := Grouped(Entries(records, windows, now));
            var claims := Filtered(records, Exactly(BucketKey(GroupKey(Overall, "all"), window)), now, Count(windows, window));
            && NonEmpty(buckets)
            && var out := AggregatesOf(buckets, provisionalMin);
               && DimensionTotals(out, dimension, window) == DimensionTotals(out, Overall, window)
               && DimensionTotals(out, dimension, window)
                  == Totals(|claims|, CorrectCount(claims) as real, BrierSum(claims))
  {
    GroupedIsProper(Entries(records, windows, now));
    DimensionAddsUp(records, windows, now, provisionalMin, dimension, window);
    DimensionAddsUp(records, windows, now, provisionalMin, Overall, window);
    TotalsAre(Filtered(records, Exactly(BucketKey(GroupKey(Overall, "all"), window)), now, Count(windows, window)));
  }

  /** How far each stated confidence was from what happened. */
  function Misses(claims: seq<ClaimRecord>): (m: Vec)
    ensures |m| == |claims|
    ensures forall i :: 0 <= i < |m| ==> m[i] == claims[i].confidence - (if claims[i].status == "correct" then 1.0 else 0.0)
  {
    seq(|claims|, i requires 0 <= i < |claims| => claims[i].confidence - (if claims[i].status == "correct" then 1.0 else 0.0))
  }

  lemma {:induction false} BriersAreSquaredMisses(claims: seq<ClaimRecord>)
    ensures BrierSum(claims) == Dot(Misses(claims), Misses(claims))
  {
    if claims != [] {
      var init, last := claims[..|claims| - 1], claims[|claims| - 1];
      var miss := Misses(claims)[|claims| - 1];
      BriersAreSquaredMisses(init);
      DotPush(Misses(init), Misses(init), miss, miss);
      assert Misses(claims) == Misses(init) + [miss];
    }
  }

  /** The rates of a bucket: the share of correct claims, the mean squared miss, and a mark for too few claims. */
  lemma AggregateMeans(bucket: Bucket, provisionalMin: int)
    requires bucket.claims != []
    ensures var a, n := AggregateOf(bucket, provisionalMin), |bucket.claims|;
            && a.key == bucket.key && a.n == n && (a.provisional <==> n < provisionalMin)
            && Times(n as real, a.accuracy) == |Correct(bucket.claims)| as real
            && Times(n as real, a.brier) == Dot(Misses(bucket.claims), Misses(bucket.claims))
  {
    MultiplyBack(CorrectCount(bucket.claims) as real, |bucket.claims| as real);
    MultiplyBack(BrierSum(bucket.claims), |bucket.claims| as real);
    BriersAreSquaredMisses(bucket.claims);
    CorrectAreCounted(bucket.claims);
  }

  /** The places of the correct claims. */
  function Correct(claims: seq<ClaimRecord>): (places: seq<nat>)
    ensures forall j :: j in places <==> 0 <= j < |claims| && claims[j].status == "correct"
    ensures forall i, j :: 0 <= i < j < |places| ==> places[i] < places[j] < |claims|
    ensures forall i :: 0 <= i < |places| ==> places[i] < |claims|
  {
    if claims == [] then []
    else
      var n := |claims| - 1;
      Correct(claims[..n]) + (if claims[n].status == "correct" then [n] else [])
  }

  lemma {:induction false} CorrectAreCounted(claims: seq<ClaimRecord>)
    ensures CorrectCount(claims) == |Correct(claims)|
  {
    if claims != [] {
      CorrectAreCounted(claims[..|claims| - 1]);
    }
  }

  /** A claim is in a window of some days if it was resolved that long before or later; window zero takes all. */
  lemma WindowMeansDays(resolvedAt: int, now: int, window: int)
    ensures InWindow(resolvedAt, now, window) <==> window == 0 || now - resolvedAt <= 86400 * window
  {
  }

  /** Keys never repeat among the aggregates, and each stands for at least one claim. */
  lemma AggregatesAreProper(records: seq<ClaimRecord>, windows: seq<int>, now: int, provisionalMin: int)
    ensures var buckets := Grouped(Entries(records, windows, now));
            && NonEmpty(buckets)
            && var out := AggregatesOf(buckets, provisionalMin);
               && (forall i :: 0 <= i < |out| ==> out[i].n > 0)
               && forall i, j :: 0 <= i < j < |out| ==> out[i].key != out[j].key
  {
    GroupedIsProper(Entries(records, windows, now));
  }
}
