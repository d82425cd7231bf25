/** Versioned agent clones: append-only rows, soft deletion, vetted node lists and traced runs. */
module CloneService {
  import opened Subsequences
  import opened Wrappers

  datatype Node = Node(name: string)
  datatype User = User(id: int)
  datatype CloneId = CloneId(id: int)

  const EDGE_MIN: real := 0.0
  const EDGE_MAX: real := 0.5
  const COOLDOWN_MIN := 60
  const COOLDOWN_MAX := 10080
  const NAME_MAX := 128

  datatype ServiceError = NoNodes | UnknownNode | NotFoundOrDenied

  // ---------- Validation ----------

  function ClampEdge(v: real): (r: real)
    ensures EDGE_MIN <= r <= EDGE_MAX
    ensures EDGE_MIN <= v <= EDGE_MAX ==> r == v
  {
    var capped := if v < EDGE_MAX then v else EDGE_MAX;
    if capped > EDGE_MIN then capped else EDGE_MIN
  }

  function ClampCooldown(v: int): (r: int)
    ensures COOLDOWN_MIN <= r <= COOLDOWN_MAX
    ensures COOLDOWN_MIN <= v <= COOLDOWN_MAX ==> r == v
  {
    var capped := if v < COOLDOWN_MAX then v else COOLDOWN_MAX;
    if capped > COOLDOWN_MIN then capped else COOLDOWN_MIN
  }

  /** A stored number within its bounds. */
  predicate InBounds(edge: real, cooldown: int) {
    0.0 <= edge <= 0.5 && 60 <= cooldown <= 10080
  }

  function Gap(a: real, b: real): real {
    if a < b then b - a else a - b
  }

  /** The stored numbers lie within the bounds, and nothing within them is nearer to the given ones. */
  lemma ClampIsNearest(edge: real, otherEdge: real, cooldown: int, otherCooldown: int)
    requires InBounds(otherEdge, otherCooldown)
    ensures InBounds(ClampEdge(edge), ClampCooldown(cooldown))
    ensures Gap(edge, ClampEdge(edge)) <= Gap(edge, otherEdge)
    ensures Gap(cooldown as real, ClampCooldown(cooldown) as real) <= Gap(cooldown as real, otherCooldown as real)
  {
  }

  /** The characters Python takes for white space. */
  predicate IsSpace(c: char) {
    var u := c as int;
    || 9 <= u <= 13 || 28 <= u <= 32 || u == 0x85 || u == 0xa0 || u == 0x1680 || 0x2000 <= u <= 0x200a
    || u == 0x2028 || u == 0x2029 || u == 0x202f || u == 0x205f || u == 0x3000
  }

  function StripLeft(text: string): string {
    if text != "" && IsSpace(text[0]) then StripLeft(text[1..]) else text
  }

  function StripRight(text: string): string {
    if text != "" && IsSpace(text[|text| - 1]) then StripRight(text[..|text| - 1]) else text
  }

  ghost predicate AllSpace(text: string) {
    forall i :: 0 <= i < |text| ==> IsSpace(text[i])
  }

  lemma {:induction false} StripLeftFacts(text: string) returns (head: string)
    ensures text == head + StripLeft(text) && AllSpace(head)
    ensures StripLeft(text) != "" ==> !IsSpace(StripLeft(text)[0])
  {
    head := "";
    if text != "" && IsSpace(text[0]) {
      head := StripLeftFacts(text[1..]);
      head := [text[0]] + head;
      assert text == [text[0]] + text[1..];
    }
  }

  lemma StripRightPush(text: string, c: char)
    ensures StripRight(text + [c]) == if IsSpace(c) then StripRight(text) else text + [c]
  {
    assert (text + [c])[..|text|] == text;
  }

  lemma {:induction false} StripRightFacts(text: string) returns (tail: string)
    ensures text == StripRight(text) + tail && AllSpace(tail)
    ensures StripRight(text) != "" ==> !IsSpace(StripRight(text)[|StripRight(text)| - 1])
  {
    tail := "";
    if text != "" {
      var init, c := text[..|text| - 1], text[|text| - 1];
      assert text == init + [c];
      StripRightPush(init, c);
      if IsSpace(c) {
        tail := StripRightFacts(init);
        assert init + [c] == StripRight(init) + (tail + [c]);
        tail := tail + [c];
      }
    }
  }

  /** The stored form of a name: stripped, then cut to its maximal length. */
  function CleanName(name: string): string {
    var stripped := StripRight(StripLeft(name));
    if |stripped| > NAME_MAX then stripped[..NAME_MAX] else stripped
  }

  ghost predicate ProperName(name: string) {
    |name| <= NAME_MAX && (name != "" ==> !IsSpace(name[0]))
  }

  /**
   * A stored name is the given one without the spaces around it, cut if it is too long. So it is short and starts
   * with no space, and a short name without outer spaces is stored as it is.
   */
  lemma CleanNameFacts(name: string) returns (head: string, stripped: string, tail: string)
    ensures name == head + stripped + tail && AllSpace(head) && AllSpace(tail)
    ensures stripped != "" ==> !IsSpace(stripped[0]) && !IsSpace(stripped[|stripped| - 1])
    ensures CleanName(name) == if |stripped| > 128 then stripped[..128] else stripped
    ensures ProperName(CleanName(name))
    ensures ProperName(name) && (name != "" ==> !IsSpace(name[|name| - 1])) ==> CleanName(name) == name
  {
    var left := StripLeft(name);
    head := StripLeftFacts(name);
    tail := StripRightFacts(left);
    stripped := StripRight(left);
    assert stripped != "" ==> stripped[0] == left[0];
  }

  /** The nodes without those that occurred before. */
  function Deduplicated(nodes: seq<Node>): seq<Node> {
    if nodes == [] then []
    else
      var init, last := Deduplicated(nodes[..|nodes| - 1]), nodes[|nodes| - 1];
      if last in init then init else init + [last]
  }

  function ValidatedNodes(nodes: seq<Node>, vetted: set<Node>): Result<seq<Node>, ServiceError> {
    if nodes == [] then Failure(NoNodes)
    else if exists i :: 0 <= i < |nodes| && nodes[i] !in vetted then Failure(UnknownNode)
    else Success(Deduplicated(nodes))
  }

  method ValidateNodes(nodes: seq<Node>, vetted: set<Node>) returns (r: Result<seq<Node>, ServiceError>)
    ensures r == ValidatedNodes(nodes, vetted)
  {
    if nodes == [] {
      return Failure(NoNodes);
    }
    for i := 0 to |nodes|
      invariant forall j :: 0 <= j < i ==> nodes[j] in vetted
    {
      if nodes[i] !in vetted {
        return Failure(UnknownNode);
      }
    }
    var seen: set<Node>, deduped: seq<Node> := {}, [];
    for i := 0 to |nodes|
      invariant deduped == Deduplicated(nodes[..i])
      invariant forall n :: n in seen <==> n in deduped
    {
      assert nodes[..i + 1][..i] == nodes[..i];
      if nodes[i] !in seen {
        seen := seen + {nodes[i]};
        deduped := deduped + [nodes[i]];
      }
    }
    assert nodes[..|nodes|] == nodes;
    r := Success(deduped);
  }

  ghost predicate NoDuplicates(nodes: seq<Node>) {
    forall i, j :: 0 <= i < j < |nodes| ==> nodes[i] != nodes[j]
  }

  /** A usable node list: not empty, no node twice, all vetted. */
  ghost predicate ProperNodes(nodes: seq<Node>, vetted: set<Node>) {
    nodes != [] && NoDuplicates(nodes) && forall i :: 0 <= i < |nodes| ==> nodes[i] in vetted
  }

  /** Deduplication keeps one occurrence of every node, in the order of first occurrence. */
  lemma {:induction false} DeduplicatedFacts(nodes: seq<Node>)
    ensures NoDuplicates(Deduplicated(nodes))
    ensures Subsequence(Deduplicated(nodes), nodes)
    ensures forall n :: n in Deduplicated(nodes) <==> n in nodes
    ensures nodes != [] ==> Deduplicated(nodes) != [] && Deduplicated(nodes)[0] == nodes[0]
  {
    if nodes != [] {
      var init, last := nodes[..|nodes| - 1], nodes[|nodes| - 1];
      DeduplicatedFacts(init);
      assert nodes == init + [last];
      SubsequenceAppend(Deduplicated(init), init, last);
    }
  }

  /** An accepted list is proper, and a proper list is accepted unchanged. */
  lemma {:induction false} ValidationIsExact(nodes: seq<Node>, vetted: set<Node>)
    ensures ValidatedNodes(nodes, vetted).Success? ==> ProperNodes(ValidatedNodes(nodes, vetted).value, vetted)
    ensures ProperNodes(nodes, vetted) ==> ValidatedNodes(nodes, vetted) == Success(nodes)
  {
    DeduplicatedFacts(nodes);
    if ValidatedNodes(nodes, vetted).Success? {
      var kept := ValidatedNodes(nodes, vetted).value;
      forall i | 0 <= i < |kept|
        ensures kept[i] in vetted
      {
        assert kept[i] in nodes;
      }
    }
    if NoDuplicates(nodes) {
      ProperIsFixed(nodes);
    }
  }

  lemma {:induction false} ProperIsFixed(nodes: seq<Node>)
    requires NoDuplicates(nodes)
    ensures Deduplicated(nodes) == nodes
  {
    if nodes != [] {
      ProperIsFixed(nodes[..|nodes| - 1]);
      assert nodes == nodes[..|nodes| - 1] + [nodes[|nodes| - 1]];
    }
  }

  // ---------- The table ----------

  /** The editable settings that are stored as given. */
  datatype Profile = Profile(name: string, markets: seq<string>)

  datatype Row = Row(
    clone: CloneId,
    owner: User,
    version: nat,
    profile: Profile,
    nodes: seq<Node>,
    edge: real,
    cooldown: int,
    latest: bool)

  /** An edit; settings that are not given stay as they are. */
  datatype Edit = Edit(
    name: Option<string>,
    nodes: Option<seq<Node>>,
    markets: Option<seq<string>>,
    edge: Option<real>,
    cooldown: Option<int>)

  function Or<T>(given: Option<T>, current: T): T {
    if given.Some? then given.value else current
  }

  /** The position of the clone's latest row. */
  function LatestIndex(rows: seq<Row>, clone: CloneId): (r: Option<nat>)
    ensures r.Some? ==> r.value < |rows| && rows[r.value].clone == clone && rows[r.value].latest
    ensures r.None? ==> forall i :: 0 <= i < |rows| && rows[i].clone == clone ==> !rows[i].latest
  {
    if rows == [] then None
    else
      var last := |rows| - 1;
      if rows[last].clone == clone && rows[last].latest then Some(last) else LatestIndex(rows[..last], clone)
  }

  function Retired(rows: seq<Row>, i: nat): seq<Row>
    requires i < |rows|
  {
    rows[i := rows[i].(latest := false)]
  }

  function FirstVersion(clone: CloneId, user: User, profile: Profile, nodes: seq<Node>, edge: real, cooldown: int): Row {
    Row(clone, user, 1, profile.(name := CleanName(profile.name)), nodes, ClampEdge(edge), ClampCooldown(cooldown), true)
  }

  function NextVersion(current: Row, e: Edit, nodes: seq<Node>): Row {
    Row(current.clone, current.owner, current.version + 1,
        Profile(if e.name.Some? then CleanName(e.name.value) else current.profile.name,
                Or(e.markets, current.profile.markets)),
        nodes, ClampEdge(Or(e.edge, current.edge)), ClampCooldown(Or(e.cooldown, current.cooldown)), true)
  }

  /** Settings that an edit gives within bounds are stored as given, and those it does not give stay as they are. */
  lemma EditIsStored(current: Row, e: Edit, nodes: seq<Node>)
    requires InBounds(Or(e.edge, current.edge), Or(e.cooldown, current.cooldown))
    ensures var next := NextVersion(current, e, nodes);
            && next.clone == current.clone && next.owner == current.owner && next.version == current.version + 1 && next.latest
            && next.nodes == nodes
            && next.edge == (if e.edge.Some? then e.edge.value else current.edge)
            && next.cooldown == (if e.cooldown.Some? then e.cooldown.value else current.cooldown)
            && next.profile.markets == (if e.markets.Some? then e.markets.value else current.profile.markets)
            && (e.name.None? ==> next.profile.name == current.profile.name)
            && (e.name.Some? ==> next.profile.name == CleanName(e.name.value))
  {
  }

  /** A creation stores what it was given: settings within bounds unchanged, the name in its stored form. */
  lemma CreationIsStored(rows: seq<Row>, vetted: set<Node>, clone: CloneId, user: User, profile: Profile,
                         nodes: seq<Node>, edge: real, cooldown: int)
    requires InBounds(edge, cooldown) && ProperNodes(nodes, vetted)
    ensures Created(rows, vetted, clone, user, profile, nodes, edge, cooldown)
         == Success(rows + [Row(clone, user, 1, Profile(CleanName(profile.name), profile.markets), nodes, edge, cooldown, true)])
  {
    ValidationIsExact(nodes, vetted);
  }

  function Created(rows: seq<Row>, vetted: set<Node>, clone: CloneId, user: User, profile: Profile, nodes: seq<Node>,
                   edge: real, cooldown: int): Result<seq<Row>, ServiceError>
  {
    var kept :- ValidatedNodes(nodes, vetted);
    Success(rows + [FirstVersion(clone, user, profile, kept, edge, cooldown)])
  }

  function Updated(rows: seq<Row>, vetted: set<Node>, clone: CloneId, user: User, e: Edit): Result<seq<Row>, ServiceError> {
    var at := LatestIndex(rows, clone);
    if at.None? || rows[at.value].owner != user then Failure(NotFoundOrDenied)
    else
      var current := rows[at.value];
      var kept :- ValidatedNodes(Or(e.nodes, current.nodes), vetted);
      Success(Retired(rows, at.value) + [NextVersion(current, e, kept)])
  }

  predicate Owned(r: Row, clone: CloneId, user: User) {
    r.clone == clone && r.owner == user
  }

  function Deleted(rows: seq<Row>, clone: CloneId, user: User): (r: seq<Row>)
    ensures |r| == |rows|
    ensures forall i :: 0 <= i < |r| ==>
              r[i] == if Owned(rows[i], clone, user) then rows[i].(latest := false) else rows[i]
  {
    seq(|rows|, i requires 0 <= i < |rows| =>
      if Owned(rows[i], clone, user) then rows[i].(latest := false) else rows[i])
  }

  function CountOwned(rows: seq<Row>, clone: CloneId, user: User): nat {
    if rows == [] then 0
    else CountOwned(rows[..|rows| - 1], clone, user) + (if Owned(rows[|rows| - 1], clone, user) then 1 else 0)
  }

  class CloneTable {
    const vetted: set<Node>
    var rows: seq<Row>

    constructor (vetted: set<Node>)
      ensures this.vetted == vetted && rows == []
    {
      this.vetted := vetted;
      rows := [];
    }

    method CreateClone(clone: CloneId, user: User, profile: Profile, nodes: seq<Node>, edge: real, cooldown: int)
      returns (r: Result<Row, ServiceError>)
      modifies this`rows
      ensures match Created(old(rows), vetted, clone, user, profile, nodes, edge, cooldown)
              case Success(rows') => rows == rows' && r == Success(rows'[|rows'| - 1])
              case Failure(error) => rows == old(rows) && r == Failure(error)
    {
      var kept := ValidateNodes(nodes, vetted);
      if kept.Failure? {
        return Failure(kept.error);
      }
      var row := FirstVersion(clone, user, profile, kept.value, edge, cooldown);
      rows := rows + [row];
      r := Success(row);
    }

    method UpdateClone(clone: CloneId, user: User, e: Edit) returns (r: Result<Row, ServiceError>)
      modifies this`rows
      ensures match Updated(old(rows), vetted, clone, user, e)
              case Success(rows') => rows == rows' && r == Success(rows'[|rows'| - 1])
              case Failure(error) => rows == old(rows) && r == Failure(error)
    {
      var at := LatestIndex(rows, clone);
      if at.None? || rows[at.value].owner != user {
        return Failure(NotFoundOrDenied);
      }
      var current := rows[at.value];
      var kept := ValidateNodes(Or(e.nodes, current.nodes), vetted);
      if kept.Failure? {
        return Failure(kept.error);
      }
      var row := NextVersion(current, e, kept.value);
      rows := rows[at.value := current.(latest := false)];
      rows := rows + [row];
      r := Success(row);
    }

    method DeleteClone(clone: CloneId, user: User) returns (count: nat)
      modifies this`rows
      ensures rows == Deleted(old(rows), clone, user)
      ensures count == CountOwned(old(rows), clone, user)
    {
      count := 0;
      for i := 0 to |rows|
        invariant |rows| == |old(rows)|
        invariant forall k :: 0 <= k < i ==> rows[k] == Deleted(old(rows), clone, user)[k]
        invariant forall k :: i <= k < |rows| ==> rows[k] == old(rows)[k]
        invariant count == CountOwned(old(rows)[..i], clone, user)
      {
        assert old(rows)[..i + 1][..i] == old(rows)[..i];
        if Owned(rows[i], clone, user) {
          rows := rows[i := rows[i].(latest := false)];
          count := count + 1;
        }
      }
      assert old(rows)[..|rows|] == old(rows);
    }
  }

  // ---------- Runs ----------

  datatype Op =
    | Create(clone: CloneId, user: User, profile: Profile, nodes: seq<Node>, edge: real, cooldown: int)
    | Update(clone: CloneId, user: User, edit: Edit)
    | Delete(clone: CloneId, user: User)

  function Step(rows: seq<Row>, op: Op, vetted: set<Node>): seq<Row> {
    match op
    case Create(clone, user, profile, nodes, edge, cooldown) =>
      (match Created(rows, vetted, clone, user, profile, nodes, edge, cooldown)
       case Success(rows') => rows'
       case Failure(_) => rows)
    case Update(clone, user, e) =>
      (match Updated(rows, vetted, clone, user, e)
       case Success(rows') => rows'
       case Failure(_) => rows)
    case Delete(clone, user) => Deleted(rows, clone, user)
  }

  function Run(rows: seq<Row>, ops: seq<Op>, vetted: set<Node>): seq<Row> {
    if ops == [] then rows else Step(Run(rows, ops[..|ops| - 1], vetted), ops[|ops| - 1], vetted)
  }

  /** The generator never hands out an id that is already in the table. */
  ghost predicate FreshIds(rows: seq<Row>, ops: seq<Op>, vetted: set<Node>) {
    forall k :: 0 <= k < |ops| && ops[k].Create? ==>
      forall i :: 0 <= i < |Run(rows, ops[..k], vetted)| ==> Run(rows, ops[..k], vetted)[i].clone != ops[k].clone
  }

  /** How many versions the clone has. */
  function Versions(rows: seq<Row>, clone: CloneId): nat {
    if rows == [] then 0
    else Versions(rows[..|rows| - 1], clone) + (if rows[|rows| - 1].clone == clone then 1 else 0)
  }

  /** The rows of a clone, in table order, are its versions 1, 2, 3 and so on. */
  ghost predicate Numbered(rows: seq<Row>) {
    forall i :: 0 <= i < |rows| ==> rows[i].version == Versions(rows[..i], rows[i].clone) + 1
  }

  ghost predicate ProperRow(row: Row, vetted: set<Node>) {
    && ProperName(row.profile.name)
    && ProperNodes(row.nodes, vetted)
    && 0.0 <= row.edge <= 0.5 && 60 <= row.cooldown <= 10080
  }

  /** All rows of a clone have one owner, and only the newest may be the latest. */
  ghost predicate OneOwnerOneLatest(rows: seq<Row>) {
    forall i, j :: 0 <= i < j < |rows| && rows[i].clone == rows[j].clone ==>
      rows[i].owner == rows[j].owner && !rows[i].latest
  }

  ghost predicate Sound(rows: seq<Row>, vetted: set<Node>) {
    Numbered(rows) && OneOwnerOneLatest(rows) && forall i :: 0 <= i < |rows| ==> ProperRow(rows[i], vetted)
  }

  /** Rows differ at most in a latest flag that has been cleared. */
  ghost predicate Ages(before: seq<Row>, after: seq<Row>) {
    |before| <= |after| && forall i :: 0 <= i < |before| ==>
      after[i] == before[i] || after[i] == before[i].(latest := false)
  }

  lemma {:induction false} VersionsIgnoreFlags(a: seq<Row>, b: seq<Row>, clone: CloneId)
    requires |a| == |b| && forall i :: 0 <= i < |a| ==> a[i].clone == b[i].clone
    ensures Versions(a, clone) == Versions(b, clone)
  {
    if a != [] {
      VersionsIgnoreFlags(a[..|a| - 1], b[..|b| - 1], clone);
    }
  }

  lemma {:induction false} NoRowsNoVersions(rows: seq<Row>, clone: CloneId)
    requires forall i :: 0 <= i < |rows| ==> rows[i].clone != clone
    ensures Versions(rows, clone) == 0
  {
    if rows != [] {
      NoRowsNoVersions(rows[..|rows| - 1], clone);
    }
  }

  lemma {:induction false} VersionsUpTo(rows: seq<Row>, k: nat, clone: CloneId)
    requires k <= |rows| && forall j :: k <= j < |rows| ==> rows[j].clone != clone
    ensures Versions(rows, clone) == Versions(rows[..k], clone)
    decreases |rows|
  {
    if k < |rows| {
      VersionsUpTo(rows[..|rows| - 1], k, clone);
      assert rows[..|rows| - 1][..k] == rows[..k];
    } else {
      assert rows[..k] == rows;
    }
  }

  lemma VersionsPush(rows: seq<Row>, row: Row, clone: CloneId)
    ensures Versions(rows + [row], clone) == Versions(rows, clone) + (if row.clone == clone then 1 else 0)
  {
    assert (rows + [row])[..|rows|] == rows;
  }

  lemma OwnVersion(rows: seq<Row>, i: nat)
    requires i < |rows|
    ensures Versions(rows[..i + 1], rows[i].clone) == Versions(rows[..i], rows[i].clone) + 1
  {
    VersionsPush(rows[..i], rows[i], rows[i].clone);
    assert rows[..i] + [rows[i]] == rows[..i + 1];
  }

  /** The newest row of a clone carries the number of its versions. */
  lemma NewestHasAllVersions(rows: seq<Row>, i: nat, vetted: set<Node>)
    requires Sound(rows, vetted) && i < |rows|
    requires forall j :: i < j < |rows| ==> rows[j].clone != rows[i].clone
    ensures rows[i].version == Versions(rows, rows[i].clone)
  {
    VersionsUpTo(rows, i + 1, rows[i].clone);
    OwnVersion(rows, i);
  }

  /** Clearing flags keeps the table sound. */
  lemma ClearingKeepsSound(rows: seq<Row>, cleared: seq<Row>, vetted: set<Node>)
    requires Sound(rows, vetted) && |cleared| == |rows| && Ages(rows, cleared)
    ensures Sound(cleared, vetted)
  {
    forall i | 0 <= i < |rows|
      ensures cleared[i].version == Versions(cleared[..i], cleared[i].clone) + 1
    {
      VersionsIgnoreFlags(rows[..i], cleared[..i], rows[i].clone);
    }
  }

  lemma AppendKeepsNumbered(rows: seq<Row>, row: Row)
    requires Numbered(rows) && row.version == Versions(rows, row.clone) + 1
    ensures Numbered(rows + [row])
  {
    var all := rows + [row];
    forall i | 0 <= i < |all|
      ensures all[i].version == Versions(all[..i], all[i].clone) + 1
    {
      assert all[..i] == rows[..i];
      assert rows[..|rows|] == rows;
    }
  }

  /** No row of the clone is the latest, and all have the given owner. */
  ghost predicate Dormant(rows: seq<Row>, clone: CloneId, owner: User) {
    forall i :: 0 <= i < |rows| && rows[i].clone == clone ==> rows[i].owner == owner && !rows[i].latest
  }

  lemma AppendKeepsSound(rows: seq<Row>, row: Row, vetted: set<Node>)
    requires Sound(rows, vetted) && ProperRow(row, vetted)
    requires row.version == Versions(rows, row.clone) + 1 && Dormant(rows, row.clone, row.owner)
    ensures Sound(rows + [row], vetted)
  {
    AppendKeepsNumbered(rows, row);
  }

  /** Once its latest row is retired, a clone is ready for the version after it. */
  lemma RetiredIsReady(rows: seq<Row>, i: nat, vetted: set<Node>)
    requires Sound(rows, vetted) && i < |rows| && rows[i].latest
    ensures var retired := Retired(rows, i);
            && Sound(retired, vetted) && Ages(rows, retired)
            && Versions(retired, rows[i].clone) == rows[i].version
            && Dormant(retired, rows[i].clone, rows[i].owner)
  {
    ClearingKeepsSound(rows, Retired(rows, i), vetted);
    NewestHasAllVersions(rows, i, vetted);
    VersionsIgnoreFlags(rows, Retired(rows, i), rows[i].clone);
  }

  lemma UpdateKeepsSound(rows: seq<Row>, clone: CloneId, user: User, e: Edit, vetted: set<Node>)
    requires Sound(rows, vetted) && Updated(rows, vetted, clone, user, e).Success?
    ensures Sound(Updated(rows, vetted, clone, user, e).value, vetted)
    ensures Ages(rows, Updated(rows, vetted, clone, user, e).value)
  {
    var i := LatestIndex(rows, clone).value;
    var nodes := Or(e.nodes, rows[i].nodes);
    ValidationIsExact(nodes, vetted);
    AppendVersionKeepsSound(rows, i, e, ValidatedNodes(nodes, vetted).value, vetted);
  }

  lemma AppendVersionKeepsSound(rows: seq<Row>, i: nat, e: Edit, nodes: seq<Node>, vetted: set<Node>)
    requires Sound(rows, vetted) && i < |rows| && rows[i].latest && ProperNodes(nodes, vetted)
    ensures var after := Retired(rows, i) + [NextVersion(rows[i], e, nodes)];
            Sound(after, vetted) && Ages(rows, after)
  {
    RetiredIsReady(rows, i, vetted);
    if e.name.Some? {
      var _, _, _ := CleanNameFacts(e.name.value);
    }
    AppendKeepsSound(Retired(rows, i), NextVersion(rows[i], e, nodes), vetted);
  }

  lemma StepKeepsSound(rows: seq<Row>, op: Op, vetted: set<Node>)
    requires Sound(rows, vetted)
    requires op.Create? ==> forall i :: 0 <= i < |rows| ==> rows[i].clone != op.clone
    ensures Sound(Step(rows, op, vetted), vetted) && Ages(rows, Step(rows, op, vetted))
  {
    match op
    case Create(clone, user, profile, nodes, edge, cooldown) =>
      if ValidatedNodes(nodes, vetted).Success? {
        ValidationIsExact(nodes, vetted);
        var _, _, _ := CleanNameFacts(profile.name);
        NoRowsNoVersions(rows, clone);
        AppendKeepsSound(rows, FirstVersion(clone, user, profile, ValidatedNodes(nodes, vetted).value, edge, cooldown), vetted);
      }
    case Update(clone, user, e) =>
      if Updated(rows, vetted, clone, user, e).Success? {
        UpdateKeepsSound(rows, clone, user, e, vetted);
      }
    case Delete(clone, user) =>
      ClearingKeepsSound(rows, Deleted(rows, clone, user), vetted);
  }

  lemma FreshPrefix(rows: seq<Row>, ops: seq<Op>, vetted: set<Node>)
    requires FreshIds(rows, ops, vetted) && ops != []
    ensures FreshIds(rows, ops[..|ops| - 1], vetted)
  {
    var init := ops[..|ops| - 1];
    assert forall k :: 0 <= k < |init| ==> init[..k] == ops[..k];
  }

  /** Over every run the table stays sound and history changes only in cleared flags. */
  lemma {:induction false} RunKeepsSound(rows: seq<Row>, ops: seq<Op>, vetted: set<Node>)
    requires Sound(rows, vetted) && FreshIds(rows, ops, vetted)
    ensures Sound(Run(rows, ops, vetted), vetted) && Ages(rows, Run(rows, ops, vetted))
  {
    if ops != [] {
      FreshPrefix(rows, ops, vetted);
      RunKeepsSound(rows, ops[..|ops| - 1], vetted);
      StepKeepsSound(Run(rows, ops[..|ops| - 1], vetted), ops[|ops| - 1], vetted);
    }
  }

  /** The clone's latest row, if the caller owns it. */
  ghost predicate IsCurrent(rows: seq<Row>, at: nat, clone: CloneId, user: User) {
    at < |rows| && Owned(rows[at], clone, user) && rows[at].latest
  }

  ghost predicate AllVetted(nodes: seq<Node>, vetted: set<Node>) {
    nodes != [] && forall i :: 0 <= i < |nodes| ==> nodes[i] in vetted
  }

  /** An edit is accepted exactly if the caller owns the clone's latest row and the nodes it gives are all vetted. */
  lemma EditVerdict(rows: seq<Row>, vetted: set<Node>, clone: CloneId, user: User, e: Edit)
    requires Sound(rows, vetted)
    ensures Updated(rows, vetted, clone, user, e).Success?
       <==> (exists at: nat :: IsCurrent(rows, at, clone, user)) && (e.nodes.Some? ==> AllVetted(e.nodes.value, vetted))
  {
    var r := LatestIndex(rows, clone);
    if r.Some? && rows[r.value].owner == user {
      assert IsCurrent(rows, r.value, clone, user) && ProperRow(rows[r.value], vetted);
    }
  }

  /** An accepted edit retires the clone's latest row and appends its next version. */
  lemma EditIsApplied(rows: seq<Row>, vetted: set<Node>, at: nat, clone: CloneId, user: User, e: Edit)
    requires Sound(rows, vetted) && IsCurrent(rows, at, clone, user)
    requires e.nodes.Some? ==> ProperNodes(e.nodes.value, vetted)
    ensures Updated(rows, vetted, clone, user, e)
         == Success(rows[at := rows[at].(latest := false)] + [NextVersion(rows[at], e, Or(e.nodes, rows[at].nodes))])
  {
    assert LatestIndex(rows, clone) == Some(at);
    ValidationIsExact(Or(e.nodes, rows[at].nodes), vetted);
  }

  // ---------- Deleted and foreign clones ----------

  /** The clone exists and has no latest row. */
  ghost predicate IsDeleted(rows: seq<Row>, clone: CloneId) {
    (exists i :: 0 <= i < |rows| && rows[i].clone == clone)
    && forall i :: 0 <= i < |rows| && rows[i].clone == clone ==> !rows[i].latest
  }

  /** Deleting one's own clone leaves it deleted. */
  lemma DeleteDeletes(rows: seq<Row>, clone: CloneId, user: User, vetted: set<Node>)
    requires Sound(rows, vetted) && exists i :: 0 <= i < |rows| && Owned(rows[i], clone, user)
    ensures IsDeleted(Step(rows, Delete(clone, user), vetted), clone)
  {
    var i :| 0 <= i < |rows| && Owned(rows[i], clone, user);
    var after := Step(rows, Delete(clone, user), vetted);
    assert after[i].clone == clone;
    forall j | 0 <= j < |after| && after[j].clone == clone
      ensures !after[j].latest
    {
      assert rows[j].clone == rows[i].clone && rows[j].owner == rows[i].owner;
    }
  }

  lemma AgedVersions(rows: seq<Row>, after: seq<Row>, clone: CloneId)
    requires Ages(rows, after) && |after| <= |rows| + 1 && (|after| > |rows| ==> after[|rows|].clone != clone)
    ensures Versions(after, clone) == Versions(rows, clone)
  {
    VersionsIgnoreFlags(rows, after[..|rows|], clone);
    if |after| > |rows| {
      assert after[..|after| - 1] == after[..|rows|];
    } else {
      assert after[..|rows|] == after;
    }
  }

  lemma AgedIsDeleted(rows: seq<Row>, after: seq<Row>, clone: CloneId)
    requires IsDeleted(rows, clone) && Ages(rows, after) && |after| <= |rows| + 1
    requires |after| > |rows| ==> after[|rows|].clone != clone
    ensures IsDeleted(after, clone)
  {
    var i :| 0 <= i < |rows| && rows[i].clone == clone;
    assert after[i].clone == clone;
    forall j | 0 <= j < |after| && after[j].clone == clone
      ensures !after[j].latest
    {
      assert j < |rows| && rows[j].clone == clone;
    }
  }

  lemma AgedStaysDeleted(rows: seq<Row>, after: seq<Row>, clone: CloneId)
    requires IsDeleted(rows, clone) && Ages(rows, after) && |after| <= |rows| + 1
    requires |after| > |rows| ==> after[|rows|].clone != clone
    ensures IsDeleted(after, clone) && Versions(after, clone) == Versions(rows, clone)
  {
    AgedVersions(rows, after, clone);
    AgedIsDeleted(rows, after, clone);
  }

  /** Nothing is ever appended to a deleted clone. */
  lemma AppendsElsewhere(rows: seq<Row>, op: Op, clone: CloneId, vetted: set<Node>)
    requires IsDeleted(rows, clone)
    requires op.Create? ==> forall i :: 0 <= i < |rows| ==> rows[i].clone != op.clone
    ensures var after := Step(rows, op, vetted);
            |after| <= |rows| + 1 && (|after| > |rows| ==> after[|rows|].clone != clone)
  {
    var i :| 0 <= i < |rows| && rows[i].clone == clone;
    if op.Update? && LatestIndex(rows, op.clone).Some? {
      assert op.clone != clone;
    }
  }

  lemma StepKeepsDeleted(rows: seq<Row>, op: Op, clone: CloneId, vetted: set<Node>)
    requires Sound(rows, vetted) && IsDeleted(rows, clone)
    requires op.Create? ==> forall i :: 0 <= i < |rows| ==> rows[i].clone != op.clone
    ensures IsDeleted(Step(rows, op, vetted), clone)
    ensures Versions(Step(rows, op, vetted), clone) == Versions(rows, clone)
  {
    StepKeepsSound(rows, op, vetted);
    AppendsElsewhere(rows, op, clone, vetted);
    AgedStaysDeleted(rows, Step(rows, op, vetted), clone);
  }

  /** A deleted clone stays deleted and never gains another version. */
  lemma {:induction false} DeletedForGood(rows: seq<Row>, ops: seq<Op>, clone: CloneId, vetted: set<Node>)
    requires Sound(rows, vetted) && FreshIds(rows, ops, vetted) && IsDeleted(rows, clone)
    ensures IsDeleted(Run(rows, ops, vetted), clone)
    ensures Versions(Run(rows, ops, vetted), clone) == Versions(rows, clone)
  {
    if ops != [] {
      FreshPrefix(rows, ops, vetted);
      var init := ops[..|ops| - 1];
      DeletedForGood(rows, init, clone, vetted);
      RunKeepsSound(rows, init, vetted);
      StepKeepsDeleted(Run(rows, init, vetted), ops[|ops| - 1], clone, vetted);
    }
  }

  /** Another user's update or deletion leaves the table untouched. */
  lemma ForeignOpsChangeNothing(rows: seq<Row>, op: Op, owner: User, vetted: set<Node>)
    requires Sound(rows, vetted) && !op.Create? && op.user != owner
    requires forall i :: 0 <= i < |rows| && rows[i].clone == op.clone ==> rows[i].owner == owner
    ensures Step(rows, op, vetted) == rows
  {
  }

  // ---------- Traced runs ----------

  datatype TraceStep<S> = TraceStep(node: Node, input: S, output: S)

  /** Runs the nodes in order over a state, recording the state before and after each. */
  method RunCloneGraph<S>(nodes: seq<Node>, vetted: map<Node, S -> S>, start: S)
    returns (r: Result<S, ServiceError>, trace: seq<TraceStep<S>>)
    ensures r.Success? <==> forall i :: 0 <= i < |nodes| ==> nodes[i] in vetted
    ensures r.Success? ==> |trace| == |nodes|
    ensures r.Success? ==> forall i :: 0 <= i < |trace| ==>
              trace[i].node == nodes[i] && trace[i].output == vetted[nodes[i]](trace[i].input)
    ensures r.Success? ==> forall i :: 0 < i < |trace| ==> trace[i].input == trace[i - 1].output
    ensures r.Success? ==>
              if nodes == [] then r.value == start else trace[0].input == start && r.value == trace[|trace| - 1].output
  {
    var state := start;
    trace := [];
    for k := 0 to |nodes|
      invariant |trace| == k
      invariant forall i :: 0 <= i < k ==>
                  nodes[i] in vetted && trace[i].node == nodes[i] && trace[i].output == vetted[nodes[i]](trace[i].input)
      invariant forall i :: 0 < i < k ==> trace[i].input == trace[i - 1].output
      invariant if k == 0 then state == start else trace[0].input == start && state == trace[k - 1].output
    {
      if nodes[k] !in vetted {
        return Failure(UnknownNode), trace;
      }
      var input := state;
      state := vetted[nodes[k]](state);
      trace := trace + [TraceStep(nodes[k], input, state)];
    }
    r := Success(state);
  }
}
