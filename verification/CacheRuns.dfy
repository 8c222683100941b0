/** Runs of the disk cache, one call after the other: what it answers compared with
    an unbounded map, which rows it evicts, and which files it keeps. */
module CacheRuns {
  import opened Basics
  import opened CacheKey
  import opened Db
  import opened SqliteCache

  /** `Commit` is what a writer does at its end: it puts the body at its path and
      stores the row.  `victims` is the answer the SELECT gave. */
  datatype Op =
    | Get(key: string, now: int)
    | Store(entry: Entry, victims: seq<Victim>)
    | Commit(entry: Entry, body: Bytes, victims: seq<Victim>)
    | Remove(key: string)

  function Placed(d: Disk, e: Entry, body: Bytes): Disk {
    if e.bodyPath.Some? then d.(files := d.files[e.bodyPath.value := body]) else d
  }

  function Step(d: Disk, op: Op): Disk {
    match op
    case Get(key, now) => AfterGet(d, key, now)
    case Store(e, victims) => Evicted(Upserted(d, e), victims)
    case Commit(e, body, victims) => Evicted(Upserted(Placed(d, e, body), e), victims)
    case Remove(key) => Deleted(d, key)
  }

  ghost predicate Legal(max: nat, d: Disk, op: Op) {
    match op
    case Store(e, victims) => Stores(max, d, e, victims, Step(d, op))
    case Commit(e, body, victims) => Stores(max, Placed(d, e, body), e, victims, Step(d, op))
    case _ => true
  }

  function DiskAfter(ops: seq<Op>): Disk {
    if ops == [] then Disk(map[], map[]) else Step(DiskAfter(ops[..|ops| - 1]), ops[|ops| - 1])
  }

  ghost predicate IsRun(max: nat, ops: seq<Op>) {
    ops == [] || (IsRun(max, ops[..|ops| - 1]) && Legal(max, DiskAfter(ops[..|ops| - 1]), ops[|ops| - 1]))
  }

  // ---------- The ideal cache ----------

  /** The last entry stored under each key and not deleted since; lookups change
      nothing. */
  function Ideal(ops: seq<Op>): map<string, Entry> {
    if ops == [] then map[]
    else
      var before := Ideal(ops[..|ops| - 1]);
      match ops[|ops| - 1]
      case Get(_, _) => before
      case Store(e, _) => before[e.key := e]
      case Commit(e, _, _) => before[e.key := e]
      case Remove(key) => before - {key}
  }

  predicate IdealHits(ideal: map<string, Entry>, key: string, now: int) {
    key in ideal && ideal[key].expiresAt > now
  }

  lemma {:induction false} RowsAreIdeal(max: nat, ops: seq<Op>)
    requires IsRun(max, ops)
    ensures forall key :: key in DiskAfter(ops).rows ==>
              key in Ideal(ops) && DiskAfter(ops).rows[key].entry == Ideal(ops)[key]
  {
    if ops != [] {
      RowsAreIdeal(max, ops[..|ops| - 1]);
    }
  }

  /** Refinement: whatever the run, a lookup answers either nothing or exactly what
      the unbounded map answers, apart from the access time. */
  lemma GetRefinesIdeal(max: nat, ops: seq<Op>, key: string, now: int)
    requires IsRun(max, ops) && Hits(DiskAfter(ops), key, now)
    ensures key in Ideal(ops) && DiskAfter(ops).rows[key].entry == Ideal(ops)[key]
    ensures Ideal(ops)[key].expiresAt > now
  {
    RowsAreIdeal(max, ops);
  }

  // ---------- Eviction ----------

  /** A store deletes exactly the rows over the limit, and every row it deletes was
      accessed no later than every row it keeps. */
  lemma StoreEvictsExactly(max: nat, d: Disk, e: Entry, victims: seq<Victim>, d': Disk)
    requires Stores(max, d, e, victims, d')
    ensures
      var rows := Upserted(d, e).rows;
      && rows == d.rows[e.key := Row(e, e.createdAt)]
      && |d'.rows| == (if max > 0 && |rows| > max then max else |rows|)
      && (forall key :: key in d'.rows ==> key in rows && d'.rows[key] == rows[key])
      && (forall gone, kept :: gone in rows && gone !in d'.rows && kept in d'.rows ==>
            rows[gone].lastAccess <= rows[kept].lastAccess)
  {
    var rows := Upserted(d, e).rows;
    DistinctKeysSize(victims);
    assert VictimKeys(victims) <= rows.Keys;
    assert d'.rows.Keys == rows.Keys - VictimKeys(victims);
    assert |rows.Keys| == |rows| && |d'.rows.Keys| == |d'.rows|;
  }

  lemma {:induction false} RunKeepsToTheLimit(max: nat, ops: seq<Op>)
    requires max > 0 && IsRun(max, ops)
    ensures |DiskAfter(ops).rows| <= max
  {
    if ops != [] {
      var before, op := ops[..|ops| - 1], ops[|ops| - 1];
      RunKeepsToTheLimit(max, before);
      var d := DiskAfter(before);
      match op {
        case Store(e, victims) => StoreEvictsExactly(max, d, e, victims, Step(d, op));
        case Commit(e, body, victims) => StoreEvictsExactly(max, Placed(d, e, body), e, victims, Step(d, op));
        case _ => SubsetSize(DiskAfter(ops).rows.Keys, d.rows.Keys);
      }
    }
  }

  /** Rows accessed strictly before that of `key`. */
  function Older(rows: map<string, Row>, key: string): set<string>
    requires key in rows
  {
    set k | k in rows && rows[k].lastAccess < rows[key].lastAccess
  }

  /** Stores, each under a key that has no row. */
  ghost predicate FreshStores(max: nat, d: Disk, stores: seq<(Entry, seq<Victim>)>)
    decreases |stores|
  {
    stores == [] ||
    (stores[0].0.key !in d.rows
     && var d' := Evicted(Upserted(d, stores[0].0), stores[0].1);
        Stores(max, d, stores[0].0, stores[0].1, d') && FreshStores(max, d', stores[1..]))
  }

  function AfterStores(d: Disk, stores: seq<(Entry, seq<Victim>)>): Disk
    decreases |stores|
  {
    if stores == [] then d else AfterStores(Evicted(Upserted(d, stores[0].0), stores[0].1), stores[1..])
  }

  /** A fresh key in a table within the limit costs at most one row. */
  lemma AtMostOneGone(max: nat, before: map<string, Row>, key: string, rows: map<string, Row>, after: map<string, Row>)
    requires |before| <= max && key !in before && rows.Keys == before.Keys + {key}
    requires after.Keys <= rows.Keys && |after| == |rows| - if |rows| > max then |rows| - max else 0
    ensures |rows.Keys - after.Keys| <= 1
  {
    DifferenceSize(rows.Keys, after.Keys);
    DifferenceSize(rows.Keys, {key});
    assert rows.Keys - {key} == before.Keys;
  }

  lemma DifferenceSize<T>(a: set<T>, b: set<T>)
    requires b <= a
    ensures |a - b| == |a| - |b|
  {
    assert a == b + (a - b);
  }

  lemma FreshStoreSpares(max: nat, d: Disk, e: Entry, victims: seq<Victim>, d': Disk, key: string)
    requires max > 0 && |d.rows| <= max && e.key !in d.rows && Stores(max, d, e, victims, d')
    requires key in d.rows && Older(d.rows, key) != {}
    ensures key in d'.rows && d'.rows[key] == d.rows[key] && |Older(d'.rows, key)| >= |Older(d.rows, key)| - 1
    ensures |d'.rows| <= max
  {
    var rows := Upserted(d, e).rows;
    StoreEvictsExactly(max, d, e, victims, d');
    hide Stores, Evicted;
    AtMostOneGone(max, d.rows, e.key, rows, d'.rows);
    hide Overflow;
    var k :| k in Older(d.rows, key);
    if key !in d'.rows {
      OneElement(rows.Keys - d'.rows.Keys, key, k);
    }
    OlderShrinksByOne(d.rows, rows, d'.rows, key);
  }

  lemma OlderShrinksByOne(before: map<string, Row>, rows: map<string, Row>, after: map<string, Row>, key: string)
    requires key in before && key in after && |rows.Keys - after.Keys| <= 1
    requires forall k :: k in before ==> k in rows && rows[k] == before[k]
    requires forall k :: k in after ==> k in rows && after[k] == rows[k]
    ensures |Older(after, key)| >= |Older(before, key)| - 1
  {
    var older, gone := Older(before, key), rows.Keys - after.Keys;
    SubsetSize(older - gone, Older(after, key));
    SubsetSize(older * gone, gone);
    assert older == (older - gone) + (older * gone);
  }

  lemma OneElement(s: set<string>, x: string, y: string)
    requires |s| <= 1 && x in s && x != y
    ensures y !in s
  {
    if y in s {
      SubsetSize({x, y}, s);
    }
  }

  /** A touched row outlives the next stores of fresh keys, as many as there are rows
      with strictly smaller access times. */
  lemma {:induction false} TouchedRowSurvives(max: nat, d: Disk, stores: seq<(Entry, seq<Victim>)>, key: string)
    requires max > 0 && |d.rows| <= max && FreshStores(max, d, stores)
    requires key in d.rows && |stores| <= |Older(d.rows, key)|
    ensures key in AfterStores(d, stores).rows && AfterStores(d, stores).rows[key] == d.rows[key]
    decreases |stores|
  {
    if stores != [] {
      var (e, victims) := stores[0];
      var d' := Evicted(Upserted(d, e), victims);
      FreshStoreSpares(max, d, e, victims, d', key);
      TouchedRowSurvives(max, d', stores[1..], key);
    }
  }

  /** A row just stored enters the order with its creation time, taken before its body
      was streamed: in a full table it is its own victim if every other row has been
      accessed since, and it stays if some row has not been accessed for longer. */
  lemma StoredRowCanBeItsOwnVictim(max: nat, d: Disk, e: Entry, victims: seq<Victim>, d': Disk)
    requires max > 0 && |d.rows| == max && e.key !in d.rows && Stores(max, d, e, victims, d')
    ensures (forall key :: key in d.rows ==> d.rows[key].lastAccess > e.createdAt) ==> d'.rows == d.rows
    ensures (exists key :: key in d.rows && d.rows[key].lastAccess < e.createdAt) ==> e.key in d'.rows
  {
    var rows := Upserted(d, e).rows;
    StoreEvictsExactly(max, d, e, victims, d');
    hide Stores, Evicted;
    assert rows == d.rows[e.key := Row(e, e.createdAt)];
    hide Upserted;
    FullTableLosesOne(d.rows, rows, d'.rows, e.key);
    var gone :| gone in rows.Keys - d'.rows.Keys && rows.Keys - d'.rows.Keys == {gone};
    assert d'.rows.Keys == rows.Keys - {gone};
    if gone == e.key {
      WithoutTheNewRow(d.rows, rows, d'.rows, e.key);
    } else {
      assert e.key in d'.rows && gone in d.rows;
    }
  }

  lemma WithoutTheNewRow(before: map<string, Row>, rows: map<string, Row>, after: map<string, Row>, key: string)
    requires key !in before && key in rows && rows == before[key := rows[key]] && after.Keys == rows.Keys - {key}
    requires forall k :: k in after ==> after[k] == rows[k]
    ensures after == before
  {
    assert after.Keys == before.Keys;
  }

  lemma FullTableLosesOne(before: map<string, Row>, rows: map<string, Row>, after: map<string, Row>, key: string)
    requires key !in before && rows.Keys == before.Keys + {key}
    requires |after| == |before| && after.Keys <= rows.Keys
    ensures exists gone :: gone in rows.Keys - after.Keys && rows.Keys - after.Keys == {gone}
  {
    DifferenceSize(rows.Keys, {key});
    assert rows.Keys - {key} == before.Keys;
    DifferenceSize(rows.Keys, after.Keys);
    var gone :| gone in rows.Keys - after.Keys;
    forall k | k in rows.Keys - after.Keys
      ensures k == gone
    {
      if k != gone {
        OneElement(rows.Keys - after.Keys, gone, k);
      }
    }
  }

  /** One row, no older than which there is none, answers the SELECT for one. */
  lemma OldestIsAnAnswer(rows: map<string, Row>, key: string)
    requires key in rows && forall k :: k in rows ==> rows[key].lastAccess <= rows[k].lastAccess
    ensures IsLruSelection(rows, 1, [Victim(key, rows[key].entry.bodyPath)])
  {
    var v := Victim(key, rows[key].entry.bodyPath);
    assert VictimKeys([v]) == {key};
    assert |rows| >= 1 by {
      SubsetSize({key}, rows.Keys);
    }
  }

  lemma {:induction false} LeastAccess(rows: map<string, Row>, keys: set<string>) returns (key: string)
    requires keys != {} && keys <= rows.Keys
    ensures key in keys && forall k :: k in keys ==> rows[key].lastAccess <= rows[k].lastAccess
    decreases |keys|
  {
    key :| key in keys;
    if keys != {key} {
      var other := LeastAccess(rows, keys - {key});
      if rows[other].lastAccess < rows[key].lastAccess {
        key := other;
      }
    }
  }

  /** A store that takes a full table over its limit may evict any oldest row. */
  lemma OldestMayGo(max: nat, d: Disk, e: Entry, key: string)
    requires max > 0 && |d.rows| == max && e.key !in d.rows
    requires
      var rows := Upserted(d, e).rows;
      key in rows && forall k :: k in rows ==> rows[key].lastAccess <= rows[k].lastAccess
    ensures
      var victims := [Victim(key, Upserted(d, e).rows[key].entry.bodyPath)];
      var d' := Evicted(Upserted(d, e), victims);
      Stores(max, d, e, victims, d') && d'.rows.Keys == d.rows.Keys + {e.key} - {key}
  {
    var rows := Upserted(d, e).rows;
    var victims := [Victim(key, rows[key].entry.bodyPath)];
    OldestIsAnAnswer(rows, key);
    assert VictimKeys(victims) == {key};
    assert rows.Keys == d.rows.Keys + {e.key};
    assert |rows| == |rows.Keys| == |d.rows.Keys| + 1;
    hide IsLruSelection;
  }

  ghost predicate AlwaysStays(max: nat, d: Disk, e: Entry) {
    forall victims, d' :: Stores(max, d, e, victims, d') ==> e.key in d'.rows
  }

  ghost predicate AlwaysGoes(max: nat, d: Disk, e: Entry) {
    forall victims, d' :: Stores(max, d, e, victims, d') ==> e.key !in d'.rows
  }

  /** Exactly: in a full table a new row stays whatever the SELECT answers if and only
      if some row is strictly older than it, and goes whatever it answers if and only if
      all are strictly younger.  On a tie, which whole seconds make ordinary, SQLite
      decides. */
  lemma StoredRowStaysExactlyWhen(max: nat, d: Disk, e: Entry)
    requires max > 0 && |d.rows| == max && e.key !in d.rows
    ensures AlwaysStays(max, d, e) <==> exists key :: key in d.rows && d.rows[key].lastAccess < e.createdAt
    ensures AlwaysGoes(max, d, e) <==> forall key :: key in d.rows ==> d.rows[key].lastAccess > e.createdAt
  {
    var rows := Upserted(d, e).rows;
    forall victims, d' | Stores(max, d, e, victims, d')
      ensures (exists key :: key in d.rows && d.rows[key].lastAccess < e.createdAt) ==> e.key in d'.rows
      ensures (forall key :: key in d.rows ==> d.rows[key].lastAccess > e.createdAt) ==> e.key !in d'.rows
    {
      StoredRowCanBeItsOwnVictim(max, d, e, victims, d');
    }
    hide Stores, Evicted;
    if forall key :: key in d.rows ==> d.rows[key].lastAccess >= e.createdAt {
      OldestMayGo(max, d, e, e.key);
    }
    if k :| k in d.rows && d.rows[k].lastAccess <= e.createdAt {
      var oldest := LeastAccess(d.rows, d.rows.Keys);
      OldestMayGo(max, d, e, oldest);
    }
  }

  /** Where there is room, or no limit, or the key has a row already, it always stays. */
  lemma StoredRowStaysWhereThereIsRoom(max: nat, d: Disk, e: Entry)
    requires max == 0 || |d.rows| < max || (|d.rows| == max && e.key in d.rows)
    ensures AlwaysStays(max, d, e)
  {
    var rows := Upserted(d, e).rows;
    assert rows.Keys == d.rows.Keys + {e.key};
    assert |rows| == |rows.Keys| && |d.rows| == |d.rows.Keys|;
    forall victims, d' | Stores(max, d, e, victims, d')
      ensures e.key in d'.rows
    {
      assert |victims| == 0;
      hide IsLruSelection;
    }
  }

  /** A hit brings the row to the end of the order and changes nothing else; a lookup
      that misses leaves no row of its key. */
  lemma HitTouchesItsRow(d: Disk, key: string, now: int)
    ensures
      var d' := AfterGet(d, key, now);
      && (Hits(d, key, now) ==>
            && d'.rows == d.rows[key := Row(d.rows[key].entry, now)] && d'.files == d.files)
      && (!Hits(d, key, now) ==> d'.rows == d.rows - {key})
  {
  }

  /** A row that has just been read, later than all others, outlives as many stores of
      fresh keys as there are others. */
  lemma ReadRowSurvives(max: nat, d: Disk, key: string, now: int, stores: seq<(Entry, seq<Victim>)>)
    requires max > 0 && |d.rows| <= max && Hits(d, key, now)
    requires forall other :: other in d.rows && other != key ==> d.rows[other].lastAccess < now
    requires FreshStores(max, AfterGet(d, key, now), stores) && |stores| < |d.rows|
    ensures
      var rows := AfterStores(AfterGet(d, key, now), stores).rows;
      key in rows && rows[key] == Row(d.rows[key].entry, now)
  {
    var d' := AfterGet(d, key, now);
    HitTouchesItsRow(d, key, now);
    assert d'.rows.Keys == d.rows.Keys && |d'.rows| == |d'.rows.Keys| == |d.rows|;
    assert Older(d'.rows, key) == d'.rows.Keys - {key};
    DifferenceSize(d'.rows.Keys, {key});
    hide FreshStores, AfterStores, AfterGet, Hits, Older;
    TouchedRowSurvives(max, d', stores, key);
  }

  // ---------- Files ----------

  /** What the proxy stores: a GET with its body at the key's path, a HEAD without. */
  predicate WellKeyed(e: Entry) {
    && (e.verb == "GET" || e.verb == "HEAD")
    && e.key == Key(e.verb, e.url)
    && e.bodyPath == (if e.verb == "GET" then Some(e.key) else None)
  }

  predicate ByTheProxy(op: Op) {
    match op
    case Store(e, _) => WellKeyed(e) && e.bodyPath.None?
    case Commit(e, body, _) => WellKeyed(e) && e.bodySize == |body|
    case _ => true
  }

  ghost predicate Conserved(d: Disk) {
    && (forall key :: key in d.rows ==> WellKeyed(d.rows[key].entry) && d.rows[key].entry.key == key)
    && (forall path :: path in d.files <==> path in d.rows && d.rows[path].entry.bodyPath.Some?)
    && (forall path :: path in d.files ==> |d.files[path]| == d.rows[path].entry.bodySize)
  }

  lemma SameKeySamePath(e: Entry, f: Entry)
    requires WellKeyed(e) && WellKeyed(f) && e.key == f.key
    ensures e.bodyPath == f.bodyPath
  {
    KeyIsInjective(e.verb, e.url, f.verb, f.url);
  }

  lemma UpsertKeepsFiles(d: Disk, e: Entry, body: Bytes)
    requires Conserved(d) && WellKeyed(e) && (e.bodyPath.Some? ==> e.bodySize == |body|)
    ensures Conserved(Upserted(Placed(d, e, body), e))
  {
    if e.key in d.rows {
      SameKeySamePath(e, d.rows[e.key].entry);
    }
  }

  lemma EvictionKeepsFiles(d: Disk, victims: seq<Victim>)
    requires Conserved(d) && AreRows(d.rows, victims)
    ensures Conserved(Evicted(d, victims))
  {
    var d' := Evicted(d, victims);
    assert forall v :: v in victims && v.path.Some? ==> v.path.value == v.key;
    forall path
      ensures path in d'.files <==> path in d'.rows && d'.rows[path].entry.bodyPath.Some?
    {
      if path in d.files && path in VictimKeys(victims) {
        var v :| v in victims && v.key == path;
        assert v.path == Some(path);
      }
    }
  }

  lemma {:induction false} RunConserves(max: nat, ops: seq<Op>)
    requires IsRun(max, ops) && forall op :: op in ops ==> ByTheProxy(op)
    ensures Conserved(DiskAfter(ops))
  {
    if ops != [] {
      var before, op := ops[..|ops| - 1], ops[|ops| - 1];
      assert op in ops;
      RunConserves(max, before);
      var d := DiskAfter(before);
      match op {
        case Store(e, victims) =>
          UpsertKeepsFiles(d, e, []);
          EvictionKeepsFiles(Upserted(d, e), victims);
        case Commit(e, body, victims) =>
          UpsertKeepsFiles(d, e, body);
          EvictionKeepsFiles(Upserted(Placed(d, e, body), e), victims);
        case _ =>
      }
    }
  }

  /** File conservation: with commits, lookups and deletes run to completion, the
      files are exactly the bodies of the rows, each of the recorded size, through
      overwriting, expiry and eviction. */
  lemma FilesAreExactlyTheBodies(max: nat, ops: seq<Op>)
    requires IsRun(max, ops) && forall op :: op in ops ==> ByTheProxy(op)
    ensures
      var d := DiskAfter(ops);
      && (forall path :: path in d.files <==> exists key :: key in d.rows && d.rows[key].entry.bodyPath == Some(path))
      && (forall key :: key in d.rows && d.rows[key].entry.bodyPath.Some? ==>
            |d.files[d.rows[key].entry.bodyPath.value]| == d.rows[key].entry.bodySize)
  {
    RunConserves(max, ops);
    var d := DiskAfter(ops);
    hide DiskAfter, IsRun, ByTheProxy;
    forall path | path in d.files
      ensures exists key :: key in d.rows && d.rows[key].entry.bodyPath == Some(path)
    {
      assert d.rows[path].entry.bodyPath == Some(path);
    }
  }

  // ---------- Bodies ----------

  /** The last commit under a key, unless the key was stored without a body or removed
      since. */
  function LastCommit(ops: seq<Op>, key: string): Option<(Entry, Bytes)> {
    if ops == [] then None
    else
      var before := LastCommit(ops[..|ops| - 1], key);
      match ops[|ops| - 1]
      case Get(_, _) => before
      case Store(e, _) => if e.key == key then None else before
      case Commit(e, body, _) => if e.key == key then Some((e, body)) else before
      case Remove(k) => if k == key then None else before
  }

  ghost predicate AsCommitted(ops: seq<Op>, d: Disk) {
    forall key :: key in d.files ==>
      && key in d.rows
      && LastCommit(ops, key) == Some((d.rows[key].entry, d.files[key]))
  }

  lemma StoreIsAsCommitted(before: seq<Op>, op: Op, d: Disk)
    requires op.Store? && ByTheProxy(op) && Conserved(d) && AsCommitted(before, d)
    requires Conserved(Upserted(d, op.entry))
    ensures AsCommitted(before + [op], Upserted(d, op.entry))
  {
    assert (before + [op])[..|before|] == before;
    assert op.entry.key !in d.files;
  }

  lemma CommitIsAsCommitted(before: seq<Op>, op: Op, d: Disk)
    requires op.Commit? && ByTheProxy(op) && Conserved(d) && AsCommitted(before, d)
    requires Conserved(Upserted(Placed(d, op.entry, op.body), op.entry))
    ensures AsCommitted(before + [op], Upserted(Placed(d, op.entry, op.body), op.entry))
  {
    assert (before + [op])[..|before|] == before;
    assert op.entry.key !in d.files || op.entry.bodyPath.Some?;
  }

  lemma EvictionIsAsCommitted(ops: seq<Op>, d: Disk, victims: seq<Victim>)
    requires AsCommitted(ops, d) && Conserved(Evicted(d, victims))
    ensures AsCommitted(ops, Evicted(d, victims))
  {
  }

  lemma OtherIsAsCommitted(before: seq<Op>, op: Op, d: Disk)
    requires (op.Get? || op.Remove?) && Conserved(d) && AsCommitted(before, d)
    ensures AsCommitted(before + [op], Step(d, op))
  {
    assert (before + [op])[..|before|] == before;
  }

  /** Over every run the file of a row holds exactly the body that was committed last
      under its key, together with that row. */
  lemma {:induction false} FilesHoldTheLastCommits(max: nat, ops: seq<Op>)
    requires IsRun(max, ops) && forall op :: op in ops ==> ByTheProxy(op)
    ensures AsCommitted(ops, DiskAfter(ops))
  {
    if ops != [] {
      var before, op := ops[..|ops| - 1], ops[|ops| - 1];
      var d := DiskAfter(before);
      assert op in ops && ops == before + [op];
      FilesHoldTheLastCommits(max, before);
      RunConserves(max, before);
      RunConserves(max, ops);
      hide Conserved, AsCommitted, Upserted, Placed, Evicted, AfterGet, Deleted;
      match op {
        case Store(e, victims) =>
          UpsertKeepsFiles(d, e, []);
          assert Upserted(Placed(d, e, []), e) == Upserted(d, e) by { NothingPlaced(d, e); }
          StoreIsAsCommitted(before, op, d);
          EvictionIsAsCommitted(ops, Upserted(d, e), victims);
        case Commit(e, body, victims) =>
          UpsertKeepsFiles(d, e, body);
          CommitIsAsCommitted(before, op, d);
          EvictionIsAsCommitted(ops, Upserted(Placed(d, e, body), e), victims);
        case _ =>
          OtherIsAsCommitted(before, op, d);
      }
    }
  }

  lemma NothingPlaced(d: Disk, e: Entry)
    requires e.bodyPath.None?
    ensures Placed(d, e, []) == d
  {
  }

  /** What a GET hit reads is the body and the row of one commit, the last of its key. */
  lemma HitReadsTheLastCommit(max: nat, ops: seq<Op>, url: string, now: int)
    requires IsRun(max, ops) && forall op :: op in ops ==> ByTheProxy(op)
    requires Hits(DiskAfter(ops), Key("GET", url), now)
    ensures
      var d, key := DiskAfter(ops), Key("GET", url);
      key in d.files && LastCommit(ops, key) == Some((d.rows[key].entry, d.files[key]))
  {
    FilesHoldTheLastCommits(max, ops);
    RunConserves(max, ops);
    LookupsKeepToTheirMethod(max, ops, "GET", url, now);
  }

  // ---------- Exactness ----------

  predicate UpTo(ops: seq<Op>, now: int) {
    forall op :: op in ops && op.Get? ==> op.now <= now
  }

  /** Without a limit nothing is forgotten but what has expired. */
  lemma LookupForgetsOnlyTheExpired(d: Disk, key: string, asked: int, now: int)
    requires Conserved(d) && asked <= now
    ensures forall k :: k in d.rows && d.rows[k].entry.expiresAt > now ==> k in AfterGet(d, key, asked).rows
  {
  }

  lemma UnlimitedStoresForgetNothing(d: Disk, e: Entry, victims: seq<Victim>, d': Disk)
    requires Stores(0, d, e, victims, d')
    ensures d'.rows.Keys == d.rows.Keys + {e.key}
  {
    assert |victims| == 0;
    hide IsLruSelection;
  }

  lemma {:induction false} UnlimitedRowsAreComplete(ops: seq<Op>, now: int)
    requires IsRun(0, ops) && (forall op :: op in ops ==> ByTheProxy(op)) && UpTo(ops, now)
    ensures forall key :: IdealHits(Ideal(ops), key, now) ==> key in DiskAfter(ops).rows
  {
    if ops != [] {
      var before, op := ops[..|ops| - 1], ops[|ops| - 1];
      var d := DiskAfter(before);
      assert op in ops;
      UnlimitedRowsAreComplete(before, now);
      RunConserves(0, before);
      RowsAreIdeal(0, before);
      hide Conserved, Stores, AfterGet, Evicted, Upserted, ByTheProxy;
      match op {
        case Get(key, asked) => LookupForgetsOnlyTheExpired(d, key, asked, now);
        case Store(e, victims) => UnlimitedStoresForgetNothing(d, e, victims, Step(d, op));
        case Commit(e, body, victims) => UnlimitedStoresForgetNothing(Placed(d, e, body), e, victims, Step(d, op));
        case Remove(_) =>
      }
    }
  }

  /** With no entry limit and a clock that does not go back, lookups answer exactly
      what the ideal map answers: eviction is the only reason for a miss. */
  lemma UnlimitedCacheIsIdeal(ops: seq<Op>, key: string, now: int)
    requires IsRun(0, ops) && (forall op :: op in ops ==> ByTheProxy(op)) && UpTo(ops, now)
    ensures Hits(DiskAfter(ops), key, now) <==> key in Ideal(ops) && Ideal(ops)[key].expiresAt > now
  {
    RowsAreIdeal(0, ops);
    RunConserves(0, ops);
    UnlimitedRowsAreComplete(ops, now);
  }

  /** A GET lookup never yields a row stored for a HEAD, nor the reverse. */
  lemma LookupsKeepToTheirMethod(max: nat, ops: seq<Op>, verb: string, url: string, now: int)
    requires IsRun(max, ops) && forall op :: op in ops ==> ByTheProxy(op)
    requires ' ' !in verb && Hits(DiskAfter(ops), Key(verb, url), now)
    ensures
      var e := DiskAfter(ops).rows[Key(verb, url)].entry;
      e.verb == verb && e.url == url
  {
    RunConserves(max, ops);
    var e := DiskAfter(ops).rows[Key(verb, url)].entry;
    KeyIsInjective(e.verb, e.url, verb, url);
  }
}
