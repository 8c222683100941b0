/** The disk cache as its callers see it one call at a time: rows and body files,
    with `get`, `store` and `delete` run to completion. */
module SqliteCache {
  import opened Basics
  import opened CacheKey
  import opened Db

  // ---------- What the calls do ----------

  /** `files`: body path to contents. */
  datatype Disk = Disk(rows: map<string, Row>, files: map<string, Bytes>)

  predicate Dangling(d: Disk, e: Entry) {
    e.bodyPath.Some? && e.bodyPath.value !in d.files
  }

  /** `get` hits a row that is fresh and whose file, if it has one, exists. */
  predicate Hits(d: Disk, key: string, now: int) {
    key in d.rows && d.rows[key].entry.expiresAt > now && !Dangling(d, d.rows[key].entry)
  }

  function Deleted(d: Disk, key: string): Disk {
    Disk(d.rows - {key},
         if key in d.rows && d.rows[key].entry.bodyPath.Some? then d.files - {d.rows[key].entry.bodyPath.value}
         else d.files)
  }

  function Touched(row: Row, now: int): Row {
    row.(lastAccess := now)
  }

  function AfterGet(d: Disk, key: string, now: int): Disk {
    if key !in d.rows then d
    else if Hits(d, key, now) then d.(rows := d.rows[key := Touched(d.rows[key], now)])
    else Deleted(d, key)
  }

  function Upserted(d: Disk, e: Entry): Disk {
    d.(rows := d.rows[e.key := Row(e, e.createdAt)])
  }

  function Overflow(max: nat, rows: map<string, Row>): nat {
    if max > 0 && |rows| > max then |rows| - max else 0
  }

  function Paths(victims: seq<Victim>): set<string> {
    set v | v in victims && v.path.Some? :: v.path.value
  }

  function Evicted(d: Disk, victims: seq<Victim>): Disk {
    Disk(d.rows - VictimKeys(victims), d.files - Paths(victims))
  }

  /** A store: upsert, then evict `victims`, a selection of least recently used rows. */
  ghost predicate Stores(max: nat, d: Disk, e: Entry, victims: seq<Victim>, d': Disk) {
    && IsLruSelection(Upserted(d, e).rows, Overflow(max, Upserted(d, e).rows), victims)
    && d' == Evicted(Upserted(d, e), victims)
  }

  // ---------- The cache ----------

  class SqliteCache {
    const maxEntries: nat
    var disk: Disk

    constructor (maxEntries: nat)
      ensures disk == Disk(map[], map[]) && this.maxEntries == maxEntries
    {
      this.maxEntries := maxEntries;
      disk := Disk(map[], map[]);
    }

    method Delete(key: string)
      modifies this
      ensures disk == Deleted(old(disk), key)
      ensures disk.rows == old(disk).rows - {key}
      ensures key !in old(disk).rows ==> disk.files == old(disk).files
      ensures key in old(disk).rows ==>
                var path := old(disk).rows[key].entry.bodyPath;
                disk.files == if path.Some? then old(disk).files - {path.value} else old(disk).files
    {
      var path := if key in disk.rows then disk.rows[key].entry.bodyPath else None;
      disk := disk.(rows := disk.rows - {key});
      if path.Some? {
        disk := disk.(files := disk.files - {path.value});
      }
    }

    method Get(verb: string, url: string, now: int) returns (hit: Option<Row>)
      modifies this
      ensures hit.Some? <==> Hits(old(disk), Key(verb, url), now)
      ensures hit.Some? ==> hit.value == Touched(old(disk).rows[Key(verb, url)], now)
      ensures disk == AfterGet(old(disk), Key(verb, url), now)
      // a hit is a row that is fresh and whose body is there, and it is touched
      ensures
        var d, key := old(disk), verb + " " + url;
        hit.Some? <==>
          && key in d.rows && d.rows[key].entry.expiresAt > now
          && (d.rows[key].entry.bodyPath.Some? ==> d.rows[key].entry.bodyPath.value in d.files)
      ensures hit.Some? ==>
                var key := verb + " " + url;
                && hit.value == Row(old(disk).rows[key].entry, now)
                && disk.rows == old(disk).rows[key := hit.value] && disk.files == old(disk).files
      // any other row of the key goes
      ensures hit.None? ==> disk.rows == old(disk).rows - {verb + " " + url}
    {
      var key := Key(verb, url);
      if key !in disk.rows {
        return None;
      }
      var row := disk.rows[key];
      if row.entry.expiresAt <= now {
        Delete(key);
        return None;
      }
      if row.entry.bodyPath.Some? && row.entry.bodyPath.value !in disk.files {
        Delete(key);
        return None;
      }
      row := row.(lastAccess := now);
      disk := disk.(rows := disk.rows[key := row]);
      return Some(row);
    }

    method Store(e: Entry) returns (victims: seq<Victim>)
      modifies this
      ensures Stores(maxEntries, old(disk), e, victims, disk)
      // as many as are over the limit go, oldest first, each with its body
      ensures
        var rows := old(disk).rows[e.key := Row(e, e.createdAt)];
        && |victims| == (if maxEntries > 0 && |rows| > maxEntries then |rows| - maxEntries else 0)
        && (forall v :: v in victims ==> v.key in rows && v.path == rows[v.key].entry.bodyPath)
        && (forall i, j :: 0 <= i < j < |victims| ==> victims[i].key != victims[j].key)
        && disk.rows == rows - (set v | v in victims :: v.key)
        && disk.files == old(disk).files - (set v | v in victims && v.path.Some? :: v.path.value)
        && (forall v, key :: v in victims && key in disk.rows ==> rows[v.key].lastAccess <= rows[key].lastAccess)
    {
      disk := disk.(rows := disk.rows[e.key := Row(e, e.createdAt)]);
      ghost var upserted := disk;
      victims := [];
      NothingSelected(disk.rows);
      hide IsLruSelection;
      if maxEntries > 0 {
        var count := |disk.rows|;
        if count > maxEntries {
          victims := LeastRecentlyUsed(disk.rows, count - maxEntries);
        }
      }
      assert IsLruSelection(upserted.rows, Overflow(maxEntries, upserted.rows), victims);
      hide Evicted;
      for i := 0 to |victims|
        invariant disk == Evicted(upserted, victims[..i])
      {
        EvictOneMore(upserted, victims, i);
        disk := disk.(rows := disk.rows - {victims[i].key});
        if victims[i].path.Some? {
          disk := disk.(files := disk.files - {victims[i].path.value});
        }
      }
      assert victims[..|victims|] == victims;
      StoresMeaning(maxEntries, old(disk), e, victims, disk);
    }
  }

  lemma StoresMeaning(max: nat, d: Disk, e: Entry, victims: seq<Victim>, d': Disk)
    requires Stores(max, d, e, victims, d')
    ensures
      var rows := d.rows[e.key := Row(e, e.createdAt)];
      && |victims| == (if max > 0 && |rows| > max then |rows| - max else 0)
      && (forall v :: v in victims ==> v.key in rows && v.path == rows[v.key].entry.bodyPath)
      && (forall i, j :: 0 <= i < j < |victims| ==> victims[i].key != victims[j].key)
      && d'.rows == rows - (set v | v in victims :: v.key)
      && d'.files == d.files - (set v | v in victims && v.path.Some? :: v.path.value)
      && (forall v, key :: v in victims && key in d'.rows ==> rows[v.key].lastAccess <= rows[key].lastAccess)
  {
  }

  lemma NothingSelected(rows: map<string, Row>)
    ensures IsLruSelection(rows, 0, [])
    ensures forall d: Disk :: Evicted(d, []) == d
  {
    assert forall d: Disk :: d.rows - {} == d.rows && d.files - {} == d.files;
  }

  lemma EvictOneMore(d: Disk, victims: seq<Victim>, i: nat)
    requires i < |victims|
    ensures
      var before, v := Evicted(d, victims[..i]), victims[i];
      Evicted(d, victims[..i + 1]) ==
      Disk(before.rows - {v.key}, if v.path.Some? then before.files - {v.path.value} else before.files)
  {
    assert victims[..i + 1] == victims[..i] + [victims[i]];
    assert VictimKeys(victims[..i + 1]) == VictimKeys(victims[..i]) + {victims[i].key};
    var gone := if victims[i].path.Some? then {victims[i].path.value} else {};
    assert Paths(victims[..i + 1]) == Paths(victims[..i]) + gone;
  }

  // ---------- The SELECT ----------

  /** A row of least `last_access` among some keys. */
  method Oldest(rows: map<string, Row>, keys: set<string>) returns (key: string)
    requires keys != {} && keys <= rows.Keys
    ensures key in keys && forall k :: k in keys ==> rows[key].lastAccess <= rows[k].lastAccess
  {
    key :| key in keys;
    var rest := keys - {key};
    while rest != {}
      invariant key in keys && rest <= keys
      invariant forall k :: k in keys && k !in rest ==> rows[key].lastAccess <= rows[k].lastAccess
      decreases rest
    {
      var k :| k in rest;
      if rows[k].lastAccess < rows[key].lastAccess {
        key := k;
      }
      rest := rest - {k};
    }
  }

  /** `victims` are the oldest of the rows and `rest` are the others. */
  ghost predicate Selected(rows: map<string, Row>, victims: seq<Victim>, rest: set<string>) {
    && rest == rows.Keys - VictimKeys(victims)
    && |victims| + |rest| == |rows|
    && Distinct(victims) && AreRows(rows, victims)
    && NoYoungerThan(rows, victims, rest) && OldestFirst(rows, victims)
  }

  lemma SelectedIsAnswer(rows: map<string, Row>, n: nat, victims: seq<Victim>, rest: set<string>)
    requires Selected(rows, victims, rest) && |victims| <= n && (|victims| == n || rest == {})
    ensures IsLruSelection(rows, n, victims)
  {
    hide Distinct, AreRows, NoYoungerThan, OldestFirst;
  }

  lemma KeysSnoc(victims: seq<Victim>, v: Victim)
    ensures VictimKeys(victims + [v]) == VictimKeys(victims) + {v.key}
    ensures Distinct(victims) && v.key !in VictimKeys(victims) ==> Distinct(victims + [v])
  {
    assert forall i :: 0 <= i < |victims| ==> victims[i] in victims && victims[i].key in VictimKeys(victims);
  }

  lemma OrderSnoc(rows: map<string, Row>, victims: seq<Victim>, rest: set<string>, v: Victim)
    requires AreRows(rows, victims) && rest <= rows.Keys && v.key in rest && v.path == rows[v.key].entry.bodyPath
    requires OldestFirst(rows, victims) && NoYoungerThan(rows, victims, rest)
    requires forall k :: k in rest ==> rows[v.key].lastAccess <= rows[k].lastAccess
    ensures AreRows(rows, victims + [v])
    ensures OldestFirst(rows, victims + [v]) && NoYoungerThan(rows, victims + [v], rest)
  {
    forall i, j | 0 <= i < j < |victims + [v]|
      ensures rows[(victims + [v])[i].key].lastAccess <= rows[(victims + [v])[j].key].lastAccess
    {
      assert victims[i] in victims;
    }
  }

  lemma SelectOneMore(rows: map<string, Row>, victims: seq<Victim>, rest: set<string>, v: Victim)
    requires Selected(rows, victims, rest) && v.key in rest && v.path == rows[v.key].entry.bodyPath
    requires forall k :: k in rest ==> rows[v.key].lastAccess <= rows[k].lastAccess
    ensures Selected(rows, victims + [v], rest - {v.key})
  {
    KeysSnoc(victims, v);
    OrderSnoc(rows, victims, rest, v);
    assert rest - {v.key} == rows.Keys - VictimKeys(victims + [v]);
    FewerOthers(rows, victims + [v], rest, rest - {v.key});
    hide Distinct, AreRows, OldestFirst, NoYoungerThan, VictimKeys;
  }

  lemma FewerOthers(rows: map<string, Row>, victims: seq<Victim>, others: set<string>, fewer: set<string>)
    requires AreRows(rows, victims) && fewer <= others <= rows.Keys && NoYoungerThan(rows, victims, others)
    ensures NoYoungerThan(rows, victims, fewer)
  {
  }

  /** An answer to `ORDER BY last_access ASC LIMIT n`: there always is one. */
  method LeastRecentlyUsed(rows: map<string, Row>, n: nat) returns (victims: seq<Victim>)
    ensures IsLruSelection(rows, n, victims)
  {
    victims := [];
    var rest := rows.Keys;
    assert Selected(rows, victims, rest);
    hide Selected, IsLruSelection;
    while |victims| < n && rest != {}
      invariant Selected(rows, victims, rest) && |victims| <= n && rest <= rows.Keys
      decreases |rest|
    {
      var key := Oldest(rows, rest);
      var v := Victim(key, rows[key].entry.bodyPath);
      SelectOneMore(rows, victims, rest, v);
      victims := victims + [v];
      rest := rest - {key};
    }
    SelectedIsAnswer(rows, n, victims, rest);
  }
}
