/** The table `cache_entries` under concurrent stores, with every SQL statement a
    step of its own, because the cache uses no transactions.

    A store runs INSERT, then COUNT, then SELECT of the least recently used
    keys, then one DELETE and one file removal per selected key.  Lookups touch
    and delete rows in between. */
module Db {
  import opened Basics

  type Id = nat

  /** What `store` is given.  The body path is named by the key it belongs to: the
      final path is a hash of the key, and the hash is taken to be injective. */
  datatype Entry = Entry(
    key: string,
    verb: string,          // the request method
    url: string,
    status: nat,
    headers: seq<(string, string)>,
    bodyPath: Option<string>,
    bodySize: nat,
    createdAt: int,
    expiresAt: int)

  datatype Row = Row(entry: Entry, lastAccess: int)

  datatype Victim = Victim(key: string, path: Option<string>)

  datatype StorePc =
    | Pending
    | Inserted
    | Counted(overflow: nat)
    | Evicting(victims: seq<Victim>)
    | Unlinking(victims: seq<Victim>)  // the first row is deleted, its file not yet
    | Finished
    | Failed

  /** `ins` and `cnt`: when the INSERT and the COUNT ran; 0 for not yet. */
  datatype Store = Store(entry: Entry, pc: StorePc, ins: nat, cnt: nat)

  datatype Table = Table(rows: map<string, Row>, stores: map<Id, Store>, clock: nat)

  /** `victims`: the answer of the SELECT; ties in `last_access` are arbitrary. */
  datatype Event =
    | Open(id: Id, entry: Entry)
    | Statement(id: Id, ok: bool, victims: seq<Victim>)
    | Touch(key: string, now: int)
    | Delete(key: string)

  // ---------- Choosing victims ----------

  function VictimKeys(victims: seq<Victim>): set<string> {
    set v | v in victims :: v.key
  }

  ghost predicate Distinct(victims: seq<Victim>) {
    forall i, j :: 0 <= i < j < |victims| ==> victims[i].key != victims[j].key
  }

  ghost predicate AreRows(rows: map<string, Row>, victims: seq<Victim>) {
    forall v :: v in victims ==> v.key in rows && v.path == rows[v.key].entry.bodyPath
  }

  ghost predicate NoYoungerThan(rows: map<string, Row>, victims: seq<Victim>, others: set<string>)
    requires AreRows(rows, victims) && others <= rows.Keys
  {
    forall v, k :: v in victims && k in others ==> rows[v.key].lastAccess <= rows[k].lastAccess
  }

  ghost predicate OldestFirst(rows: map<string, Row>, victims: seq<Victim>)
    requires AreRows(rows, victims)
  {
    forall i, j :: 0 <= i < j < |victims| ==> rows[victims[i].key].lastAccess <= rows[victims[j].key].lastAccess
  }

  /** `SELECT key, body_path ... ORDER BY last_access ASC LIMIT overflow`. */
  ghost predicate IsLruSelection(rows: map<string, Row>, overflow: nat, victims: seq<Victim>) {
    && Distinct(victims)
    && |victims| == (if overflow < |rows| then overflow else |rows|)
    && AreRows(rows, victims)
    && NoYoungerThan(rows, victims, rows.Keys - VictimKeys(victims))
    && OldestFirst(rows, victims)
  }

  // ---------- Steps ----------

  ghost function StatementStep(max: nat, t: Table, e: Event): Table
    requires e.Statement? && e.id in t.stores
  {
    var s := t.stores[e.id];
    match s.pc
    case Pending =>
      if e.ok then
        var now := t.clock + 1;
        t.(rows := t.rows[s.entry.key := Row(s.entry, s.entry.createdAt)],
           stores := t.stores[e.id := s.(pc := if max > 0 then Inserted else Finished, ins := now)],
           clock := now)
      else Advance(t, e.id, Failed)
    case Inserted =>
      if !e.ok then Advance(t, e.id, Failed)
      else
        var now, next := t.clock + 1, if |t.rows| > max then Counted(|t.rows| - max) else Finished;
        t.(stores := t.stores[e.id := s.(pc := next, cnt := now)], clock := now)
    case Counted(overflow) =>
      if !e.ok then Advance(t, e.id, Failed)
      else if IsLruSelection(t.rows, overflow, e.victims) then Advance(t, e.id, Evicting(e.victims))
      else t  // not an answer the SELECT can give
    case Evicting(victims) =>
      if victims == [] then Advance(t, e.id, Finished)
      else if e.ok then Advance(t.(rows := t.rows - {victims[0].key}), e.id, Unlinking(victims))
      else Advance(t, e.id, Failed)
    case Unlinking(victims) =>
      Advance(t, e.id, Evicting(if victims == [] then [] else victims[1..]))
    case Finished => t
    case Failed => t
  }

  function Advance(t: Table, id: Id, pc: StorePc): Table
    requires id in t.stores
  {
    t.(stores := t.stores[id := t.stores[id].(pc := pc)])
  }

  ghost function Step(max: nat, t: Table, e: Event): Table {
    match e
    case Open(id, entry) =>
      if id in t.stores then t
      else t.(stores := t.stores[id := Store(entry, Pending, 0, 0)])
    case Statement(id, _, _) =>
      if id in t.stores then StatementStep(max, t, e) else t
    case Touch(key, now) =>
      if key in t.rows then t.(rows := t.rows[key := t.rows[key].(lastAccess := now)]) else t
    case Delete(key) =>
      t.(rows := t.rows - {key})
  }

  ghost function Run(max: nat, events: seq<Event>): Table {
    if events == [] then Table(map[], map[], 0)
    else Step(max, Run(max, events[..|events| - 1]), events[|events| - 1])
  }

  // ---------- The row bound ----------

  /** Inserted, and neither found room nor finished evicting.  A store that failed
      after its INSERT stays in this set for ever. */
  predicate IsUnsettled(s: Store) {
    s.ins > 0 && !s.pc.Finished?
  }

  ghost function Unsettled(stores: map<Id, Store>): set<Id> {
    set i | i in stores && IsUnsettled(stores[i])
  }

  /** The unsettled stores whose INSERT ran after time `when`. */
  ghost function Later(stores: map<Id, Store>, when: nat): set<Id> {
    set i | i in stores && IsUnsettled(stores[i]) && stores[i].ins > when
  }

  predicate HasCounted(s: Store) {
    s.pc.Counted? || s.pc.Evicting? || s.pc.Unlinking? || s.pc.Finished?
  }

  /** The rows a store is still going to delete. */
  function Doomed(s: Store): set<string> {
    match s.pc
    case Evicting(victims) => VictimKeys(victims)
    case Unlinking(victims) => if victims == [] then {} else VictimKeys(victims[1..])
    case _ => {}
  }

  function StillOwed(s: Store): nat {
    if s.pc.Counted? then s.pc.overflow else 0
  }

  /** What a store that has counted will leave behind, or has left when it finished:
      its own deletions pay for everything but the stores that inserted after its
      COUNT. */
  ghost predicate PaysItsShare(max: nat, t: Table, s: Store) {
    s.ins < s.cnt && |t.rows.Keys - Doomed(s)| <= max + |Later(t.stores, s.cnt)| + StillOwed(s)
  }

  ghost predicate TimesOk(t: Table, s: Store) {
    && s.ins <= t.clock && s.cnt <= t.clock
    && (s.pc.Pending? ==> s.ins == 0)
    && (s.pc.Inserted? || HasCounted(s) ==> s.ins > 0)
  }

  ghost predicate TimesInv(t: Table) {
    forall i :: i in t.stores ==> TimesOk(t, t.stores[i])
  }

  ghost predicate Inv(max: nat, t: Table) {
    && TimesInv(t)
    && |t.rows| <= max + |Unsettled(t.stores)|
    && (forall i :: i in t.stores && HasCounted(t.stores[i]) ==> PaysItsShare(max, t, t.stores[i]))
  }

  /** A statement moves one store on and its times with it. */
  lemma StatementMovesOne(max: nat, t: Table, e: Event)
    requires e.Statement? && e.id in t.stores && TimesOk(t, t.stores[e.id])
    ensures
      var t' := StatementStep(max, t, e);
      && e.id in t'.stores && t'.stores == t.stores[e.id := t'.stores[e.id]]
      && t'.clock >= t.clock && TimesOk(t', t'.stores[e.id])
  {
    hide IsLruSelection;
    var s, t' := t.stores[e.id], StatementStep(max, t, e);
    if t' != t && !s.pc.Pending? && !s.pc.Inserted? {
      AdvancesTo(t, t', e.id);
    }
  }

  lemma AdvancesTo(t: Table, t': Table, id: Id)
    requires id in t.stores && id in t'.stores && t'.clock == t.clock
    requires t'.stores == Advance(t, id, t'.stores[id].pc).stores
    ensures t'.stores == t.stores[id := t'.stores[id]]
  {
  }

  /** The times are in order under any limit, also when there is none. */
  lemma StepKeepsTimes(max: nat, t: Table, e: Event)
    requires TimesInv(t)
    ensures TimesInv(Step(max, t, e))
  {
    if e.Statement? && e.id in t.stores {
      StatementMovesOne(max, t, e);
    }
    hide StatementStep;
  }

  lemma SubsetSize<T>(a: set<T>, b: set<T>)
    requires a <= b
    ensures |a| <= |b|
  {
    assert b == a + (b - a);
  }

  lemma {:induction false} DistinctKeysSize(victims: seq<Victim>)
    requires Distinct(victims)
    ensures |VictimKeys(victims)| == |victims|
  {
    if victims != [] {
      var init, last := victims[..|victims| - 1], victims[|victims| - 1];
      DistinctKeysSize(init);
      assert VictimKeys(victims) == VictimKeys(init) + {last.key};
    }
  }

  /** Fewer rows, same stores. */
  lemma ShrinkingKeepsInv(max: nat, t: Table, rows: map<string, Row>)
    requires Inv(max, t) && rows.Keys <= t.rows.Keys
    ensures Inv(max, t.(rows := rows))
  {
    SubsetSize(rows.Keys, t.rows.Keys);
    forall i | i in t.stores && HasCounted(t.stores[i])
      ensures PaysItsShare(max, t.(rows := rows), t.stores[i])
    {
      SubsetSize(rows.Keys - Doomed(t.stores[i]), t.rows.Keys - Doomed(t.stores[i]));
    }
  }

  /** A store moves on without settling and without leaving more than its share. */
  lemma MovingOnKeepsInv(max: nat, t: Table, id: Id, s': Store)
    requires Inv(max, t) && id in t.stores
    requires TimesOk(t, s') && s'.ins == t.stores[id].ins
    requires IsUnsettled(s') == IsUnsettled(t.stores[id])
    requires HasCounted(s') ==> PaysItsShare(max, t, s')
    ensures Inv(max, t.(stores := t.stores[id := s']))
  {
    var t' := t.(stores := t.stores[id := s']);
    MovingOnIsAsUnsettled(t.stores, id, s');
    MovingOnKeepsTimes(t, id, s');
    hide Unsettled, PaysItsShare, TimesInv, TimesOk, HasCounted;
    forall i | i in t'.stores && HasCounted(t'.stores[i])
      ensures PaysItsShare(max, t', t'.stores[i])
    {
      MovingOnKeepsShare(max, t, id, s', t'.stores[i]);
    }
  }

  lemma MovingOnIsAsUnsettled(stores: map<Id, Store>, id: Id, s': Store)
    requires id in stores && IsUnsettled(s') == IsUnsettled(stores[id])
    ensures Unsettled(stores[id := s']) == Unsettled(stores)
  {
  }

  lemma MovingOnKeepsTimes(t: Table, id: Id, s': Store)
    requires TimesInv(t) && TimesOk(t, s')
    ensures TimesInv(t.(stores := t.stores[id := s']))
  {
  }

  lemma MovingOnKeepsShare(max: nat, t: Table, id: Id, s': Store, other: Store)
    requires id in t.stores && s'.ins == t.stores[id].ins && IsUnsettled(s') == IsUnsettled(t.stores[id])
    requires PaysItsShare(max, t, other)
    ensures PaysItsShare(max, t.(stores := t.stores[id := s']), other)
  {
    MovingOnIsNotLater(t.stores, id, s', other.cnt);
    hide Later, Doomed;
  }

  lemma MovingOnIsNotLater(stores: map<Id, Store>, id: Id, s': Store, when: nat)
    requires id in stores && s'.ins == stores[id].ins && IsUnsettled(s') == IsUnsettled(stores[id])
    ensures Later(stores[id := s'], when) == Later(stores, when)
  {
  }

  function AfterInsert(t: Table, id: Id, row: Row): Table
    requires id in t.stores
  {
    var now := t.clock + 1;
    Table(t.rows[row.entry.key := row], t.stores[id := t.stores[id].(pc := Inserted, ins := now)], now)
  }

  lemma InsertKeepsTimes(t: Table, id: Id, row: Row)
    requires TimesInv(t) && id in t.stores && t.stores[id].pc.Pending?
    ensures TimesInv(AfterInsert(t, id, row))
  {
    assert TimesOk(t, t.stores[id]);
  }

  lemma InsertKeepsShare(max: nat, t: Table, id: Id, row: Row, s: Store)
    requires id in t.stores && t.stores[id].pc.Pending? && t.stores[id].ins == 0
    requires PaysItsShare(max, t, s) && s.cnt <= t.clock
    ensures PaysItsShare(max, AfterInsert(t, id, row), s)
  {
    var t' := AfterInsert(t, id, row);
    assert t'.rows.Keys == t.rows.Keys + {row.entry.key};
    InsertCountsAsLater(t, t', id, s, row.entry.key);
  }

  lemma InsertKeepsInv(max: nat, t: Table, id: Id, row: Row)
    requires Inv(max, t) && id in t.stores && t.stores[id].pc.Pending?
    ensures Inv(max, AfterInsert(t, id, row))
  {
    var t' := AfterInsert(t, id, row);
    InsertKeepsTimes(t, id, row);
    assert TimesOk(t, t.stores[id]);
    InsertKeepsBound(t, t', id, row.entry.key);
    hide PaysItsShare, Unsettled;
    forall i | i in t'.stores && HasCounted(t'.stores[i])
      ensures PaysItsShare(max, t', t'.stores[i])
    {
      assert i != id && TimesOk(t, t.stores[i]);
      InsertKeepsShare(max, t, id, row, t.stores[i]);
    }
  }

  lemma InsertKeepsBound(t: Table, t': Table, id: Id, key: string)
    requires id in t.stores && !IsUnsettled(t.stores[id])
    requires id in t'.stores && IsUnsettled(t'.stores[id]) && t'.stores == t.stores[id := t'.stores[id]]
    requires t'.rows.Keys == t.rows.Keys + {key}
    ensures |Unsettled(t'.stores)| == |Unsettled(t.stores)| + 1 && |t'.rows| <= |t.rows| + 1
  {
    assert Unsettled(t'.stores) == Unsettled(t.stores) + {id};
    assert |t'.rows| == |t'.rows.Keys| && |t.rows| == |t.rows.Keys|;
  }

  /** An INSERT adds at most one row and, for every store that has counted, one
      later store. */
  lemma InsertCountsAsLater(t: Table, t': Table, id: Id, s: Store, key: string)
    requires id in t.stores && !IsUnsettled(t.stores[id])
    requires id in t'.stores && IsUnsettled(t'.stores[id]) && t'.stores[id].ins > s.cnt
    requires t'.stores == t.stores[id := t'.stores[id]]
    requires t'.rows.Keys == t.rows.Keys + {key}
    ensures |Later(t'.stores, s.cnt)| == |Later(t.stores, s.cnt)| + 1
    ensures |t'.rows.Keys - Doomed(s)| <= |t.rows.Keys - Doomed(s)| + 1
  {
    assert Later(t'.stores, s.cnt) == Later(t.stores, s.cnt) + {id};
    SubsetSize(t'.rows.Keys - Doomed(s), (t.rows.Keys - Doomed(s)) + {key});
  }

  ghost predicate LeavesTheLater(max: nat, t: Table, s: Store) {
    s.ins < s.cnt && |t.rows| <= max + |Later(t.stores, s.cnt)|
  }

  /** A store settles once it leaves no more than the stores that came after its COUNT. */
  lemma SettlingKeepsInv(max: nat, t: Table, id: Id)
    requires Inv(max, t) && id in t.stores && IsUnsettled(t.stores[id]) && t.stores[id].ins < t.stores[id].cnt
    requires |t.rows| <= max || LeavesTheLater(max, t, t.stores[id])
    ensures Inv(max, Advance(t, id, Finished))
  {
    var t' := Advance(t, id, Finished);
    assert TimesOk(t, t.stores[id]);
    SettlingKeepsBound(max, t, id);
    forall i | i in t'.stores && HasCounted(t'.stores[i])
      ensures PaysItsShare(max, t', t'.stores[i])
    {
      if i == id {
        assert t'.rows.Keys - Doomed(t'.stores[id]) == t.rows.Keys;
        assert Later(t'.stores, t.stores[id].cnt) == Later(t.stores, t.stores[id].cnt);
      } else {
        assert t'.stores[i] == t.stores[i] && PaysItsShare(max, t, t.stores[i]);
        SettlingSparesTheOthers(max, t, id, t.stores[i]);
      }
    }
  }

  lemma SettlingKeepsBound(max: nat, t: Table, id: Id)
    requires id in t.stores && TimesOk(t, t.stores[id])
    requires |t.rows| <= max || LeavesTheLater(max, t, t.stores[id])
    ensures |t.rows| <= max + |Unsettled(Advance(t, id, Finished).stores)|
  {
    if |t.rows| > max {
      SubsetSize(Later(t.stores, t.stores[id].cnt), Unsettled(Advance(t, id, Finished).stores));
    }
  }

  lemma SettlingSparesTheOthers(max: nat, t: Table, id: Id, other: Store)
    requires id in t.stores && IsUnsettled(t.stores[id]) && TimesOk(t, t.stores[id])
    requires PaysItsShare(max, t, other)
    requires |t.rows| <= max || LeavesTheLater(max, t, t.stores[id])
    ensures PaysItsShare(max, Advance(t, id, Finished), other)
  {
    var s, t' := t.stores[id], Advance(t, id, Finished);
    SubsetSize(t.rows.Keys - Doomed(other), t.rows.Keys);
    if id !in Later(t.stores, other.cnt) {
      assert Later(t'.stores, other.cnt) == Later(t.stores, other.cnt);
    } else if |t.rows| > max {
      SubsetSize(Later(t.stores, s.cnt), Later(t'.stores, other.cnt));
    }
  }

  function AfterCount(t: Table, id: Id, overflow: nat): Table
    requires id in t.stores
  {
    var now := t.clock + 1;
    t.(stores := t.stores[id := t.stores[id].(pc := Counted(overflow), cnt := now)], clock := now)
  }

  lemma CountKeepsInv(max: nat, t: Table, id: Id, overflow: nat)
    requires Inv(max, t) && id in t.stores && t.stores[id].pc.Inserted? && |t.rows| <= max + overflow
    ensures Inv(max, AfterCount(t, id, overflow))
  {
    var t1 := t.(clock := t.clock + 1);
    assert TimesOk(t, t.stores[id]);
    var s' := t.stores[id].(pc := Counted(overflow), cnt := t1.clock);
    assert t1.rows.Keys - Doomed(s') == t.rows.Keys;
    TickKeepsInv(max, t);
    hide Inv;
    MovingOnKeepsInv(max, t1, id, s');
  }

  lemma TickKeepsInv(max: nat, t: Table)
    requires Inv(max, t)
    ensures Inv(max, t.(clock := t.clock + 1))
  {
    var t1 := t.(clock := t.clock + 1);
    forall i | i in t1.stores && HasCounted(t1.stores[i])
      ensures PaysItsShare(max, t1, t1.stores[i])
    {
      assert PaysItsShare(max, t, t.stores[i]);
    }
  }

  /** A COUNT that finds room settles the store. */
  lemma FindingRoomKeepsInv(max: nat, t: Table, id: Id)
    requires Inv(max, t) && id in t.stores && t.stores[id].pc.Inserted? && |t.rows| <= max
    ensures
      var now := t.clock + 1;
      Inv(max, t.(stores := t.stores[id := t.stores[id].(pc := Finished, cnt := now)], clock := now))
  {
    assert TimesOk(t, t.stores[id]);
    var t1 := AfterCount(t, id, 0);
    CountKeepsInv(max, t, id, 0);
    hide Inv, LeavesTheLater, TimesOk;
    SettlingKeepsInv(max, t1, id);
    UpdateTwice(t.stores, id, t1.stores[id], t1.stores[id].(pc := Finished));
  }

  lemma UpdateTwice<K, V>(m: map<K, V>, k: K, v: V, w: V)
    ensures m[k := v][k := w] == m[k := w]
  {
  }

  lemma SelectKeepsInv(max: nat, t: Table, id: Id, victims: seq<Victim>)
    requires Inv(max, t) && id in t.stores && t.stores[id].pc.Counted?
    requires IsLruSelection(t.rows, t.stores[id].pc.overflow, victims)
    ensures Inv(max, Advance(t, id, Evicting(victims)))
  {
    var s := t.stores[id];
    DistinctKeysSize(victims);
    assert VictimKeys(victims) <= t.rows.Keys;
    assert t.rows.Keys - Doomed(s) == t.rows.Keys;
    MovingOnKeepsInv(max, t, id, s.(pc := Evicting(victims)));
  }

  lemma DeletingVictimKeepsInv(max: nat, t: Table, id: Id)
    requires Inv(max, t) && id in t.stores && t.stores[id].pc.Evicting? && t.stores[id].pc.victims != []
    ensures
      var victims := t.stores[id].pc.victims;
      Inv(max, Advance(t.(rows := t.rows - {victims[0].key}), id, Unlinking(victims)))
  {
    var s := t.stores[id];
    var s', t1 := s.(pc := Unlinking(s.pc.victims)), t.(rows := t.rows - {s.pc.victims[0].key});
    ShrinkingKeepsInv(max, t, t1.rows);
    DeletionPays(max, t, s);
    MovingOnKeepsInv(max, t1, id, s');
  }

  lemma DeletionPays(max: nat, t: Table, s: Store)
    requires s.pc.Evicting? && s.pc.victims != [] && PaysItsShare(max, t, s)
    ensures PaysItsShare(max, t.(rows := t.rows - {s.pc.victims[0].key}), s.(pc := Unlinking(s.pc.victims)))
  {
    hide VictimKeys, Later;
    var victims := s.pc.victims;
    FirstKey(victims);
    DifferenceTwice(t.rows.Keys, victims[0].key, VictimKeys(victims[1..]));
    KeysWithout(t.rows, victims[0].key);
  }

  lemma DifferenceTwice<T>(a: set<T>, x: T, b: set<T>)
    ensures a - {x} - b == a - ({x} + b)
  {
  }

  lemma KeysWithout<K, V>(m: map<K, V>, k: K)
    ensures (m - {k}).Keys == m.Keys - {k}
  {
  }

  lemma FirstKey(victims: seq<Victim>)
    requires victims != []
    ensures VictimKeys(victims) == {victims[0].key} + VictimKeys(victims[1..])
  {
    assert victims == [victims[0]] + victims[1..];
  }

  lemma EvictedKeepsInv(max: nat, t: Table, id: Id)
    requires Inv(max, t) && id in t.stores && t.stores[id].pc == Evicting([])
    ensures Inv(max, Advance(t, id, Finished))
  {
    assert PaysItsShare(max, t, t.stores[id]);
    assert t.rows.Keys - Doomed(t.stores[id]) == t.rows.Keys;
    SettlingKeepsInv(max, t, id);
  }

  lemma UnlinkedKeepsInv(max: nat, t: Table, id: Id)
    requires Inv(max, t) && id in t.stores && t.stores[id].pc.Unlinking?
    ensures
      var victims := t.stores[id].pc.victims;
      Inv(max, Advance(t, id, Evicting(if victims == [] then [] else victims[1..])))
  {
    var s := t.stores[id];
    var s' := s.(pc := Evicting(if s.pc.victims == [] then [] else s.pc.victims[1..]));
    assert Doomed(s') == Doomed(s) && PaysItsShare(max, t, s);
    MovingOnKeepsInv(max, t, id, s');
  }

  lemma FailingKeepsInv(max: nat, t: Table, id: Id)
    requires Inv(max, t) && id in t.stores && !t.stores[id].pc.Finished?
    ensures Inv(max, Advance(t, id, Failed))
  {
    MovingOnKeepsInv(max, t, id, t.stores[id].(pc := Failed));
  }

  lemma CountingKeepsInv(max: nat, t: Table, e: Event)
    requires Inv(max, t) && e.Statement? && e.id in t.stores && t.stores[e.id].pc.Inserted? && e.ok
    ensures Inv(max, StatementStep(max, t, e))
  {
    hide Inv;
    if |t.rows| > max {
      CountKeepsInv(max, t, e.id, |t.rows| - max);
    } else {
      FindingRoomKeepsInv(max, t, e.id);
    }
  }

  lemma StatementKeepsInv(max: nat, t: Table, e: Event)
    requires max > 0 && Inv(max, t) && e.Statement? && e.id in t.stores
    ensures Inv(max, StatementStep(max, t, e))
  {
    var s, t' := t.stores[e.id], StatementStep(max, t, e);
    assert TimesOk(t, s);
    hide Inv, IsLruSelection, Advance;
    if t' == t {
    } else if !e.ok && !s.pc.Unlinking? && !(s.pc.Evicting? && s.pc.victims == []) {
      FailingKeepsInv(max, t, e.id);
    } else {
      match s.pc {
        case Pending => InsertKeepsInv(max, t, e.id, Row(s.entry, s.entry.createdAt));
        case Inserted => CountingKeepsInv(max, t, e);
        case Counted(_) => SelectKeepsInv(max, t, e.id, e.victims);
        case Evicting(victims) =>
          if victims == [] { EvictedKeepsInv(max, t, e.id); } else { DeletingVictimKeepsInv(max, t, e.id); }
        case Unlinking(_) => UnlinkedKeepsInv(max, t, e.id);
        case _ =>
      }
    }
  }

  lemma OpeningKeepsInv(max: nat, t: Table, id: Id, entry: Entry)
    requires Inv(max, t) && id !in t.stores
    ensures Inv(max, Step(max, t, Open(id, entry)))
  {
    var t' := Step(max, t, Open(id, entry));
    assert Unsettled(t'.stores) == Unsettled(t.stores);
    forall i | i in t'.stores && HasCounted(t'.stores[i])
      ensures PaysItsShare(max, t', t'.stores[i])
    {
      OpeningIsNotLater(t.stores, id, entry, t.stores[i].cnt);
      assert PaysItsShare(max, t, t.stores[i]);
    }
  }

  lemma OpeningIsNotLater(stores: map<Id, Store>, id: Id, entry: Entry, when: nat)
    requires id !in stores
    ensures Later(stores[id := Store(entry, Pending, 0, 0)], when) == Later(stores, when)
  {
  }

  lemma StepKeepsInv(max: nat, t: Table, e: Event)
    requires max > 0 && Inv(max, t)
    ensures Inv(max, Step(max, t, e))
  {
    match e {
      case Open(id, entry) =>
        if id !in t.stores { OpeningKeepsInv(max, t, id, entry); }
      case Statement(id, _, _) =>
        if id in t.stores { StatementKeepsInv(max, t, e); }
      case Touch(key, now) =>
        if key in t.rows {
          ShrinkingKeepsInv(max, t, t.rows[key := t.rows[key].(lastAccess := now)]);
        }
      case Delete(key) =>
        ShrinkingKeepsInv(max, t, t.rows - {key});
    }
  }

  lemma {:induction false} RunKeepsInv(max: nat, events: seq<Event>)
    requires max > 0
    ensures Inv(max, Run(max, events))
  {
    if events != [] {
      RunKeepsInv(max, events[..|events| - 1]);
      StepKeepsInv(max, Run(max, events[..|events| - 1]), events[|events| - 1]);
    }
  }

  /** Row bound: whatever the interleaving of stores, touches and deletes, the table
      never holds more than `max` rows plus one for each store that has inserted and
      not finished; stores that failed after their INSERT count among these.  With
      none in flight and none failed it holds at most `max`. */
  lemma RowBound(max: nat, events: seq<Event>)
    requires max > 0
    ensures
      var t := Run(max, events);
      && |t.rows| <= max + |set i | i in t.stores && t.stores[i].ins > 0 && !t.stores[i].pc.Finished?|
      && ((forall i :: i in t.stores ==> t.stores[i].pc.Finished? || t.stores[i].ins == 0) ==> |t.rows| <= max)
  {
    RunKeepsInv(max, events);
    var t := Run(max, events);
    assert Unsettled(t.stores) == set i | i in t.stores && t.stores[i].ins > 0 && !t.stores[i].pc.Finished?;
    if forall i :: i in t.stores ==> t.stores[i].pc.Finished? || t.stores[i].ins == 0 {
      assert Unsettled(t.stores) == {};
    }
  }

  /** The bound is repaired by every store that completes: from then on the table holds
      at most `max` rows plus one for each store that inserted after its COUNT and has
      not finished.  An older store that failed no longer counts. */
  lemma RowBoundSinceCount(max: nat, events: seq<Event>, id: Id)
    requires max > 0 && id in Run(max, events).stores && Run(max, events).stores[id].pc.Finished?
    ensures
      var t := Run(max, events);
      var when := t.stores[id].cnt;
      && 0 < t.stores[id].ins < when
      && |t.rows| <= max + |set i | i in t.stores && t.stores[i].ins > when && !t.stores[i].pc.Finished?|
  {
    RunKeepsInv(max, events);
    var t := Run(max, events);
    var when := t.stores[id].cnt;
    assert TimesOk(t, t.stores[id]) && PaysItsShare(max, t, t.stores[id]);
    assert t.rows.Keys - Doomed(t.stores[id]) == t.rows.Keys;
    assert Later(t.stores, when) == set i | i in t.stores && t.stores[i].ins > when && !t.stores[i].pc.Finished?;
  }

  predicate InFlight(s: Store) {
    s.ins > 0 && !s.pc.Finished? && !s.pc.Failed?
  }

  /** A store that failed once its row was in, and that no later store has made up for. */
  predicate FailedSince(s: Store, when: nat) {
    s.pc.Failed? && s.ins > when
  }

  /** With nothing in flight the table is within its limit if no store has failed after
      its INSERT, or some store has finished whose COUNT came after all such. */
  lemma QuietTableKeepsLimit(max: nat, events: seq<Event>, when: nat)
    requires max > 0
    requires
      var stores := Run(max, events).stores;
      && (forall i :: i in stores ==> !InFlight(stores[i]) && !FailedSince(stores[i], when))
      && (when == 0 || exists i :: i in stores && stores[i].pc.Finished? && stores[i].cnt == when)
    ensures |Run(max, events).rows| <= max
  {
    var t := Run(max, events);
    if when == 0 {
      RowBound(max, events);
    } else {
      var id :| id in t.stores && t.stores[id].pc.Finished? && t.stores[id].cnt == when;
      RowBoundSinceCount(max, events, id);
      assert forall i :: i in t.stores ==> !InFlight(t.stores[i]) && !FailedSince(t.stores[i], when);
      assert (set i | i in t.stores && t.stores[i].ins > when && !t.stores[i].pc.Finished?) == {};
    }
  }

  // ---------- Stores that fail ----------

  function NthKey(i: nat): string {
    seq(i, _ => 'k')
  }

  function NthEntry(i: nat): Entry {
    Entry(NthKey(i), "HEAD", "", 200, [], None, 0, 0, 1)
  }

  /** `n` stores, one after the other, each under a key of its own: the COUNT of the
      first `max` succeeds, and that of the others fails. */
  function Filling(max: nat, n: nat): seq<Event> {
    if n == 0 then []
    else
      Filling(max, n - 1) + [Open(n - 1, NthEntry(n - 1))] + [Statement(n - 1, true, [])]
      + [Statement(n - 1, n <= max, [])]
  }

  function NthRows(n: nat): map<string, Row> {
    if n == 0 then map[] else NthRows(n - 1)[NthKey(n - 1) := Row(NthEntry(n - 1), 0)]
  }

  lemma {:induction false} NthRowsSize(n: nat)
    ensures |NthRows(n)| == n && forall key :: key in NthRows(n) ==> |key| < n
  {
    if n > 0 {
      NthRowsSize(n - 1);
      assert |NthKey(n - 1)| == n - 1;
    }
  }

  lemma RunSnoc(max: nat, events: seq<Event>, e: Event)
    ensures Run(max, events + [e]) == Step(max, Run(max, events), e)
  {
    assert (events + [e])[..|events|] == events;
  }

  /** One store alone: its INSERT, and a COUNT that finds room or fails. */
  lemma StoreAlone(max: nat, t: Table, id: Id, entry: Entry, ok: bool)
    requires max > 0 && id !in t.stores && (ok ==> |t.rows| < max)
    ensures
      var t1 := Step(max, t, Open(id, entry));
      var t2 := Step(max, t1, Statement(id, true, []));
      var t3 := Step(max, t2, Statement(id, ok, []));
      && t3.rows == t.rows[entry.key := Row(entry, entry.createdAt)]
      && id in t3.stores && t3.stores == t.stores[id := t3.stores[id]]
      && t3.stores[id].ins > 0 && t3.stores[id].pc == if ok then Finished else Failed
  {
    var t1 := Step(max, t, Open(id, entry));
    var t2 := Step(max, t1, Statement(id, true, []));
    var t3 := Step(max, t2, Statement(id, ok, []));
    InsertedSize(t.rows, entry.key, Row(entry, entry.createdAt));
    hide IsLruSelection;
    UpdateTwice(t.stores, id, t1.stores[id], t2.stores[id]);
    UpdateTwice(t.stores, id, t2.stores[id], t3.stores[id]);
  }

  lemma InsertedSize<K, V>(m: map<K, V>, k: K, v: V)
    ensures |m[k := v]| <= |m| + 1
  {
    assert m[k := v].Keys == m.Keys + {k};
    assert |m.Keys| == |m| && |m[k := v].Keys| == |m[k := v]|;
  }

  ghost predicate IsFilled(max: nat, n: nat, t: Table) {
    && t.rows == NthRows(n)
    && (forall i: Id :: i in t.stores <==> i < n)
    && (forall i :: i in t.stores ==> t.stores[i].ins > 0 && t.stores[i].pc == if i < max then Finished else Failed)
  }

  lemma FilledOnce(max: nat, n: nat, t: Table, t': Table)
    requires IsFilled(max, n, t) && n in t'.stores
    requires t'.rows == t.rows[NthKey(n) := Row(NthEntry(n), 0)] && t'.stores == t.stores[n := t'.stores[n]]
    requires t'.stores[n].ins > 0 && t'.stores[n].pc == if n < max then Finished else Failed
    ensures IsFilled(max, n + 1, t')
  {
    hide NthKey, NthEntry;
  }

  lemma FillingRuns(max: nat, n: nat)
    ensures
      var t1 := Step(max, Run(max, Filling(max, n)), Open(n, NthEntry(n)));
      var t2 := Step(max, t1, Statement(n, true, []));
      Run(max, Filling(max, n + 1)) == Step(max, t2, Statement(n, n < max, []))
  {
    hide Run, Step, NthKey, NthEntry;
    var before := Filling(max, n);
    var open, insert, count := Open(n, NthEntry(n)), Statement(n, true, []), Statement(n, n < max, []);
    RunSnoc(max, before, open);
    RunSnoc(max, before + [open], insert);
    RunSnoc(max, before + [open] + [insert], count);
  }

  lemma FilledStep(max: nat, n: nat, t: Table)
    requires max > 0 && IsFilled(max, n, t)
    ensures
      var t1 := Step(max, t, Open(n, NthEntry(n)));
      var t2 := Step(max, t1, Statement(n, true, []));
      IsFilled(max, n + 1, Step(max, t2, Statement(n, n < max, [])))
  {
    var t1 := Step(max, t, Open(n, NthEntry(n)));
    var t2 := Step(max, t1, Statement(n, true, []));
    NthRowsSize(n);
    assert n !in t.stores && |t.rows| == n;
    hide Step, NthKey, NthRows, IsFilled;
    StoreAlone(max, t, n, NthEntry(n), n < max);
    FilledOnce(max, n, t, Step(max, t2, Statement(n, n < max, [])));
  }

  lemma NothingFilled(max: nat)
    ensures IsFilled(max, 0, Run(max, Filling(max, 0)))
  {
  }

  lemma {:induction false} FilledTable(max: nat, n: nat)
    requires max > 0
    ensures IsFilled(max, n, Run(max, Filling(max, n)))
  {
    hide Run, Step, NthEntry, Filling, IsFilled;
    if n == 0 {
      NothingFilled(max);
    } else {
      var before := n - 1;
      FilledTable(max, before);
      FillingRuns(max, before);
      FilledStep(max, before, Run(max, Filling(max, before)));
    }
  }

  /** Where stores fail between INSERT and COUNT the limit is lost, by as many rows as
      one likes: a run that ends with nothing in flight and `extra` rows too many. */
  lemma FailedStoresOvershoot(max: nat, extra: nat)
    requires max > 0
    ensures
      var t := Run(max, Filling(max, max + extra));
      && |t.rows| == max + extra
      && (forall i :: i in t.stores ==> !InFlight(t.stores[i]))
      && (forall i :: i in t.stores ==> (FailedSince(t.stores[i], 0) <==> i >= max))
  {
    hide Filling, Run;
    FilledTable(max, max + extra);
    NthRowsSize(max + extra);
    hide NthRows;
  }
}
