/** The two models of the disk cache agree: the statements of a store or of a lookup,
    run in the concurrent system without interruption, come to exactly what the calls
    of `SqliteCache` do. */
module Atomicity {
  import opened Basics
  import opened System
  import Db
  import Pipeline
  import CacheRuns
  import SystemSafety
  import SqliteCache

  /** Rows and file contents, without the history. */
  function View(s: State): SqliteCache.Disk {
    SqliteCache.Disk(s.db.rows, map key | key in s.files :: s.files[key].bytes)
  }

  lemma ViewWithFile(s: State, s': State, key: string, f: File)
    requires s'.db.rows == s.db.rows && s'.files == s.files[key := f]
    ensures View(s') == View(s).(files := View(s).files[key := f.bytes])
  {
  }

  lemma ViewWithout(s: State, s': State, gone: set<string>)
    requires s'.db.rows == s.db.rows && s'.files == s.files - gone
    ensures View(s') == View(s).(files := View(s).files - gone)
  {
  }

  // ---------- Stores ----------

  /** The next `n` statements of one store, all of which succeed. */
  ghost function Statements(cfg: Config, s: State, id: Id, victims: seq<Db.Victim>, n: nat): State
    decreases n
  {
    if n == 0 then s else Statements(cfg, Step(cfg, s, Sql(id, true, victims)), id, victims, n - 1)
  }

  lemma OneMore(cfg: Config, s: State, id: Id, victims: seq<Db.Victim>, n: nat)
    ensures
      Statements(cfg, s, id, victims, n + 1) == Statements(cfg, Step(cfg, s, Sql(id, true, victims)), id, victims, n)
  {
  }

  ghost predicate IsAt(s: State, id: Id, entry: Db.Entry, pc: Db.StorePc) {
    id in s.db.stores && s.db.stores[id].entry == entry && s.db.stores[id].pc == pc
  }

  /** Nothing comes after the end. */
  lemma {:induction false} FinishedStays(cfg: Config, s: State, id: Id, entry: Db.Entry, victims: seq<Db.Victim>,
                                         n: nat)
    requires IsAt(s, id, entry, Db.Finished)
    ensures
      var s' := Statements(cfg, s, id, victims, n);
      IsAt(s', id, entry, Db.Finished) && View(s') == View(s)
    decreases n
  {
    if n > 0 {
      var s1 := Step(cfg, s, Sql(id, true, victims));
      assert IsAt(s1, id, entry, Db.Finished) && View(s1) == View(s);
      hide Step, View;
      FinishedStays(cfg, s1, id, entry, victims, n - 1);
    }
  }

  lemma DeleteStatement(cfg: Config, s: State, id: Id, entry: Db.Entry, victims: seq<Db.Victim>, left: seq<Db.Victim>)
    requires IsAt(s, id, entry, Db.Evicting(left)) && left != []
    ensures
      var s' := Step(cfg, s, Sql(id, true, victims));
      && IsAt(s', id, entry, Db.Unlinking(left))
      && View(s') == SqliteCache.Disk(View(s).rows - {left[0].key}, View(s).files)
  {
  }

  lemma UnlinkStep(cfg: Config, s: State, id: Id, entry: Db.Entry, victims: seq<Db.Victim>, left: seq<Db.Victim>)
    requires IsAt(s, id, entry, Db.Unlinking(left)) && left != []
    ensures
      var s' := Step(cfg, s, Sql(id, true, victims));
      && IsAt(s', id, entry, Db.Evicting(left[1..]))
      && View(s') == SqliteCache.Disk(View(s).rows, View(s).files - SqliteCache.Paths([left[0]]))
  {
    hide View;
    var s', gone := Step(cfg, s, Sql(id, true, victims)), SqliteCache.Paths([left[0]]);
    assert gone == if left[0].path.Some? then {left[0].path.value} else {};
    assert s'.files == s.files - gone && s'.db.rows == s.db.rows;
    ViewWithout(s, s', gone);
    SameRows(s, s);
  }

  lemma EvictedCons(d: SqliteCache.Disk, victims: seq<Db.Victim>)
    requires victims != []
    ensures
      var first := SqliteCache.Disk(d.rows - {victims[0].key}, d.files - SqliteCache.Paths([victims[0]]));
      SqliteCache.Evicted(first, victims[1..]) == SqliteCache.Evicted(d, victims)
  {
    Db.FirstKey(victims);
    assert victims == [victims[0]] + victims[1..];
    assert SqliteCache.Paths(victims) == SqliteCache.Paths([victims[0]]) + SqliteCache.Paths(victims[1..]);
  }

  lemma NothingLeft(cfg: Config, s: State, id: Id, entry: Db.Entry, victims: seq<Db.Victim>)
    requires IsAt(s, id, entry, Db.Evicting([]))
    ensures
      var s' := Step(cfg, s, Sql(id, true, victims));
      IsAt(s', id, entry, Db.Finished) && View(s') == View(s) == SqliteCache.Evicted(View(s), [])
  {
    assert View(s).rows - {} == View(s).rows && View(s).files - {} == View(s).files;
  }

  lemma {:induction false} EvictionRuns(cfg: Config, s: State, id: Id, entry: Db.Entry, victims: seq<Db.Victim>,
                                        left: seq<Db.Victim>)
    requires IsAt(s, id, entry, Db.Evicting(left))
    ensures
      var s' := Statements(cfg, s, id, victims, 2 * |left| + 1);
      IsAt(s', id, entry, Db.Finished) && View(s') == SqliteCache.Evicted(View(s), left)
    decreases |left|
  {
    hide Step, IsAt, View, SqliteCache.Evicted, SqliteCache.Paths;
    var s1 := Step(cfg, s, Sql(id, true, victims));
    if left == [] {
      NothingLeft(cfg, s, id, entry, victims);
      OneMore(cfg, s, id, victims, 0);
      assert Statements(cfg, s1, id, victims, 0) == s1;
    } else {
      hide Statements;
      var s2 := Step(cfg, s1, Sql(id, true, victims));
      OneMore(cfg, s, id, victims, 2 * |left|);
      OneMore(cfg, s1, id, victims, 2 * |left| - 1);
      DeleteStatement(cfg, s, id, entry, victims, left);
      UnlinkStep(cfg, s1, id, entry, victims, left);
      EvictedCons(View(s), left);
      EvictionRuns(cfg, s2, id, entry, victims, left[1..]);
      assert 2 * |left| - 1 == 2 * |left[1..]| + 1;
    }
  }

  lemma InsertStatement(cfg: Config, s: State, id: Id, entry: Db.Entry, victims: seq<Db.Victim>)
    requires IsAt(s, id, entry, Db.Pending)
    ensures
      var s' := Step(cfg, s, Sql(id, true, victims));
      && IsAt(s', id, entry, if cfg.maxEntries > 0 then Db.Inserted else Db.Finished)
      && View(s') == SqliteCache.Upserted(View(s), entry)
  {
  }

  lemma CountStatement(cfg: Config, s: State, id: Id, entry: Db.Entry, victims: seq<Db.Victim>)
    requires IsAt(s, id, entry, Db.Inserted) && cfg.maxEntries > 0
    ensures
      var overflow := SqliteCache.Overflow(cfg.maxEntries, s.db.rows);
      var s' := Step(cfg, s, Sql(id, true, victims));
      && IsAt(s', id, entry, if overflow > 0 then Db.Counted(overflow) else Db.Finished)
      && View(s') == View(s)
  {
  }

  lemma SelectStatement(cfg: Config, s: State, id: Id, entry: Db.Entry, victims: seq<Db.Victim>, overflow: nat)
    requires IsAt(s, id, entry, Db.Counted(overflow)) && Db.IsLruSelection(s.db.rows, overflow, victims)
    ensures
      var s' := Step(cfg, s, Sql(id, true, victims));
      IsAt(s', id, entry, Db.Evicting(victims)) && View(s') == View(s)
  {
    hide Db.IsLruSelection;
  }

  /** A store whose statements run without interruption is the atomic store, for every
      answer the SELECT may give. */
  lemma StoreRunsAtomically(cfg: Config, s: State, id: Id, entry: Db.Entry, victims: seq<Db.Victim>)
    requires IsAt(s, id, entry, Db.Pending)
    requires
      var rows := SqliteCache.Upserted(View(s), entry).rows;
      Db.IsLruSelection(rows, SqliteCache.Overflow(cfg.maxEntries, rows), victims)
    ensures
      var s' := Statements(cfg, s, id, victims, 2 * |victims| + 4);
      && IsAt(s', id, entry, Db.Finished)
      && SqliteCache.Stores(cfg.maxEntries, View(s), entry, victims, View(s'))
  {
    hide Step, Statements, Db.IsLruSelection, View, SqliteCache.Upserted, SqliteCache.Evicted, IsAt;
    var n, e := 2 * |victims|, Sql(id, true, victims);
    var s1 := Step(cfg, s, e);
    InsertStatement(cfg, s, id, entry, victims);
    OneMore(cfg, s, id, victims, n + 3);
    SameRows(s1, s1);
    if cfg.maxEntries == 0 {
      NothingToEvict(View(s1), victims);
      FinishedStays(cfg, s1, id, entry, victims, n + 3);
    } else {
      CountedStoreRuns(cfg, s1, id, entry, victims);
    }
  }

  lemma CountedStoreRuns(cfg: Config, s: State, id: Id, entry: Db.Entry, victims: seq<Db.Victim>)
    requires IsAt(s, id, entry, Db.Inserted) && cfg.maxEntries > 0
    requires Db.IsLruSelection(s.db.rows, SqliteCache.Overflow(cfg.maxEntries, s.db.rows), victims)
    ensures
      var s' := Statements(cfg, s, id, victims, 2 * |victims| + 3);
      IsAt(s', id, entry, Db.Finished) && View(s') == SqliteCache.Evicted(View(s), victims)
  {
    var n, e := 2 * |victims|, Sql(id, true, victims);
    var overflow := SqliteCache.Overflow(cfg.maxEntries, s.db.rows);
    var s1 := Step(cfg, s, e);
    CountStatement(cfg, s, id, entry, victims);
    assert s1.db.rows == s.db.rows by { SameRows(s1, s); }
    OneMore(cfg, s, id, victims, n + 2);
    hide Step, Statements, Db.IsLruSelection, View, SqliteCache.Evicted, IsAt, SqliteCache.Overflow;
    if overflow == 0 {
      assert View(s).rows == s.db.rows by { SameRows(s, s); }
      NothingToEvict(View(s), victims);
      FinishedStays(cfg, s1, id, entry, victims, n + 2);
    } else {
      SelectStatement(cfg, s1, id, entry, victims, overflow);
      OneMore(cfg, s1, id, victims, n + 1);
      EvictionRuns(cfg, Step(cfg, s1, e), id, entry, victims, victims);
    }
  }

  lemma SameRows(s: State, t: State)
    requires View(s) == View(t)
    ensures s.db.rows == t.db.rows == View(s).rows
  {
  }

  lemma NothingToEvict(d: SqliteCache.Disk, victims: seq<Db.Victim>)
    requires Db.IsLruSelection(d.rows, 0, victims)
    ensures victims == [] && SqliteCache.Evicted(d, victims) == d
  {
    assert |victims| == 0;
    hide Db.IsLruSelection;
    assert d.rows - {} == d.rows && d.files - {} == d.files;
  }

  // ---------- Commits ----------

  /** What a transaction commits: what is kept of its body, and its row. */
  function CommitOp(t: Txn, victims: seq<Db.Victim>): CacheRuns.Op
    requires t.x.expiry.Some?
  {
    CacheRuns.Commit(EntryOf(t.x, t.createdAt, |Kept(t.x)|), Kept(t.x), victims)
  }

  /** A writer about to rename has its file and has stored nothing. */
  lemma RenamingIsEnabled(cfg: Config, s: State, id: Id, move: Pipeline.WriterMove)
    requires SystemSafety.Inv(cfg, s) && id in s.txns && s.txns[id].pipe.writer.pc.Renaming? && move.ok
    ensures
      var t, e := s.txns[id], Pipeline.WriterEvent(move);
      && SystemSafety.TxnOk(cfg, t) && PipeEnabled(s, id, e) && t.x.expiry.Some?
      && !SystemSafety.QuietMove(t.pipe.writer, SystemSafety.Moved(cfg, t, e).pipe.writer)
      && id !in s.db.stores
  {
    var t := s.txns[id];
    assert SystemSafety.TxnOk(cfg, t) && !SystemSafety.HasRenamed(s.txns, id);
    assert SystemSafety.Cacheable(t.x) && s.exchanges[id] == t.x;
    SystemSafety.NotStoredBefore(s.db.stores, s.exchanges, s.txns, id);
    RenamingMoves(PipeConfig(cfg, t.x), t.pipe, move);
    hide SystemSafety.Inv, SystemSafety.TxnOk, Pipeline.Step;
  }

  lemma RenamingMoves(cfg: Pipeline.Config, p: Pipeline.State, move: Pipeline.WriterMove)
    requires Pipeline.FileInv(p.writer) && p.writer.pc.Renaming? && move.ok
    ensures p.writer.renamed.None? && Pipeline.Step(cfg, p, Pipeline.WriterEvent(move)).writer.renamed.Some?
  {
  }

  /** The rename puts the body in place and opens the store. */
  lemma RenameStep(cfg: Config, s: State, id: Id, move: Pipeline.WriterMove)
    requires SystemSafety.Inv(cfg, s) && id in s.txns && s.txns[id].pipe.writer.pc.Renaming? && move.ok
    ensures
      var t := s.txns[id];
      var s' := Step(cfg, s, Pipe(id, Pipeline.WriterEvent(move)));
      && t.x.expiry.Some?
      && (var op := CommitOp(t, []);
          IsAt(s', id, op.entry, Db.Pending) && View(s') == CacheRuns.Placed(View(s), op.entry, op.body))
  {
    var t, e := s.txns[id], Pipeline.WriterEvent(move);
    var s' := Step(cfg, s, Pipe(id, e));
    assert s' == PipeStep(cfg, s, id, e);
    RenamingIsEnabled(cfg, s, id, move);
    assert t.x.verb.Get?;
    hide SystemSafety.Inv, SystemSafety.TxnOk, SystemSafety.QuietMove, PipeEnabled, PipeStep;
    SystemSafety.RenamingPipeStep(cfg, s, id, e);
    hide SystemSafety.Moved, View, Step, KeyOf;
    ViewWithFile(s, s', KeyOf(t.x), File(Kept(t.x), id));
  }

  /** In every reachable state the rename of a writer and the statements of its store,
      run without interruption, are the atomic commit. */
  lemma CommitRunsAtomically(cfg: Config, events: seq<Event>, id: Id, move: Pipeline.WriterMove,
                             victims: seq<Db.Victim>)
    requires id in Run(cfg, events).txns && Run(cfg, events).txns[id].pipe.writer.pc.Renaming? && move.ok
    ensures
      var s := Run(cfg, events);
      var s1 := Step(cfg, s, Pipe(id, Pipeline.WriterEvent(move)));
      && s.txns[id].x.expiry.Some?
      && (var op := CommitOp(s.txns[id], victims);
          CacheRuns.Legal(cfg.maxEntries, View(s), op) ==>
            var s' := Statements(cfg, s1, id, victims, 2 * |victims| + 4);
            IsAt(s', id, op.entry, Db.Finished) && View(s') == CacheRuns.Step(View(s), op))
  {
    var s := Run(cfg, events);
    SystemSafety.RunKeepsInv(cfg, events);
    hide Run, SystemSafety.Inv, Step, View, IsAt, Statements, Db.IsLruSelection;
    RenameStep(cfg, s, id, move);
    var op := CommitOp(s.txns[id], victims);
    if CacheRuns.Legal(cfg.maxEntries, View(s), op) {
      StoreRunsAtomically(cfg, Step(cfg, s, Pipe(id, Pipeline.WriterEvent(move))), id, op.entry, victims);
    }
  }

  // ---------- Lookups ----------

  /** The next `n` steps of one lookup, whose statements all succeed. */
  ghost function LookupSteps(cfg: Config, s: State, id: Id, n: nat): State
    decreases n
  {
    if n == 0 then s else LookupSteps(cfg, Step(cfg, s, LookupStep(id, true)), id, n - 1)
  }

  ghost predicate LooksAt(s: State, id: Id, l: Lookup) {
    id in s.lookups && s.lookups[id] == l
  }

  lemma OneLookupStep(cfg: Config, s: State, id: Id, l: Lookup)
    requires LooksAt(s, id, l)
    ensures
      var s' := Step(cfg, s, LookupStep(id, true));
      && LooksAt(s', id, l.(pc := LookupGoes(s, l, true)))
      && s'.db == RowsAfter(cfg, s, l, true) && s'.files == FilesAfter(s, l)
      && s'.provs == s.provs && s'.renames == s.renames
  {
    hide LookupGoes, RowsAfter, FilesAfter;
  }

  /** What a finished lookup answered, against the atomic one. */
  ghost predicate Answers(d: SqliteCache.Disk, l: Lookup, reply: Reply) {
    var key := LookupKey(l);
    if !SqliteCache.Hits(d, key, l.now) then reply.Missed?
    else
      var e := d.rows[key].entry;
      if l.verb.Head? then reply.Replayed? && reply.entry == e && reply.file.None?
      else if e.bodyPath.None? then reply.Bypassed?
      else
        && reply.Replayed? && reply.entry == e
        && reply.file.Some? && reply.file.value.bytes == d.files[e.bodyPath.value]
  }

  /** The delete of a lookup: its SELECT, its DELETE, and the removal of the file. */
  lemma DeleteRunsAtomically(cfg: Config, s: State, id: Id, l: Lookup)
    requires LooksAt(s, id, l) && l.pc.SelectingPath?
    ensures
      var s' := LookupSteps(cfg, s, id, 3);
      && View(s') == SqliteCache.Deleted(View(s), LookupKey(l))
      && LooksAt(s', id, l.(pc := Closed(Missed)))
  {
    var e := LookupStep(id, true);
    var s1 := Step(cfg, s, e);
    var s2 := Step(cfg, s1, e);
    assert LookupSteps(cfg, s, id, 3) == Step(cfg, s2, e) by {
      hide Step;
      OneMoreOfLookup(cfg, s, id, 2);
      OneMoreOfLookup(cfg, s1, id, 1);
      OneMoreOfLookup(cfg, s2, id, 0);
    }
    hide Step, LookupSteps, LookupKey;
    OneLookupStep(cfg, s, id, l);
    var l1 := l.(pc := LookupGoes(s, l, true));
    OneLookupStep(cfg, s1, id, l1);
    OneLookupStep(cfg, s2, id, l1.(pc := LookupGoes(s1, l1, true)));
  }

  lemma HitRunsAtomically(cfg: Config, s: State, id: Id, l: Lookup)
    requires LooksAt(s, id, l) && l.pc.Touching?
    requires LookupKey(l) in s.db.rows && s.db.rows[LookupKey(l)] == l.pc.row
    ensures
      var s' := LookupSteps(cfg, s, id, 3);
      && View(s') == View(s).(rows := View(s).rows[LookupKey(l) := SqliteCache.Touched(l.pc.row, l.now)])
      && id in s'.lookups
      && s'.lookups[id] == l.(pc := LookupGoes(s, l.(pc := Opening(l.pc.row, l.pc.prov)), true))
  {
    var e := LookupStep(id, true);
    var s1 := Step(cfg, s, e);
    var s2 := Step(cfg, s1, e);
    assert LookupSteps(cfg, s, id, 3) == Step(cfg, s2, e) by {
      hide Step;
      OneMoreOfLookup(cfg, s, id, 2);
      OneMoreOfLookup(cfg, s1, id, 1);
      OneMoreOfLookup(cfg, s2, id, 0);
    }
    hide Step, LookupSteps, LookupKey;
    OneLookupStep(cfg, s, id, l);
    var l1 := l.(pc := LookupGoes(s, l, true));
    OneLookupStep(cfg, s1, id, l1);
    OneLookupStep(cfg, s2, id, l1.(pc := LookupGoes(s1, l1, true)));
  }

  /** The two steps that decide a lookup change nothing. */
  lemma CheckingChangesNothing(cfg: Config, s: State, id: Id, l: Lookup)
    requires LooksAt(s, id, l) && (l.pc.Selecting? || l.pc.Checking?)
    ensures
      var s' := Step(cfg, s, LookupStep(id, true));
      && View(s') == View(s) && s'.db == s.db && s'.files == s.files
      && s'.provs == s.provs && s'.renames == s.renames
      && LooksAt(s', id, l.(pc := LookupGoes(s, l, true)))
  {
    OneLookupStep(cfg, s, id, l);
  }

  /** A reply is drawn from the row as it was inserted, and the file as it was renamed, by
      then. */
  ghost predicate IsDrawnFrom(s: State, key: string, reply: Reply)
    requires reply.Replayed?
  {
    key in s.provs && reply.prov == s.provs[key] && reply.renames == |Renames(s, key)|
  }

  /** A lookup that runs without interruption is the atomic lookup. */
  lemma LookupRunsAtomically(cfg: Config, s: State, id: Id, l: Lookup)
    requires LooksAt(s, id, l) && l.pc.Selecting?
    requires forall key :: key in s.db.rows ==> key in s.provs
    ensures
      var s' := LookupSteps(cfg, s, id, 5);
      && View(s') == SqliteCache.AfterGet(View(s), LookupKey(l), l.now)
      && id in s'.lookups && s'.lookups[id].pc.Closed?
      && Answers(View(s), l, s'.lookups[id].pc.reply)
      && (s'.lookups[id].pc.reply.Replayed? ==> IsDrawnFrom(s, LookupKey(l), s'.lookups[id].pc.reply))
  {
    hide Step, LookupSteps;
    var key, e := LookupKey(l), LookupStep(id, true);
    var s1 := Step(cfg, s, e);
    var l1 := l.(pc := LookupGoes(s, l, true));
    OneMoreOfLookup(cfg, s, id, 4);
    CheckingChangesNothing(cfg, s, id, l);
    if key !in s.db.rows {
      ClosedStays(cfg, s1, id, l1, 4);
    } else {
      var s2 := Step(cfg, s1, e);
      OneMoreOfLookup(cfg, s1, id, 3);
      CheckingChangesNothing(cfg, s1, id, l1);
      var l2 := l1.(pc := LookupGoes(s1, l1, true));
      if l2.pc.SelectingPath? {
        DeleteRunsAtomically(cfg, s2, id, l2);
      } else {
        HitRunsAtomically(cfg, s2, id, l2);
      }
    }
  }

  lemma {:induction false} ClosedStays(cfg: Config, s: State, id: Id, l: Lookup, n: nat)
    requires LooksAt(s, id, l) && l.pc.Closed?
    ensures
      var s' := LookupSteps(cfg, s, id, n);
      LooksAt(s', id, l) && View(s') == View(s)
    decreases n
  {
    if n > 0 {
      OneLookupStep(cfg, s, id, l);
      var s1 := Step(cfg, s, LookupStep(id, true));
      assert LooksAt(s1, id, l) && View(s1) == View(s);
      hide Step, View;
      ClosedStays(cfg, s1, id, l, n - 1);
    }
  }

  lemma OneMoreOfLookup(cfg: Config, s: State, id: Id, n: nat)
    ensures LookupSteps(cfg, s, id, n + 1) == LookupSteps(cfg, Step(cfg, s, LookupStep(id, true)), id, n)
    ensures LookupSteps(cfg, s, id, 0) == s
  {
  }

  /** In every reachable state a lookup left to itself answers as the atomic one. */
  lemma UndisturbedLookupIsAtomic(cfg: Config, events: seq<Event>, id: Id)
    requires id in Run(cfg, events).lookups && Run(cfg, events).lookups[id].pc.Selecting?
    ensures
      var s := Run(cfg, events);
      var s', l := LookupSteps(cfg, s, id, 5), s.lookups[id];
      && View(s') == SqliteCache.AfterGet(View(s), LookupKey(l), l.now)
      && id in s'.lookups && s'.lookups[id].pc.Closed?
      && Answers(View(s), l, s'.lookups[id].pc.reply)
      && (s'.lookups[id].pc.reply.Replayed? ==> IsDrawnFrom(s, LookupKey(l), s'.lookups[id].pc.reply))
  {
    var s := Run(cfg, events);
    SystemSafety.RunKeepsInv(cfg, events);
    assert SystemSafety.RowsInv(s.db.rows, s.provs, s.exchanges, s.renames);
    hide Run, Step, LookupSteps, SystemSafety.Inv, SystemSafety.SourceOk;
    LookupRunsAtomically(cfg, s, id, s.lookups[id]);
  }
}
