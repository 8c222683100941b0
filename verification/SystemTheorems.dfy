/** The guarantees of the cache, over every interleaving of answers, tees, writers,
    stores, lookups, deletes and evictions. */
module SystemTheorems {
  import opened Basics
  import opened CacheKey
  import opened System
  import opened SystemSafety
  import opened SystemClock
  import Pipeline
  import Db

  /** End to end, for a GET that asks when `Elapsed(before)` seconds have passed: what its
      hit opens is the body of one earlier answer, 2xx but not 206, to a request without
      a range for the same URL; it is the whole body if and only if that answer declared
      no length shorter than its body, and as much as it declared otherwise.  The row is
      that of one such answer too, which is still fresh at that time; and if no writer of
      the key has renamed since that row was inserted, status, headers, expiry and length
      are of the answer whose body it is. */
  lemma HitServesOneAnswer(cfg: Config, before: seq<Event>, id: Id, url: string, after: seq<Event>)
    requires id !in Run(cfg, before).lookups
    requires
      var lookups := Run(cfg, before + [Ask(id, Get, url)] + after).lookups;
      id in lookups && lookups[id].pc.Closed? && lookups[id].pc.reply.Replayed?
    ensures
      var s := Run(cfg, before + [Ask(id, Get, url)] + after);
      var r := s.lookups[id].pc.reply;
      && r.file.Some? && r.file.value.from in s.exchanges && r.prov.from in s.exchanges
      && (var x := s.exchanges[r.file.value.from];
          && (var shorter := x.contentLength.Some? && x.contentLength.value < |x.body|;
              && r.file.value.bytes == (if shorter then x.body[..x.contentLength.value] else x.body)
              && (r.file.value.bytes == x.body <==> !shorter))
          && x.verb.Get? && x.url == url && !x.ranged
          && 200 <= x.status < 300 && x.status != 206
          && (r.renames == r.prov.seen ==>
                && r.entry.status == x.status && r.entry.headers == x.headers
                && x.expiry == Some(r.entry.expiresAt) && r.entry.bodySize == |r.file.value.bytes|))
      && (var y := s.exchanges[r.prov.from];
          && y.verb.Get? && y.url == url && !y.ranged
          && r.entry.status == y.status && r.entry.headers == y.headers && y.expiry == Some(r.entry.expiresAt))
      && r.entry.url == url && r.entry.verb == "GET" && r.entry.expiresAt > Elapsed(before)
  {
    var events := before + [Ask(id, Get, url)] + after;
    RunKeepsInv(cfg, events);
    LookupIsDated(cfg, before, id, Get, url, after);
    var s := Run(cfg, events);
    hide Run, Elapsed;
    var l := s.lookups[id];
    assert LookupOk(s.exchanges, s.renames, l);
    HitIsOfOneAnswer(s.exchanges, s.renames, l);
    assert Cacheable(s.exchanges[l.pc.reply.file.value.from]) && Cacheable(s.exchanges[l.pc.reply.prov.from]);
    hide Inv, LookupOk;
  }

  lemma HitIsOfOneAnswer(exchanges: map<Id, Exchange>, renames: map<string, seq<Id>>, l: Lookup)
    requires LookupOk(exchanges, renames, l) && l.verb.Get? && l.pc.Closed? && l.pc.reply.Replayed?
    ensures
      var r := l.pc.reply;
      && r.file.Some? && r.file.value.from in exchanges && r.prov.from in exchanges
      && (var x := exchanges[r.file.value.from];
          && r.file.value.bytes == Kept(x) && x.verb.Get? && x.url == l.url
          && (r.renames == r.prov.seen ==> EntryMatches(x, r.entry)))
      && EntryMatches(exchanges[r.prov.from], r.entry) && exchanges[r.prov.from].verb.Get?
      && r.entry.url == l.url && r.entry.verb == "GET" && r.entry.expiresAt > l.now
  {
    var r := l.pc.reply;
    var x, y := exchanges[r.file.value.from], exchanges[r.prov.from];
    KeyIsInjective(VerbName(x.verb), x.url, VerbName(l.verb), l.url);
    KeyIsInjective(VerbName(y.verb), y.url, VerbName(l.verb), l.url);
  }

  /** A HEAD hit replays the status and headers of one earlier HEAD answer for the
      same URL, still fresh when the hit was asked for, and never a row stored for a
      GET. */
  lemma HeadHitReplaysAHeadAnswer(cfg: Config, before: seq<Event>, id: Id, url: string, after: seq<Event>)
    requires id !in Run(cfg, before).lookups
    requires
      var lookups := Run(cfg, before + [Ask(id, Head, url)] + after).lookups;
      id in lookups && lookups[id].pc.Closed? && lookups[id].pc.reply.Replayed?
    ensures
      var s := Run(cfg, before + [Ask(id, Head, url)] + after);
      var r := s.lookups[id].pc.reply;
      && r.file.None? && r.prov.from in s.exchanges
      && (var x := s.exchanges[r.prov.from];
          && x.verb.Head? && x.url == url && !x.ranged && 200 <= x.status < 300 && x.status != 206
          && r.entry.status == x.status && r.entry.headers == x.headers && r.entry.bodyPath.None?
          && x.expiry == Some(r.entry.expiresAt))
      && r.entry.expiresAt > Elapsed(before)
  {
    var events := before + [Ask(id, Head, url)] + after;
    RunKeepsInv(cfg, events);
    LookupIsDated(cfg, before, id, Head, url, after);
    var s := Run(cfg, events);
    hide Run, Elapsed;
    var l := s.lookups[id];
    assert LookupOk(s.exchanges, s.renames, l);
    HeadHitIsOfOneAnswer(s.exchanges, s.renames, l);
    assert Cacheable(s.exchanges[l.pc.reply.prov.from]);
    hide Inv, LookupOk;
  }

  lemma HeadHitIsOfOneAnswer(exchanges: map<Id, Exchange>, renames: map<string, seq<Id>>, l: Lookup)
    requires LookupOk(exchanges, renames, l) && l.verb.Head? && l.pc.Closed? && l.pc.reply.Replayed?
    ensures
      var r := l.pc.reply;
      && r.file.None? && r.prov.from in exchanges && r.entry.expiresAt > l.now
      && EntryMatches(exchanges[r.prov.from], r.entry)
      && exchanges[r.prov.from].verb.Head? && exchanges[r.prov.from].url == l.url
  {
    var y := exchanges[l.pc.reply.prov.from];
    KeyIsInjective(VerbName(y.verb), y.url, VerbName(l.verb), l.url);
  }

  /** Row/file agreement: unless a writer of the key stands between its rename and
      its INSERT (or the cleanup of a store that failed before it), the file of a row
      is absent or is what was committed with that row, `bodySize` bytes long. */
  lemma RowAndFileAgree(cfg: Config, events: seq<Event>, key: string)
    requires
      var s := Run(cfg, events);
      key in s.db.rows && key in s.files && !Window(s.txns, s.db.stores, key)
    ensures
      var s := Run(cfg, events);
      var e, f := s.db.rows[key].entry, s.files[key];
      && key in s.provs && s.provs[key].from == f.from
      && f.from in s.exchanges && f.bytes == Kept(s.exchanges[f.from])
      && EntryMatches(s.exchanges[f.from], e)
      && e.bodyPath == Some(key) && |f.bytes| == e.bodySize
  {
    RunKeepsInv(cfg, events);
    var s := Run(cfg, events);
    hide Run, LocksInv, StoresInv, LookupsInv;
    assert s.provs[key].from == s.files[key].from;
    hide AgreementInv, Window;
    FileIsOfAGet(cfg, s, key);
    hide TxnsInv, RenamesInv;
  }

  lemma FileIsOfAGet(cfg: Config, s: State, key: string)
    requires TxnsInv(cfg, s.exchanges, s.txns) && RenamesInv(s.renames, s.txns)
    requires FilesInv(s.files, s.exchanges, s.renames) && key in s.files
    ensures
      var f := s.files[key];
      f.from in s.exchanges && s.exchanges[f.from].verb.Get? && KeyOf(s.exchanges[f.from]) == key
  {
    var i := s.files[key].from;
    assert i in s.renames[key];
    assert HasRenamed(s.txns, i) && TxnOk(cfg, s.txns[i]);
    hide TxnOk;
  }

  /** One writer per key: the lock set is the keys of the writers that have not
      exited, and no two of them share a key. */
  lemma OneWriterPerKey(cfg: Config, events: seq<Event>)
    ensures
      var s := Run(cfg, events);
      && s.locks == (set i | i in s.txns && Live(s.txns, i) :: KeyOf(s.txns[i].x))
      && (forall i, j :: Live(s.txns, i) && Live(s.txns, j) && KeyOf(s.txns[i].x) == KeyOf(s.txns[j].x) ==> i == j)
  {
    RunKeepsInv(cfg, events);
    var s := Run(cfg, events);
    forall key | key in s.locks
      ensures key in (set i | i in s.txns && Live(s.txns, i) :: KeyOf(s.txns[i].x))
    {
      assert Held(s.txns, key);
    }
  }

  lemma OnlyPipesRename(cfg: Config, s: State, e: Event)
    ensures Step(cfg, s, e).renames == s.renames || (e.Pipe? && e.id in s.txns && PipeEnabled(s, e.id, e.step))
  {
    hide PipeEnabled, Pipeline.Step, Db.Step, AfterUnlink, LookupGoes, RowsAfter, FilesAfter, Gate;
  }

  lemma RenamingIsTheHoldersOwn(cfg: Config, s: State, id: Id, e: Pipeline.Event, key: string)
    requires id in s.txns && TxnOk(cfg, s.txns[id]) && PipeEnabled(s, id, e)
    requires Renames(PipeStep(cfg, s, id, e), key) != Renames(s, key)
    ensures
      && Live(s.txns, id) && KeyOf(s.txns[id].x) == key
      && Renames(PipeStep(cfg, s, id, e), key) == Renames(s, key) + [id]
  {
    if QuietMove(s.txns[id].pipe.writer, Moved(cfg, s.txns[id], e).pipe.writer) {
      hide PipeEnabled, TxnOk, Pipeline.Step;
      MovedHasShape(cfg, s.txns[id], e);
      QuietPipeStep(cfg, s, id, e);
    } else {
      hide PipeEnabled, TxnOk, Pipeline.Step, PipeStep;
      RenamingPipeStep(cfg, s, id, e);
    }
  }

  /** Every rename onto a final path is done by the one holder of the key's permit. */
  lemma RenamesHoldThePermit(cfg: Config, events: seq<Event>, e: Event, key: string)
    requires Renames(Step(cfg, Run(cfg, events), e), key) != Renames(Run(cfg, events), key)
    ensures
      var s := Run(cfg, events);
      && e.Pipe? && Live(s.txns, e.id) && KeyOf(s.txns[e.id].x) == key && key in s.locks
      && Renames(Step(cfg, s, e), key) == Renames(s, key) + [e.id]
      && (forall j :: Live(s.txns, j) && KeyOf(s.txns[j].x) == key ==> j == e.id)
  {
    RunKeepsInv(cfg, events);
    var s := Run(cfg, events);
    OnlyPipesRename(cfg, s, e);
    assert TxnOk(cfg, s.txns[e.id]);
    hide PipeStep, PipeEnabled, TxnOk, Run;
    RenamingIsTheHoldersOwn(cfg, s, e.id, e.step, key);
  }

  lemma StepKeepsRowBound(cfg: Config, s: State, e: Event)
    requires cfg.maxEntries > 0 && Db.Inv(cfg.maxEntries, s.db)
    ensures Db.Inv(cfg.maxEntries, Step(cfg, s, e).db)
  {
    hide Db.Inv, Db.Step, Pipeline.Step, PipeEnabled;
    match e {
      case Answer(id, x) =>
        if id !in s.exchanges && FitsU64(x) && Gate(cfg, x, s.now).StoreHead? {
          Db.StepKeepsInv(cfg.maxEntries, s.db, Db.Open(id, EntryOf(x, s.now, 0)));
        }
      case Pipe(id, step) =>
        if id in s.txns && s.txns[id].x.expiry.Some? {
          var t := s.txns[id];
          var size := Moved(cfg, t, step).pipe.writer.size;
          Db.StepKeepsInv(cfg.maxEntries, s.db, Db.Open(id, EntryOf(t.x, t.createdAt, size)));
        }
      case Sql(id, ok, victims) =>
        Db.StepKeepsInv(cfg.maxEntries, s.db, Db.Statement(id, ok, victims));
      case Ask(_, _, _) =>
      case LookupStep(id, ok) =>
        if id in s.lookups {
          var l := s.lookups[id];
          Db.StepKeepsInv(cfg.maxEntries, s.db, Db.Delete(LookupKey(l)));
          Db.StepKeepsInv(cfg.maxEntries, s.db, Db.Touch(LookupKey(l), l.now));
        }
      case Tick(_) =>
    }
  }

  lemma {:induction false} RunKeepsRowBound(cfg: Config, events: seq<Event>)
    requires cfg.maxEntries > 0
    ensures Db.Inv(cfg.maxEntries, Run(cfg, events).db)
  {
    if events != [] {
      RunKeepsRowBound(cfg, events[..|events| - 1]);
      StepKeepsRowBound(cfg, Run(cfg, events[..|events| - 1]), events[|events| - 1]);
    }
  }

  /** The row bound for the whole system: at most `maxEntries` rows plus one for each
      store that has inserted and not finished. */
  lemma SystemRowBound(cfg: Config, events: seq<Event>)
    requires cfg.maxEntries > 0
    ensures
      var db := Run(cfg, events).db;
      |db.rows| <= cfg.maxEntries + |set i | i in db.stores && db.stores[i].ins > 0 && !db.stores[i].pc.Finished?|
  {
    RunKeepsRowBound(cfg, events);
    var db := Run(cfg, events).db;
    assert Db.Unsettled(db.stores) == set i | i in db.stores && db.stores[i].ins > 0 && !db.stores[i].pc.Finished?;
  }

  /** No file at a final path is that of a writer which has given up. */
  ghost predicate NoFilesOfTheFailed(s: State) {
    forall key :: key in s.files ==>
      && s.files[key].from in s.txns
      && s.txns[s.files[key].from].pipe.writer.pc != Pipeline.Exited(false)
  }

  /** A failed writer cleans up at its own key, and no file of its own is at another. */
  lemma QuietMoveCleansUp(cfg: Config, s: State, id: Id, t': Txn)
    requires NoFilesOfTheFailed(s) && id in s.txns && t'.x == s.txns[id].x
    requires FilesInv(s.files, s.exchanges, s.renames) && RenamesInv(s.renames, s.txns)
    requires WriterShape(s.txns[id].pipe.writer, t'.pipe.writer)
    requires Pipeline.FileInv(t'.pipe.writer) && QuietMove(s.txns[id].pipe.writer, t'.pipe.writer)
    ensures
      var gone := s.txns[id].pipe.writer.pc.CleaningUp? && t'.pipe.writer.pc.Exited?;
      var files := if gone then s.files - {KeyOf(t'.x)} else s.files;
      NoFilesOfTheFailed(s.(txns := s.txns[id := t'], files := files))
  {
    var w, w' := s.txns[id].pipe.writer, t'.pipe.writer;
    forall key | key in s.files && s.files[key].from == id
      ensures KeyOf(t'.x) == key
      ensures w'.pc == Pipeline.Exited(false) ==> w.pc.CleaningUp?
    {
      assert id in s.renames[key];
      assert HasRenamed(s.txns, id);
    }
  }

  lemma RenameIsNoneOfTheFailed(s: State, id: Id, t': Txn, key: string, bytes: Bytes)
    requires NoFilesOfTheFailed(s) && id in s.txns && t'.pipe.writer.pc.Storing?
    ensures NoFilesOfTheFailed(s.(txns := s.txns[id := t'], files := s.files[key := File(bytes, id)]))
  {
  }

  lemma NoNewFiles(s: State, s': State)
    requires NoFilesOfTheFailed(s) && forall i :: i in s.txns ==> i in s'.txns && s'.txns[i] == s.txns[i]
    requires forall key :: key in s'.files ==> key in s.files && s'.files[key] == s.files[key]
    ensures NoFilesOfTheFailed(s')
  {
  }

  lemma QuietPipeCleansUp(cfg: Config, s: State, id: Id, e: Pipeline.Event)
    requires Inv(cfg, s) && NoFilesOfTheFailed(s) && id in s.txns && PipeEnabled(s, id, e)
    requires QuietMove(s.txns[id].pipe.writer, Moved(cfg, s.txns[id], e).pipe.writer)
    ensures NoFilesOfTheFailed(PipeStep(cfg, s, id, e))
  {
    var t, t' := s.txns[id], Moved(cfg, s.txns[id], e);
    assert TxnOk(cfg, t) && t'.x == t.x;
    MovedIsOk(cfg, s, id, e);
    assert Pipeline.FileInv(t'.pipe.writer);
    MovedHasShape(cfg, t, e);
    hide TxnOk, PipeEnabled, PipeStep, Moved, KeyOf, Pipeline.FileInv, QuietMove;
    QuietPipeStep(cfg, s, id, e);
    QuietMoveCleansUp(cfg, s, id, t');
    hide Inv, NoFilesOfTheFailed;
    var files := if t.pipe.writer.pc.CleaningUp? && t'.pipe.writer.pc.Exited? then s.files - {KeyOf(t'.x)} else s.files;
    var s' := PipeStep(cfg, s, id, e);
    assert e.TeeEvent? ==> files == s.files by {
      hide WriterShape;
    }
    NoNewFiles(s.(txns := s.txns[id := t'], files := files), s');
  }

  lemma PipeKeepsNoFilesOfTheFailed(cfg: Config, s: State, id: Id, e: Pipeline.Event)
    requires Inv(cfg, s) && NoFilesOfTheFailed(s) && id in s.txns && PipeEnabled(s, id, e)
    ensures NoFilesOfTheFailed(PipeStep(cfg, s, id, e))
  {
    var t, t' := s.txns[id], Moved(cfg, s.txns[id], e);
    assert TxnOk(cfg, t);
    hide Inv, TxnOk, PipeEnabled, PipeStep, Moved, KeyOf, QuietMove, NoFilesOfTheFailed;
    if QuietMove(t.pipe.writer, t'.pipe.writer) {
      QuietPipeCleansUp(cfg, s, id, e);
    } else {
      RenamingPipeStep(cfg, s, id, e);
      var renamed := s.(txns := s.txns[id := t'], files := s.files[KeyOf(t'.x) := File(Kept(t'.x), id)]);
      RenameIsNoneOfTheFailed(s, id, t', KeyOf(t'.x), Kept(t'.x));
      NoNewFiles(renamed, PipeStep(cfg, s, id, e));
    }
  }

  lemma OtherStepsOnlyRemove(cfg: Config, s: State, e: Event)
    requires !e.Pipe? && !e.Answer?
    ensures
      var s' := Step(cfg, s, e);
      s'.txns == s.txns && forall key :: key in s'.files ==> key in s.files && s'.files[key] == s.files[key]
  {
    hide Db.Step, LookupGoes, RowsAfter;
  }

  lemma AnswerOnlyOpens(cfg: Config, s: State, id: Id, x: Exchange)
    requires id in s.txns ==> id in s.exchanges
    ensures
      var s' := Step(cfg, s, Answer(id, x));
      s'.files == s.files && forall i :: i in s.txns ==> i in s'.txns && s'.txns[i] == s.txns[i]
  {
    hide Gate, Db.Step;
  }

  lemma StepKeepsNoFilesOfTheFailed(cfg: Config, s: State, e: Event)
    requires Inv(cfg, s) && NoFilesOfTheFailed(s)
    ensures NoFilesOfTheFailed(Step(cfg, s, e))
  {
    assert forall i :: i in s.txns ==> i in s.exchanges;
    hide Inv, NoFilesOfTheFailed, PipeEnabled;
    match e {
      case Pipe(id, step) =>
        if id in s.txns && PipeEnabled(s, id, step) {
          PipeKeepsNoFilesOfTheFailed(cfg, s, id, step);
        }
      case Answer(id, x) =>
        hide Step;
        AnswerOnlyOpens(cfg, s, id, x);
        NoNewFiles(s, Step(cfg, s, e));
      case _ =>
        hide Step;
        OtherStepsOnlyRemove(cfg, s, e);
        NoNewFiles(s, Step(cfg, s, e));
    }
  }

  lemma {:induction false} RunKeepsNoFilesOfTheFailed(cfg: Config, events: seq<Event>)
    ensures NoFilesOfTheFailed(Run(cfg, events))
  {
    if events != [] {
      var before := events[..|events| - 1];
      RunKeepsNoFilesOfTheFailed(cfg, before);
      RunKeepsInv(cfg, before);
      hide Inv, Step, NoFilesOfTheFailed;
      StepKeepsNoFilesOfTheFailed(cfg, Run(cfg, before), events[|events| - 1]);
    }
  }

  /** No writer that has exited leaves its temporary file, and one that gave up, its
      store having failed or not, leaves no file of its own at any final path. */
  lemma ExitedWritersCleanUp(cfg: Config, events: seq<Event>, id: Id)
    requires id in Run(cfg, events).txns && !Live(Run(cfg, events).txns, id)
    ensures
      var s := Run(cfg, events);
      && s.txns[id].pipe.writer.temp.None?
      && (s.txns[id].pipe.writer.pc == Pipeline.Exited(false) ==>
            forall key :: key in s.files ==> s.files[key].from != id)
  {
    RunKeepsInv(cfg, events);
    RunKeepsNoFilesOfTheFailed(cfg, events);
    assert TxnOk(cfg, Run(cfg, events).txns[id]);
    hide Run;
  }
}
