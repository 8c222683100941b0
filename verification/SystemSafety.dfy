/** What holds in every reachable state of the whole cache. */
module SystemSafety {
  import opened Basics
  import opened CacheKey
  import opened System
  import Pipeline
  import Db

  // ---------- The invariant ----------

  /** An exchange the gate lets into the cache. */
  predicate Cacheable(x: Exchange) {
    && !x.verb.Other? && !x.ranged
    && 200 <= x.status < 300 && x.status != 206 && x.expiry.Some?
  }

  ghost predicate TxnOk(cfg: Config, t: Txn) {
    && t.x.verb.Get?
    && Cacheable(t.x) && FitsU64(t.x)
    && Pipeline.Inv(PipeConfig(cfg, t.x), t.pipe)
    && Concat(t.pipe.tee.forwarded) <= t.x.body
    && (t.pipe.tee.inner.Ended? ==> Concat(t.pipe.tee.forwarded) == t.x.body)
  }

  ghost predicate TxnsInv(cfg: Config, exchanges: map<Id, Exchange>, txns: map<Id, Txn>) {
    && (forall i :: i in exchanges ==> Cacheable(exchanges[i]))
    && (forall i :: i in txns ==> i in exchanges && exchanges[i] == txns[i].x && TxnOk(cfg, txns[i]))
  }

  predicate Live(txns: map<Id, Txn>, i: Id) {
    i in txns && !txns[i].pipe.writer.pc.Exited?
  }

  predicate HasRenamed(txns: map<Id, Txn>, i: Id) {
    i in txns && txns[i].pipe.writer.renamed.Some?
  }

  ghost predicate Held(txns: map<Id, Txn>, key: string) {
    exists i :: Live(txns, i) && KeyOf(txns[i].x) == key
  }

  /** The write locks are exactly the keys of the live permits, one permit a key. */
  ghost predicate LocksInv(locks: set<string>, txns: map<Id, Txn>) {
    && (forall i :: Live(txns, i) ==> KeyOf(txns[i].x) in locks)
    && (forall key :: key in locks ==> Held(txns, key))
    && (forall i, j :: Live(txns, i) && Live(txns, j) && KeyOf(txns[i].x) == KeyOf(txns[j].x) ==> i == j)
  }

  predicate EntryMatches(x: Exchange, e: Db.Entry) {
    && e.key == KeyOf(x) && e.verb == VerbName(x.verb) && e.url == x.url
    && e.status == x.status && e.headers == x.headers && x.expiry == Some(e.expiresAt)
    && e.bodyPath == (if x.verb.Get? then Some(KeyOf(x)) else None)
    && e.bodySize == (if x.verb.Get? then |Kept(x)| else 0)
  }

  /** Stores in progress belong to exchanges; a GET is stored once it has renamed. */
  ghost predicate StoresInv(stores: map<Id, Db.Store>, exchanges: map<Id, Exchange>, txns: map<Id, Txn>) {
    && (forall i :: i in stores ==>
          && i in exchanges && EntryMatches(exchanges[i], stores[i].entry)
          && (exchanges[i].verb.Get? ==> HasRenamed(txns, i)))
    && (forall i :: HasRenamed(txns, i) ==>
          i in stores && (!txns[i].pipe.writer.pc.Storing? ==> stores[i].pc.Finished? || stores[i].pc.Failed?))
  }

  ghost predicate RenamesInv(renames: map<string, seq<Id>>, txns: map<Id, Txn>) {
    && (forall key :: key in renames ==> renames[key] != [])
    && (forall key, i :: key in renames && i in renames[key] ==> HasRenamed(txns, i) && KeyOf(txns[i].x) == key)
    && (forall i :: Live(txns, i) && HasRenamed(txns, i) ==> LastRename(renames, KeyOf(txns[i].x), i))
  }

  predicate LastRename(renames: map<string, seq<Id>>, key: string, i: Id) {
    key in renames && renames[key] != [] && renames[key][|renames[key]| - 1] == i
  }

  /** A file is what is kept of the body of the exchange whose rename came last. */
  ghost predicate FilesInv(files: map<string, File>, exchanges: map<Id, Exchange>, renames: map<string, seq<Id>>) {
    forall key :: key in files ==>
      && LastRename(renames, key, files[key].from)
      && files[key].from in exchanges
      && files[key].bytes == Kept(exchanges[files[key].from])
  }

  /** A row or a copy of one comes from the exchange that `prov` names. */
  ghost predicate SourceOk(exchanges: map<Id, Exchange>, renames: map<string, seq<Id>>,
                           key: string, prov: Prov, e: Db.Entry) {
    && prov.from in exchanges
    && KeyOf(exchanges[prov.from]) == key
    && EntryMatches(exchanges[prov.from], e)
    && (exchanges[prov.from].verb.Get? ==>
          key in renames && 0 < prov.seen <= |renames[key]| && renames[key][prov.seen - 1] == prov.from)
  }

  ghost predicate RowsInv(rows: map<string, Db.Row>, provs: map<string, Prov>,
                          exchanges: map<Id, Exchange>, renames: map<string, seq<Id>>) {
    forall key :: key in rows ==>
      key in provs && SourceOk(exchanges, renames, key, provs[key], rows[key].entry)
  }

  ghost predicate LookupOk(exchanges: map<Id, Exchange>, renames: map<string, seq<Id>>, l: Lookup) {
    var key := LookupKey(l);
    && !l.verb.Other?
    && match l.pc
       case Checking(row, prov) => SourceOk(exchanges, renames, key, prov, row.entry)
       case Touching(row, prov) => SourceOk(exchanges, renames, key, prov, row.entry) && row.entry.expiresAt > l.now
       case Opening(row, prov) => SourceOk(exchanges, renames, key, prov, row.entry) && row.entry.expiresAt > l.now
       case Closed(Replayed(entry, prov, file, n)) =>
         && SourceOk(exchanges, renames, key, prov, entry) && entry.expiresAt > l.now
         && (if l.verb.Head? then file.None?
             else file.Some? && OpenedOk(exchanges, renames, key, file.value, n))
       case _ => true
  }

  /** A file that was opened when there had been `n` renames onto its path. */
  ghost predicate OpenedOk(exchanges: map<Id, Exchange>, renames: map<string, seq<Id>>,
                           key: string, f: File, n: nat) {
    && key in renames && 0 < n <= |renames[key]| && renames[key][n - 1] == f.from
    && f.from in exchanges && KeyOf(exchanges[f.from]) == key
    && f.bytes == Kept(exchanges[f.from])
  }

  ghost predicate LookupsInv(lookups: map<Id, Lookup>, exchanges: map<Id, Exchange>, renames: map<string, seq<Id>>) {
    forall id :: id in lookups ==> LookupOk(exchanges, renames, lookups[id])
  }

  /** Between its rename and its INSERT, or the cleanup that stands in for it. */
  predicate InWindow(txns: map<Id, Txn>, stores: map<Id, Db.Store>, i: Id) {
    && i in txns
    && (txns[i].pipe.writer.pc.Storing? || txns[i].pipe.writer.pc.CleaningUp?)
    && i in stores && stores[i].ins == 0
  }

  ghost predicate Window(txns: map<Id, Txn>, stores: map<Id, Db.Store>, key: string) {
    exists i :: InWindow(txns, stores, i) && KeyOf(txns[i].x) == key
  }

  /** Outside that window a row and its file come from the same exchange. */
  ghost predicate AgreementInv(rows: map<string, Db.Row>, files: map<string, File>, provs: map<string, Prov>,
                               txns: map<Id, Txn>, stores: map<Id, Db.Store>) {
    forall key :: key in rows && key in files && !Window(txns, stores, key) ==>
      key in provs && provs[key].from == files[key].from
  }

  ghost predicate Inv(cfg: Config, s: State) {
    && TxnsInv(cfg, s.exchanges, s.txns)
    && LocksInv(s.locks, s.txns)
    && StoresInv(s.db.stores, s.exchanges, s.txns)
    && Db.TimesInv(s.db)
    && RenamesInv(s.renames, s.txns)
    && FilesInv(s.files, s.exchanges, s.renames)
    && RowsInv(s.db.rows, s.provs, s.exchanges, s.renames)
    && LookupsInv(s.lookups, s.exchanges, s.renames)
    && AgreementInv(s.db.rows, s.files, s.provs, s.txns, s.db.stores)
  }

  // ---------- History only grows ----------

  predicate Grows(exchanges: map<Id, Exchange>, renames: map<string, seq<Id>>,
                  exchanges': map<Id, Exchange>, renames': map<string, seq<Id>>) {
    && (forall i :: i in exchanges ==> i in exchanges' && exchanges'[i] == exchanges[i])
    && (forall key :: key in renames ==> key in renames' && renames[key] <= renames'[key])
  }

  lemma SourceStays(exchanges: map<Id, Exchange>, renames: map<string, seq<Id>>,
                    exchanges': map<Id, Exchange>, renames': map<string, seq<Id>>,
                    key: string, prov: Prov, e: Db.Entry)
    requires Grows(exchanges, renames, exchanges', renames')
    requires SourceOk(exchanges, renames, key, prov, e)
    ensures SourceOk(exchanges', renames', key, prov, e)
  {
  }

  lemma LookupStays(exchanges: map<Id, Exchange>, renames: map<string, seq<Id>>,
                    exchanges': map<Id, Exchange>, renames': map<string, seq<Id>>, l: Lookup)
    requires Grows(exchanges, renames, exchanges', renames')
    requires LookupOk(exchanges, renames, l)
    ensures LookupOk(exchanges', renames', l)
  {
  }

  lemma GrowingKeepsRowsAndLookups(rows: map<string, Db.Row>, provs: map<string, Prov>, lookups: map<Id, Lookup>,
                                   exchanges: map<Id, Exchange>, renames: map<string, seq<Id>>,
                                   exchanges': map<Id, Exchange>, renames': map<string, seq<Id>>)
    requires Grows(exchanges, renames, exchanges', renames')
    requires RowsInv(rows, provs, exchanges, renames) && LookupsInv(lookups, exchanges, renames)
    ensures RowsInv(rows, provs, exchanges', renames') && LookupsInv(lookups, exchanges', renames')
  {
    forall key | key in rows
      ensures key in provs && SourceOk(exchanges', renames', key, provs[key], rows[key].entry)
    {
      SourceStays(exchanges, renames, exchanges', renames', key, provs[key], rows[key].entry);
    }
    forall id | id in lookups
      ensures LookupOk(exchanges', renames', lookups[id])
    {
      LookupStays(exchanges, renames, exchanges', renames', lookups[id]);
    }
  }

  lemma GrowingKeepsFiles(files: map<string, File>, exchanges: map<Id, Exchange>, exchanges': map<Id, Exchange>,
                          renames: map<string, seq<Id>>)
    requires FilesInv(files, exchanges, renames) && Grows(exchanges, renames, exchanges', renames)
    ensures FilesInv(files, exchanges', renames)
  {
  }

  /** Transactions added or moved on: every window there was is still open. */
  lemma WindowsStay(rows: map<string, Db.Row>, files: map<string, File>, provs: map<string, Prov>,
                    txns: map<Id, Txn>, stores: map<Id, Db.Store>,
                    txns': map<Id, Txn>, stores': map<Id, Db.Store>)
    requires AgreementInv(rows, files, provs, txns, stores)
    requires forall i :: InWindow(txns, stores, i) ==>
               InWindow(txns', stores', i) && KeyOf(txns'[i].x) == KeyOf(txns[i].x)
    ensures AgreementInv(rows, files, provs, txns', stores')
  {
    forall i | InWindow(txns, stores, i)
      ensures Window(txns', stores', KeyOf(txns[i].x))
    {
      assert InWindow(txns', stores', i);
    }
  }

  // ---------- Answers ----------

  lemma NewTxnOk(cfg: Config, exchanges: map<Id, Exchange>, txns: map<Id, Txn>, id: Id, t: Txn)
    requires TxnsInv(cfg, exchanges, txns) && id !in exchanges
    requires t.x.verb.Get? && Cacheable(t.x) && FitsU64(t.x) && t.pipe == Pipeline.Init()
    ensures TxnsInv(cfg, exchanges[id := t.x], txns[id := t])
  {
    Pipeline.RunKeepsInv(PipeConfig(cfg, t.x), []);
    assert Pipeline.Run(PipeConfig(cfg, t.x), []) == Pipeline.Init();
    assert TxnOk(cfg, t);
  }

  lemma NewTxnKeepsLocks(locks: set<string>, txns: map<Id, Txn>, id: Id, t: Txn)
    requires LocksInv(locks, txns) && id !in txns
    requires KeyOf(t.x) !in locks && !t.pipe.writer.pc.Exited?
    ensures LocksInv(locks + {KeyOf(t.x)}, txns[id := t])
  {
    var txns' := txns[id := t];
    assert forall i :: Live(txns', i) <==> Live(txns, i) || i == id;
    forall key | key in locks + {KeyOf(t.x)}
      ensures Held(txns', key)
    {
      if key == KeyOf(t.x) {
        assert Live(txns', id);
      } else {
        assert Held(txns, key);
        var i :| Live(txns, i) && KeyOf(txns[i].x) == key;
        assert Live(txns', i);
      }
    }
  }

  /** No new rename: those there were keep their transactions. */
  lemma RenamesStay(renames: map<string, seq<Id>>, txns: map<Id, Txn>, txns': map<Id, Txn>)
    requires RenamesInv(renames, txns)
    requires forall i :: HasRenamed(txns, i) ==> HasRenamed(txns', i) && txns'[i].x == txns[i].x
    requires forall i :: Live(txns', i) && HasRenamed(txns', i) ==> Live(txns, i) && HasRenamed(txns, i)
    ensures RenamesInv(renames, txns')
  {
    forall key, i | key in renames && i in renames[key]
      ensures HasRenamed(txns', i) && KeyOf(txns'[i].x) == key
    {
      assert HasRenamed(txns, i);
    }
    forall i | Live(txns', i) && HasRenamed(txns', i)
      ensures LastRename(renames, KeyOf(txns'[i].x), i)
    {
      assert Live(txns, i) && HasRenamed(txns, i);
    }
  }

  lemma NewTxnKeepsStores(stores: map<Id, Db.Store>, exchanges: map<Id, Exchange>, txns: map<Id, Txn>, id: Id, t: Txn)
    requires StoresInv(stores, exchanges, txns) && id !in txns && id !in exchanges && t.pipe.writer.renamed.None?
    ensures StoresInv(stores, exchanges[id := t.x], txns[id := t])
  {
    assert forall i :: HasRenamed(txns[id := t], i) <==> HasRenamed(txns, i);
  }

  predicate OpensTxn(cfg: Config, s: State, id: Id, x: Exchange) {
    id !in s.exchanges && FitsU64(x) && Gate(cfg, x, s.now).TeeBody? && KeyOf(x) !in s.locks
  }

  lemma OpeningTxnKeepsInv(cfg: Config, s: State, id: Id, x: Exchange)
    requires Inv(cfg, s) && OpensTxn(cfg, s, id, x)
    ensures Inv(cfg, AnswerStep(cfg, s, id, x))
  {
    hide LocksInv, StoresInv, RenamesInv, FilesInv, RowsInv, LookupsInv, AgreementInv;
    var t := Txn(x, s.now, Pipeline.Init());
    assert id !in s.txns;
    NewTxnOk(cfg, s.exchanges, s.txns, id, t);
    NewTxnKeepsLocks(s.locks, s.txns, id, t);
    RenamesStay(s.renames, s.txns, s.txns[id := t]);
    NewTxnKeepsStores(s.db.stores, s.exchanges, s.txns, id, t);
    GrowingKeepsRowsAndLookups(s.db.rows, s.provs, s.lookups,
                               s.exchanges, s.renames, s.exchanges[id := x], s.renames);
    GrowingKeepsFiles(s.files, s.exchanges, s.exchanges[id := x], s.renames);
    WindowsStay(s.db.rows, s.files, s.provs, s.txns, s.db.stores, s.txns[id := t], s.db.stores);
  }

  lemma NewHeadKeepsStores(stores: map<Id, Db.Store>, exchanges: map<Id, Exchange>, txns: map<Id, Txn>,
                           id: Id, x: Exchange, store: Db.Store)
    requires StoresInv(stores, exchanges, txns) && id !in exchanges
    requires x.verb.Head? && EntryMatches(x, store.entry)
    ensures StoresInv(stores[id := store], exchanges[id := x], txns)
  {
  }

  lemma OpeningStoreKeepsTimes(t: Db.Table, id: Id, entry: Db.Entry)
    requires Db.TimesInv(t)
    ensures Db.TimesInv(t.(stores := t.stores[id := Db.Store(entry, Db.Pending, 0, 0)]))
  {
  }

  lemma NewStoreKeepsAgreement(rows: map<string, Db.Row>, files: map<string, File>, provs: map<string, Prov>,
                               txns: map<Id, Txn>, stores: map<Id, Db.Store>, id: Id, store: Db.Store)
    requires AgreementInv(rows, files, provs, txns, stores) && id !in stores
    ensures AgreementInv(rows, files, provs, txns, stores[id := store])
  {
    WindowsStay(rows, files, provs, txns, stores, txns, stores[id := store]);
  }

  lemma StoringHeadStep(cfg: Config, s: State, id: Id, x: Exchange)
    requires id !in s.exchanges && id !in s.db.stores && FitsU64(x) && Gate(cfg, x, s.now).StoreHead?
    ensures
      AnswerStep(cfg, s, id, x) ==
      s.(exchanges := s.exchanges[id := x],
         db := s.db.(stores := s.db.stores[id := Db.Store(EntryOf(x, s.now, 0), Db.Pending, 0, 0)]))
  {
  }

  lemma NewExchangeKeepsTxns(cfg: Config, exchanges: map<Id, Exchange>, txns: map<Id, Txn>, id: Id, x: Exchange)
    requires TxnsInv(cfg, exchanges, txns) && id !in exchanges && Cacheable(x)
    ensures TxnsInv(cfg, exchanges[id := x], txns)
  {
    hide TxnOk, Cacheable;
  }

  lemma StoringHeadKeepsInv(cfg: Config, s: State, id: Id, x: Exchange)
    requires Inv(cfg, s) && id !in s.exchanges && FitsU64(x) && Gate(cfg, x, s.now).StoreHead?
    ensures Inv(cfg, AnswerStep(cfg, s, id, x))
  {
    assert id !in s.db.stores && id !in s.txns;
    hide AnswerStep, LocksInv, StoresInv, RenamesInv, FilesInv, RowsInv, LookupsInv, AgreementInv, Db.TimesInv;
    var entry := EntryOf(x, s.now, 0);
    var store := Db.Store(entry, Db.Pending, 0, 0);
    OpeningStoreKeepsTimes(s.db, id, entry);
    StoringHeadStep(cfg, s, id, x);
    assert x.verb.Head? && Cacheable(x) && EntryMatches(x, entry);
    NewExchangeKeepsTxns(cfg, s.exchanges, s.txns, id, x);
    hide Gate, EntryMatches, EntryOf, KeyOf, Cacheable, TxnsInv;
    NewHeadKeepsStores(s.db.stores, s.exchanges, s.txns, id, x, store);
    GrowingKeepsRowsAndLookups(s.db.rows, s.provs, s.lookups,
                               s.exchanges, s.renames, s.exchanges[id := x], s.renames);
    GrowingKeepsFiles(s.files, s.exchanges, s.exchanges[id := x], s.renames);
    NewStoreKeepsAgreement(s.db.rows, s.files, s.provs, s.txns, s.db.stores, id, store);
  }

  lemma AnswerKeepsInv(cfg: Config, s: State, id: Id, x: Exchange)
    requires Inv(cfg, s)
    ensures Inv(cfg, AnswerStep(cfg, s, id, x))
  {
    if id !in s.exchanges && FitsU64(x) {
      if OpensTxn(cfg, s, id, x) {
        OpeningTxnKeepsInv(cfg, s, id, x);
      } else if Gate(cfg, x, s.now).StoreHead? {
        StoringHeadKeepsInv(cfg, s, id, x);
      }
    }
  }

  // ---------- Pipelines ----------

  /** A renamed file holds the whole body, or as much of it as was declared where less
      was; and the size stored with it is right. */
  lemma RenamedIsWhatIsKept(cfg: Config, t: Txn)
    requires TxnOk(cfg, t)
    ensures
      var w := t.pipe.writer;
      w.renamed.Some? ==> w.renamed.value == Kept(t.x) && w.size == |Kept(t.x)|
  {
    var w, sent := t.pipe.writer, Concat(t.pipe.tee.forwarded);
    if w.renamed.Some? {
      assert w.renamed.value == sent && w.size == |sent| % U64_LIMIT;
      assert |sent| <= |t.x.body| < U64_LIMIT;
      assert w.size == |sent|;
      assert sent == t.x.body[..|sent|];
    }
  }

  function Moved(cfg: Config, t: Txn, e: Pipeline.Event): Txn {
    t.(pipe := Pipeline.Step(PipeConfig(cfg, t.x), t.pipe, e))
  }

  /** Only a poll forwards anything, and only the end of the body ends it. */
  lemma StepForwards(cfg: Pipeline.Config, s: Pipeline.State, e: Pipeline.Event)
    requires Pipeline.Enabled(s, e)
    ensures
      var t := Pipeline.Step(cfg, s, e).tee;
      && t.forwarded == (if e.TeeEvent? && e.tee.PollData? then s.tee.forwarded + [e.tee.chunk] else s.tee.forwarded)
      && (t.inner.Ended? ==> s.tee.inner.Ended? || (e.TeeEvent? && e.tee.PollEnd?))
      && (e.TeeEvent? && e.tee.PollData? ==> !s.tee.inner.Ended?)
  {
  }

  lemma MovedForwardsInOrder(cfg: Config, s: State, id: Id, e: Pipeline.Event)
    requires id in s.txns && PipeEnabled(s, id, e)
    requires Concat(s.txns[id].pipe.tee.forwarded) <= s.txns[id].x.body
    requires s.txns[id].pipe.tee.inner.Ended? ==> Concat(s.txns[id].pipe.tee.forwarded) == s.txns[id].x.body
    ensures
      var t' := Moved(cfg, s.txns[id], e);
      && Concat(t'.pipe.tee.forwarded) <= t'.x.body
      && (t'.pipe.tee.inner.Ended? ==> Concat(t'.pipe.tee.forwarded) == t'.x.body)
  {
    var pipe := s.txns[id].pipe;
    StepForwards(PipeConfig(cfg, s.txns[id].x), pipe, e);
    if e.TeeEvent? && e.tee.PollData? {
      ConcatSnoc(pipe.tee.forwarded, e.tee.chunk);
    }
    hide Pipeline.Step, Concat;
  }

  lemma MovedIsOk(cfg: Config, s: State, id: Id, e: Pipeline.Event)
    requires id in s.txns && TxnOk(cfg, s.txns[id]) && PipeEnabled(s, id, e)
    ensures TxnOk(cfg, Moved(cfg, s.txns[id], e))
  {
    var t := s.txns[id];
    Pipeline.StepKeepsInv(PipeConfig(cfg, t.x), t.pipe, e);
    MovedForwardsInOrder(cfg, s, id, e);
    hide Pipeline.Inv, Pipeline.Step;
  }

  /** How one step may change what the rest of the system sees of a writer. */
  ghost predicate WriterShape(w: Pipeline.Writer, w': Pipeline.Writer) {
    && (w.pc.Exited? ==> w' == w)
    && (w.renamed.Some? ==> w'.renamed == w.renamed)
    && (w.renamed.None? && w'.renamed.Some? ==> w.pc.Renaming? && w'.pc.Storing?)
    && (w'.pc.Storing? ==> w.pc.Storing? || (w.pc.Renaming? && w'.renamed.Some?))
    && (w'.pc.CleaningUp? ==> w.pc.Storing? || w.pc.CleaningUp?)
    && (w.pc.Storing? || w.pc.CleaningUp? ==> w.renamed.Some?)
    && (w.pc.Renaming? ==> w.renamed.None?)
    && (w.renamed.Some? && !w.pc.Exited? ==> w.pc.Storing? || w.pc.CleaningUp?)
    && (w.pc.Storing? ==> w'.pc.Storing? || w'.pc.CleaningUp? || w'.pc == Pipeline.Exited(true))
    && (w.pc.CleaningUp? ==> w'.pc.CleaningUp? || w'.pc.Exited?)
  }

  lemma MovedHasShape(cfg: Config, t: Txn, e: Pipeline.Event)
    requires TxnOk(cfg, t)
    ensures WriterShape(t.pipe.writer, Moved(cfg, t, e).pipe.writer)
    ensures e.TeeEvent? ==> Moved(cfg, t, e).pipe.writer == t.pipe.writer
    ensures t.pipe.writer.pc.CleaningUp? && e.WriterEvent? ==> Moved(cfg, t, e).pipe.writer.pc.Exited?
    ensures t.pipe.writer.pc.Storing? && e.WriterEvent? ==> (Moved(cfg, t, e).pipe.writer.pc.Exited? <==> e.writer.ok)
  {
    hide Pipeline.TeeInv, Pipeline.ChannelInv, Pipeline.SizeInv, Pipeline.DecisionInv;
  }

  /** What a move of `id` leaves alone, whatever it does to the files. */
  lemma MovingKeepsStores(stores: map<Id, Db.Store>, exchanges: map<Id, Exchange>, txns: map<Id, Txn>, id: Id, t': Txn)
    requires StoresInv(stores, exchanges, txns) && id in txns && t'.x == txns[id].x
    requires WriterShape(txns[id].pipe.writer, t'.pipe.writer)
    requires t'.pipe.writer.renamed.Some? ==> txns[id].pipe.writer.renamed.Some?
    requires txns[id].pipe.writer.pc.Storing? && !t'.pipe.writer.pc.Storing? ==>
               id in stores && (stores[id].pc.Finished? || stores[id].pc.Failed?)
    ensures StoresInv(stores, exchanges, txns[id := t'])
  {
    assert forall i :: HasRenamed(txns[id := t'], i) <==> HasRenamed(txns, i);
  }

  lemma MovingKeepsLocks(locks: set<string>, txns: map<Id, Txn>, id: Id, t': Txn)
    requires LocksInv(locks, txns) && Live(txns, id) && t'.x == txns[id].x
    ensures
      var key := KeyOf(t'.x);
      LocksInv(if t'.pipe.writer.pc.Exited? then locks - {key} else locks, txns[id := t'])
  {
    var key, txns' := KeyOf(t'.x), txns[id := t'];
    var locks' := if t'.pipe.writer.pc.Exited? then locks - {key} else locks;
    assert forall i :: Live(txns', i) ==> Live(txns, i) && txns'[i].x == txns[i].x;
    forall k | k in locks'
      ensures Held(txns', k)
    {
      assert Held(txns, k);
      var i :| Live(txns, i) && KeyOf(txns[i].x) == k;
      assert Live(txns', i) && txns'[i].x == txns[i].x;
    }
  }

  /** A move that renames nothing and leaves no window. */
  predicate QuietMove(w: Pipeline.Writer, w': Pipeline.Writer) {
    !(w.renamed.None? && w'.renamed.Some?)
  }

  lemma QuietMoveKeepsRenames(renames: map<string, seq<Id>>, txns: map<Id, Txn>, id: Id, t': Txn)
    requires RenamesInv(renames, txns) && id in txns && t'.x == txns[id].x
    requires WriterShape(txns[id].pipe.writer, t'.pipe.writer) && QuietMove(txns[id].pipe.writer, t'.pipe.writer)
    ensures RenamesInv(renames, txns[id := t'])
  {
    RenamesStay(renames, txns, txns[id := t']);
  }

  /** When a writer leaves its window without an INSERT it has removed the file. */
  lemma QuietMoveKeepsAgreement(rows: map<string, Db.Row>, files: map<string, File>, provs: map<string, Prov>,
                                txns: map<Id, Txn>, stores: map<Id, Db.Store>, id: Id, t': Txn)
    requires AgreementInv(rows, files, provs, txns, stores) && id in txns && t'.x == txns[id].x
    requires WriterShape(txns[id].pipe.writer, t'.pipe.writer)
    requires txns[id].pipe.writer.pc.Storing? && t'.pipe.writer.pc.Exited? ==> id in stores && stores[id].ins > 0
    ensures
      var gone := txns[id].pipe.writer.pc.CleaningUp? && t'.pipe.writer.pc.Exited?;
      AgreementInv(rows, if gone then files - {KeyOf(t'.x)} else files, provs, txns[id := t'], stores)
  {
    var txns' := txns[id := t'];
    forall i | InWindow(txns, stores, i) && KeyOf(txns[i].x) != KeyOf(t'.x)
      ensures Window(txns', stores, KeyOf(txns[i].x))
    {
      assert InWindow(txns', stores, i);
    }
    if !(txns[id].pipe.writer.pc.CleaningUp? && t'.pipe.writer.pc.Exited?) {
      WindowsStay(rows, files, provs, txns, stores, txns', stores);
    }
  }

  lemma MovingKeepsTxns(cfg: Config, exchanges: map<Id, Exchange>, txns: map<Id, Txn>, id: Id, t': Txn)
    requires TxnsInv(cfg, exchanges, txns) && id in txns && t'.x == txns[id].x && TxnOk(cfg, t')
    ensures TxnsInv(cfg, exchanges, txns[id := t'])
  {
    hide TxnOk;
  }

  /** A step of the tee changes nothing but its own transaction. */
  lemma TeeMoveKeepsInv(cfg: Config, s: State, id: Id, t': Txn)
    requires Inv(cfg, s) && id in s.txns && t'.x == s.txns[id].x && t'.pipe.writer == s.txns[id].pipe.writer
    requires TxnOk(cfg, t') && WriterShape(t'.pipe.writer, t'.pipe.writer)
    ensures Inv(cfg, s.(txns := s.txns[id := t']))
  {
    hide TxnOk, TxnsInv, LocksInv, StoresInv, RenamesInv, FilesInv, RowsInv, LookupsInv, AgreementInv;
    MovingKeepsTxns(cfg, s.exchanges, s.txns, id, t');
    LocksStay(s.locks, s.txns, s.txns[id := t']);
    MovingKeepsStores(s.db.stores, s.exchanges, s.txns, id, t');
    QuietMoveKeepsRenames(s.renames, s.txns, id, t');
    QuietMoveKeepsAgreement(s.db.rows, s.files, s.provs, s.txns, s.db.stores, id, t');
  }

  lemma LocksStay(locks: set<string>, txns: map<Id, Txn>, txns': map<Id, Txn>)
    requires LocksInv(locks, txns)
    requires forall i :: Live(txns', i) <==> Live(txns, i)
    requires forall i :: Live(txns, i) ==> i in txns' && txns'[i].x == txns[i].x
    ensures LocksInv(locks, txns')
  {
    forall key | key in locks
      ensures Held(txns', key)
    {
      assert Held(txns, key);
      var i :| Live(txns, i) && KeyOf(txns[i].x) == key;
      assert Live(txns', i);
    }
  }

  /** A step of a writer that renames nothing: on its exit the permit goes, and with
      a failed store the file. */
  lemma WriterMoveKeepsInv(cfg: Config, s: State, id: Id, t': Txn)
    requires Inv(cfg, s) && Live(s.txns, id) && t'.x == s.txns[id].x && TxnOk(cfg, t')
    requires WriterShape(s.txns[id].pipe.writer, t'.pipe.writer) && QuietMove(s.txns[id].pipe.writer, t'.pipe.writer)
    requires s.txns[id].pipe.writer.pc.Storing? && !t'.pipe.writer.pc.Storing? ==>
               && id in s.db.stores
               && (if t'.pipe.writer.pc.Exited? then s.db.stores[id].pc.Finished? && s.db.stores[id].ins > 0
                   else s.db.stores[id].pc.Failed?)
    ensures
      var key, gone := KeyOf(t'.x), s.txns[id].pipe.writer.pc.CleaningUp? && t'.pipe.writer.pc.Exited?;
      Inv(cfg, s.(txns := s.txns[id := t'],
                  files := if gone then s.files - {key} else s.files,
                  locks := if t'.pipe.writer.pc.Exited? then s.locks - {key} else s.locks))
  {
    hide TxnOk, TxnsInv, LocksInv, StoresInv, RenamesInv, FilesInv, RowsInv, LookupsInv, AgreementInv;
    MovingKeepsTxns(cfg, s.exchanges, s.txns, id, t');
    MovingKeepsLocks(s.locks, s.txns, id, t');
    MovingKeepsStores(s.db.stores, s.exchanges, s.txns, id, t');
    QuietMoveKeepsRenames(s.renames, s.txns, id, t');
    QuietMoveKeepsAgreement(s.db.rows, s.files, s.provs, s.txns, s.db.stores, id, t');
    FewerFiles(s.files, s.exchanges, s.renames, {KeyOf(t'.x)});
  }

  lemma FewerFiles(files: map<string, File>, exchanges: map<Id, Exchange>, renames: map<string, seq<Id>>,
                   gone: set<string>)
    requires FilesInv(files, exchanges, renames)
    ensures FilesInv(files - gone, exchanges, renames)
  {
  }

  /** What a quiet step comes to. */
  lemma QuietPipeStep(cfg: Config, s: State, id: Id, e: Pipeline.Event)
    requires id in s.txns && PipeEnabled(s, id, e)
    requires QuietMove(s.txns[id].pipe.writer, Moved(cfg, s.txns[id], e).pipe.writer)
    requires WriterShape(s.txns[id].pipe.writer, Moved(cfg, s.txns[id], e).pipe.writer)
    requires e.WriterEvent? && s.txns[id].pipe.writer.pc.CleaningUp? ==>
               Moved(cfg, s.txns[id], e).pipe.writer.pc.Exited?
    requires e.WriterEvent? && s.txns[id].pipe.writer.pc.Renaming? ==> s.txns[id].pipe.writer.renamed.None?
    ensures
      var t' := Moved(cfg, s.txns[id], e);
      var gone := s.txns[id].pipe.writer.pc.CleaningUp? && t'.pipe.writer.pc.Exited?;
      PipeStep(cfg, s, id, e) ==
      if e.TeeEvent? then s.(txns := s.txns[id := t'])
      else s.(txns := s.txns[id := t'],
              files := if gone then s.files - {KeyOf(t'.x)} else s.files,
              locks := if t'.pipe.writer.pc.Exited? then s.locks - {KeyOf(t'.x)} else s.locks)
  {
    hide Pipeline.Step, Pipeline.Enabled;
  }

  /** A writer that has stored had its store finish or fail. */
  lemma PipeEnablesWriter(s: State, id: Id, e: Pipeline.Event)
    requires id in s.txns && PipeEnabled(s, id, e) && e.WriterEvent? && Db.TimesInv(s.db)
    ensures Live(s.txns, id)
    ensures s.txns[id].pipe.writer.pc.Storing? ==>
              && id in s.db.stores
              && (if e.writer.ok then s.db.stores[id].pc.Finished? && s.db.stores[id].ins > 0
                  else s.db.stores[id].pc.Failed?)
  {
    assert id in s.db.stores ==> Db.TimesOk(s.db, s.db.stores[id]);
  }

  lemma QuietPipeKeepsInv(cfg: Config, s: State, id: Id, e: Pipeline.Event)
    requires Inv(cfg, s) && id in s.txns && PipeEnabled(s, id, e)
    requires QuietMove(s.txns[id].pipe.writer, Moved(cfg, s.txns[id], e).pipe.writer)
    ensures Inv(cfg, PipeStep(cfg, s, id, e))
  {
    var t, t' := s.txns[id], Moved(cfg, s.txns[id], e);
    assert TxnOk(cfg, t) && t'.x == t.x;
    MovedIsOk(cfg, s, id, e);
    MovedHasShape(cfg, t, e);
    if e.WriterEvent? { PipeEnablesWriter(s, id, e); }
    hide Inv, TxnOk, KeyOf, QuietMove, Moved, PipeStep, PipeEnabled;
    QuietPipeStep(cfg, s, id, e);
    if e.TeeEvent? {
      TeeMoveKeepsInv(cfg, s, id, t');
    } else {
      WriterMoveKeepsInv(cfg, s, id, t');
    }
  }

  // ---------- Renames ----------

  function WithRename(renames: map<string, seq<Id>>, key: string, id: Id): map<string, seq<Id>> {
    renames[key := (if key in renames then renames[key] else []) + [id]]
  }

  /** `id` moves its temporary file onto the final path. */
  predicate RenameMove(txns: map<Id, Txn>, id: Id, t': Txn) {
    && Live(txns, id) && !HasRenamed(txns, id)
    && t'.x == txns[id].x
    && t'.pipe.writer.pc.Storing? && t'.pipe.writer.renamed.Some?
  }

  lemma RenameKeepsRenames(locks: set<string>, renames: map<string, seq<Id>>, txns: map<Id, Txn>, id: Id, t': Txn)
    requires LocksInv(locks, txns) && RenamesInv(renames, txns) && RenameMove(txns, id, t')
    ensures RenamesInv(WithRename(renames, KeyOf(t'.x), id), txns[id := t'])
  {
    var key, txns' := KeyOf(t'.x), txns[id := t'];
    var renames' := WithRename(renames, key, id);
    forall k, i | k in renames' && i in renames'[k]
      ensures HasRenamed(txns', i) && KeyOf(txns'[i].x) == k
    {
      assert (i == id && k == key) || (k in renames && i in renames[k]);
    }
    forall i | Live(txns', i) && HasRenamed(txns', i)
      ensures LastRename(renames', KeyOf(txns'[i].x), i)
    {
      if i != id {
        assert Live(txns, i) && HasRenamed(txns, i) && Live(txns, id);
        assert KeyOf(txns[i].x) != key;
      }
    }
  }

  lemma RenameKeepsStores(stores: map<Id, Db.Store>, exchanges: map<Id, Exchange>, txns: map<Id, Txn>,
                          id: Id, t': Txn, store: Db.Store)
    requires StoresInv(stores, exchanges, txns) && RenameMove(txns, id, t')
    requires id in exchanges && exchanges[id] == t'.x && EntryMatches(t'.x, store.entry)
    ensures StoresInv(stores[id := store], exchanges, txns[id := t'])
  {
    assert forall i :: HasRenamed(txns[id := t'], i) <==> HasRenamed(txns, i) || i == id;
  }

  lemma RenameKeepsFiles(files: map<string, File>, exchanges: map<Id, Exchange>, renames: map<string, seq<Id>>,
                         id: Id, f: File)
    requires FilesInv(files, exchanges, renames)
    requires id in exchanges && f.from == id && f.bytes == Kept(exchanges[id])
    ensures
      var key := KeyOf(exchanges[id]);
      FilesInv(files[key := f], exchanges, WithRename(renames, key, id))
  {
    var key := KeyOf(exchanges[id]);
    var renames' := WithRename(renames, key, id);
    assert LastRename(renames', key, id);
    assert forall k :: k in files && k != key ==> LastRename(renames', k, files[k].from);
  }

  lemma RenameKeepsAgreement(rows: map<string, Db.Row>, files: map<string, File>, provs: map<string, Prov>,
                             txns: map<Id, Txn>, stores: map<Id, Db.Store>, id: Id, t': Txn, f: File, store: Db.Store)
    requires AgreementInv(rows, files, provs, txns, stores) && RenameMove(txns, id, t')
    requires txns[id].pipe.writer.pc.Renaming? && id !in stores && store.ins == 0
    ensures AgreementInv(rows, files[KeyOf(t'.x) := f], provs, txns[id := t'], stores[id := store])
  {
    var txns', stores' := txns[id := t'], stores[id := store];
    WindowsStay(rows, files, provs, txns, stores, txns', stores');
    assert InWindow(txns', stores', id);
    assert Window(txns', stores', KeyOf(t'.x));
  }

  lemma RenamingPipeStep(cfg: Config, s: State, id: Id, e: Pipeline.Event)
    requires id in s.txns && TxnOk(cfg, s.txns[id]) && PipeEnabled(s, id, e)
    requires !QuietMove(s.txns[id].pipe.writer, Moved(cfg, s.txns[id], e).pipe.writer)
    ensures
      var t' := Moved(cfg, s.txns[id], e);
      && t'.pipe.writer.renamed == Some(Kept(t'.x))
      && s.txns[id].pipe.writer.pc.Renaming? && RenameMove(s.txns, id, t')
      && PipeStep(cfg, s, id, e) ==
         s.(txns := s.txns[id := t'],
            files := s.files[KeyOf(t'.x) := File(Kept(t'.x), id)],
            renames := WithRename(s.renames, KeyOf(t'.x), id),
            db := Db.Step(cfg.maxEntries, s.db, Db.Open(id, EntryOf(t'.x, t'.createdAt, |Kept(t'.x)|))))
  {
    MovedIsOk(cfg, s, id, e);
    MovedHasShape(cfg, s.txns[id], e);
    RenamedIsWhatIsKept(cfg, Moved(cfg, s.txns[id], e));
    assert Cacheable(s.txns[id].x);
    hide Pipeline.Step, Pipeline.Enabled, TxnOk, Db.Step;
  }

  lemma NotStoredBefore(stores: map<Id, Db.Store>, exchanges: map<Id, Exchange>, txns: map<Id, Txn>, id: Id)
    requires StoresInv(stores, exchanges, txns)
    requires id in exchanges && exchanges[id].verb.Get? && !HasRenamed(txns, id)
    ensures id !in stores
  {
  }

  lemma RenameKeepsInv(cfg: Config, s: State, id: Id, e: Pipeline.Event)
    requires Inv(cfg, s) && id in s.txns && PipeEnabled(s, id, e)
    requires !QuietMove(s.txns[id].pipe.writer, Moved(cfg, s.txns[id], e).pipe.writer)
    ensures Inv(cfg, PipeStep(cfg, s, id, e))
  {
    var t, t' := s.txns[id], Moved(cfg, s.txns[id], e);
    assert TxnOk(cfg, t) && s.exchanges[id] == t.x && t.x.verb.Get? && Cacheable(t.x);
    hide TxnsInv, LocksInv, StoresInv, RenamesInv, FilesInv, RowsInv, LookupsInv, AgreementInv;
    hide PipeStep, TxnOk, Moved, Pipeline.Step, Pipeline.Enabled, PipeEnabled, Db.TimesInv;
    RenamingPipeStep(cfg, s, id, e);
    MovedIsOk(cfg, s, id, e);
    var entry := EntryOf(t'.x, t'.createdAt, |Kept(t'.x)|);
    var store, file := Db.Store(entry, Db.Pending, 0, 0), File(Kept(t'.x), id);
    NotStoredBefore(s.db.stores, s.exchanges, s.txns, id);
    OpeningStoreKeepsTimes(s.db, id, entry);
    MovingKeepsTxns(cfg, s.exchanges, s.txns, id, t');
    MovingKeepsLocks(s.locks, s.txns, id, t');
    RenameKeepsStores(s.db.stores, s.exchanges, s.txns, id, t', store);
    RenameKeepsRenames(s.locks, s.renames, s.txns, id, t');
    RenameKeepsFiles(s.files, s.exchanges, s.renames, id, file);
    GrowingKeepsRowsAndLookups(s.db.rows, s.provs, s.lookups, s.exchanges, s.renames,
                               s.exchanges, WithRename(s.renames, KeyOf(t'.x), id));
    RenameKeepsAgreement(s.db.rows, s.files, s.provs, s.txns, s.db.stores, id, t', file, store);
  }

  lemma PipeKeepsInv(cfg: Config, s: State, id: Id, e: Pipeline.Event)
    requires Inv(cfg, s) && id in s.txns
    ensures Inv(cfg, PipeStep(cfg, s, id, e))
  {
    if PipeEnabled(s, id, e) {
      if QuietMove(s.txns[id].pipe.writer, Moved(cfg, s.txns[id], e).pipe.writer) {
        QuietPipeKeepsInv(cfg, s, id, e);
      } else {
        RenameKeepsInv(cfg, s, id, e);
      }
    }
  }

  // ---------- Statements of stores ----------

  /** A statement moves one store on: only the INSERT gives it a time, and its end is
      its end. */
  lemma StatementMovesItsStore(max: nat, t: Db.Table, e: Db.Event)
    requires e.Statement? && e.id in t.stores && Db.TimesOk(t, t.stores[e.id])
    ensures
      var store, t' := t.stores[e.id], Db.StatementStep(max, t, e);
      && e.id in t'.stores
      && t'.stores[e.id].entry == store.entry
      && (store.pc.Finished? || store.pc.Failed? ==> t'.stores[e.id] == store)
      && (if store.pc.Pending? && e.ok then t'.stores[e.id].ins > 0 else t'.stores[e.id].ins == store.ins)
  {
    hide Db.IsLruSelection;
  }

  /** A statement inserts its row, or at most deletes rows. */
  lemma StatementRows(max: nat, t: Db.Table, e: Db.Event)
    requires e.Statement? && e.id in t.stores
    ensures
      var store, t' := t.stores[e.id], Db.StatementStep(max, t, e);
      if store.pc.Pending? && e.ok then
        t'.rows == t.rows[store.entry.key := Db.Row(store.entry, store.entry.createdAt)]
      else
        forall key :: key in t'.rows ==> key in t.rows && t'.rows[key] == t.rows[key]
  {
    hide Db.IsLruSelection;
  }

  lemma StatementShape(max: nat, t: Db.Table, id: Id, ok: bool, victims: seq<Db.Victim>)
    requires Db.TimesInv(t) && id in t.stores
    ensures
      var t' := Db.Step(max, t, Db.Statement(id, ok, victims));
      var store := t.stores[id];
      && id in t'.stores && t'.stores == t.stores[id := t'.stores[id]]
      && t'.stores[id].entry == store.entry
      && (store.pc.Finished? || store.pc.Failed? ==> t'.stores[id] == store)
      && (t'.stores[id].ins == 0 ==> store.ins == 0)
      && (if store.pc.Pending? && ok then
            t'.rows == t.rows[store.entry.key := Db.Row(store.entry, store.entry.createdAt)] && t'.stores[id].ins > 0
          else
            (forall key :: key in t'.rows ==> key in t.rows && t'.rows[key] == t.rows[key]) &&
            t'.stores[id].ins == store.ins)
  {
    var e := Db.Statement(id, ok, victims);
    assert Db.TimesOk(t, t.stores[id]);
    hide Db.StatementStep, Db.TimesInv;
    Db.StatementMovesOne(max, t, e);
    StatementMovesItsStore(max, t, e);
    StatementRows(max, t, e);
  }

  /** A statement other than the INSERT: rows and files only go. */
  lemma FewerRows(rows: map<string, Db.Row>, rows': map<string, Db.Row>, files: map<string, File>, gone: set<string>,
                  provs: map<string, Prov>, exchanges: map<Id, Exchange>, renames: map<string, seq<Id>>,
                  txns: map<Id, Txn>, stores: map<Id, Db.Store>)
    requires RowsInv(rows, provs, exchanges, renames) && AgreementInv(rows, files, provs, txns, stores)
    requires forall key :: key in rows' ==> key in rows && rows'[key].entry == rows[key].entry
    ensures RowsInv(rows', provs, exchanges, renames) && AgreementInv(rows', files - gone, provs, txns, stores)
  {
  }

  lemma StatementKeepsStores(stores: map<Id, Db.Store>, exchanges: map<Id, Exchange>, txns: map<Id, Txn>,
                             id: Id, store': Db.Store)
    requires StoresInv(stores, exchanges, txns) && id in stores
    requires store'.entry == stores[id].entry
    requires stores[id].pc.Finished? || stores[id].pc.Failed? ==> store' == stores[id]
    ensures StoresInv(stores[id := store'], exchanges, txns)
  {
  }

  /** The key of a GET is never the key of a HEAD. */
  lemma KeysOfVerbsDiffer(x: Exchange, y: Exchange)
    requires KeyOf(x) == KeyOf(y)
    ensures x.verb == y.verb && x.url == y.url
  {
    KeyIsInjective(VerbName(x.verb), x.url, VerbName(y.verb), y.url);
  }

  lemma InsertKeepsRows(rows: map<string, Db.Row>, provs: map<string, Prov>, exchanges: map<Id, Exchange>,
                        renames: map<string, seq<Id>>, key: string, row: Db.Row, prov: Prov)
    requires RowsInv(rows, provs, exchanges, renames)
    requires SourceOk(exchanges, renames, key, prov, row.entry)
    ensures RowsInv(rows[key := row], provs[key := prov], exchanges, renames)
  {
  }

  /** The INSERT closes the window of its writer: the file, if it is still there, is
      the one this writer renamed. */
  lemma InsertKeepsAgreement(rows: map<string, Db.Row>, files: map<string, File>, provs: map<string, Prov>,
                             txns: map<Id, Txn>, stores: map<Id, Db.Store>,
                             key: string, row: Db.Row, prov: Prov, store': Db.Store)
    requires AgreementInv(rows, files, provs, txns, stores) && prov.from in stores
    requires prov.from in txns ==> KeyOf(txns[prov.from].x) == key
    requires key in files ==> files[key].from == prov.from
    ensures AgreementInv(rows[key := row], files, provs[key := prov], txns, stores[prov.from := store'])
  {
    var stores' := stores[prov.from := store'];
    forall k | k in rows && k != key && k in files && !Window(txns, stores', k)
      ensures !Window(txns, stores, k)
    {
      forall i | InWindow(txns, stores, i)
        ensures KeyOf(txns[i].x) != k
      {
        if i != prov.from {
          assert InWindow(txns, stores', i);
        }
      }
    }
  }

  /** The exchange behind a store about to insert, and what is at its key. */
  lemma InsertFindsItsFile(cfg: Config, s: State, id: Id)
    requires Inv(cfg, s) && id in s.db.stores && s.db.stores[id].pc.Pending?
    ensures
      var key := s.db.stores[id].entry.key;
      && SourceOk(s.exchanges, s.renames, key, Prov(id, |Renames(s, key)|), s.db.stores[id].entry)
      && (key in s.files ==> s.files[key].from == id)
      && (id in s.txns ==> KeyOf(s.txns[id].x) == key)
  {
    hide LocksInv, RowsInv, LookupsInv, AgreementInv, TxnOk;
    if s.exchanges[id].verb.Get? {
      assert HasRenamed(s.txns, id) && Live(s.txns, id);
      assert LastRename(s.renames, KeyOf(s.exchanges[id]), id);
    } else {
      HeadKeyHasNoFile(cfg, s, s.exchanges[id]);
    }
  }

  lemma HeadKeyHasNoFile(cfg: Config, s: State, x: Exchange)
    requires TxnsInv(cfg, s.exchanges, s.txns) && RenamesInv(s.renames, s.txns)
    requires FilesInv(s.files, s.exchanges, s.renames) && !x.verb.Get?
    ensures KeyOf(x) !in s.files
  {
    var key := KeyOf(x);
    if key in s.files {
      var i := s.files[key].from;
      assert i in s.renames[key];
      assert HasRenamed(s.txns, i) && TxnOk(cfg, s.txns[i]);
      KeysOfVerbsDiffer(x, s.txns[i].x);
      assert false;
    }
  }

  lemma InsertKeepsInv(cfg: Config, s: State, id: Id, victims: seq<Db.Victim>)
    requires Inv(cfg, s) && id in s.db.stores && s.db.stores[id].pc.Pending?
    ensures Inv(cfg, SqlStep(cfg, s, id, true, victims))
  {
    var store, key := s.db.stores[id], s.db.stores[id].entry.key;
    var db' := Db.Step(cfg.maxEntries, s.db, Db.Statement(id, true, victims));
    InsertFindsItsFile(cfg, s, id);
    StatementShape(cfg.maxEntries, s.db, id, true, victims);
    Db.StepKeepsTimes(cfg.maxEntries, s.db, Db.Statement(id, true, victims));
    hide TxnsInv, LocksInv, StoresInv, RenamesInv, FilesInv, RowsInv, LookupsInv, AgreementInv;
    hide Db.TimesInv, Db.Step, SourceOk;
    StatementKeepsStores(s.db.stores, s.exchanges, s.txns, id, db'.stores[id]);
    var row, prov := Db.Row(store.entry, store.entry.createdAt), Prov(id, |Renames(s, key)|);
    InsertKeepsRows(s.db.rows, s.provs, s.exchanges, s.renames, key, row, prov);
    InsertKeepsAgreement(s.db.rows, s.files, s.provs, s.txns, s.db.stores, key, row, prov, db'.stores[id]);
  }

  lemma UnlinkOnlyRemoves(files: map<string, File>, store: Db.Store) returns (gone: set<string>)
    ensures AfterUnlink(files, store) == files - gone
  {
    gone := if store.pc.Unlinking? && store.pc.victims != [] && store.pc.victims[0].path.Some?
            then {store.pc.victims[0].path.value} else {};
    assert AfterUnlink(files, store) == files - gone;
  }

  lemma StatementKeepsWindows(rows: map<string, Db.Row>, files: map<string, File>, provs: map<string, Prov>,
                              txns: map<Id, Txn>, stores: map<Id, Db.Store>, id: Id, store': Db.Store)
    requires AgreementInv(rows, files, provs, txns, stores) && id in stores && store'.ins == stores[id].ins
    ensures AgreementInv(rows, files, provs, txns, stores[id := store'])
  {
    WindowsStay(rows, files, provs, txns, stores, txns, stores[id := store']);
  }

  lemma OtherStatementKeepsInv(cfg: Config, s: State, id: Id, ok: bool, victims: seq<Db.Victim>)
    requires Inv(cfg, s) && id in s.db.stores && !(s.db.stores[id].pc.Pending? && ok)
    ensures Inv(cfg, SqlStep(cfg, s, id, ok, victims))
  {
    var store := s.db.stores[id];
    var db' := Db.Step(cfg.maxEntries, s.db, Db.Statement(id, ok, victims));
    StatementShape(cfg.maxEntries, s.db, id, ok, victims);
    Db.StepKeepsTimes(cfg.maxEntries, s.db, Db.Statement(id, ok, victims));
    hide TxnsInv, LocksInv, StoresInv, RenamesInv, FilesInv, RowsInv, LookupsInv, AgreementInv, Db.TimesInv, Db.Step;
    StatementKeepsStores(s.db.stores, s.exchanges, s.txns, id, db'.stores[id]);
    StatementKeepsWindows(s.db.rows, s.files, s.provs, s.txns, s.db.stores, id, db'.stores[id]);
    var gone := UnlinkOnlyRemoves(s.files, store);
    hide AfterUnlink, Window, InWindow;
    FewerRows(s.db.rows, db'.rows, s.files, gone, s.provs, s.exchanges, s.renames, s.txns, db'.stores);
    FewerFiles(s.files, s.exchanges, s.renames, gone);
  }

  lemma SqlKeepsInv(cfg: Config, s: State, id: Id, ok: bool, victims: seq<Db.Victim>)
    requires Inv(cfg, s) && id in s.db.stores
    ensures Inv(cfg, SqlStep(cfg, s, id, ok, victims))
  {
    if s.db.stores[id].pc.Pending? && ok {
      InsertKeepsInv(cfg, s, id, victims);
    } else {
      OtherStatementKeepsInv(cfg, s, id, ok, victims);
    }
  }

  // ---------- Lookups ----------

  lemma LookupMoveKeepsLookups(lookups: map<Id, Lookup>, exchanges: map<Id, Exchange>, renames: map<string, seq<Id>>,
                               id: Id, l: Lookup)
    requires LookupsInv(lookups, exchanges, renames) && LookupOk(exchanges, renames, l)
    ensures LookupsInv(lookups[id := l], exchanges, renames)
  {
  }

  lemma OpeningFindsTheBody(s: State, l: Lookup)
    requires RenamesInv(s.renames, s.txns) && FilesInv(s.files, s.exchanges, s.renames)
    requires forall i :: i in s.txns ==> i in s.exchanges && s.exchanges[i] == s.txns[i].x
    requires l.pc.Opening? && l.verb.Get? && LookupOk(s.exchanges, s.renames, l)
    ensures
      var key := LookupKey(l);
      && l.pc.row.entry.bodyPath == Some(key)
      && (key in s.files ==> OpenedOk(s.exchanges, s.renames, key, s.files[key], |Renames(s, key)|))
  {
    var key := LookupKey(l);
    var x := s.exchanges[l.pc.prov.from];
    KeyIsInjective(VerbName(x.verb), x.url, VerbName(l.verb), l.url);
    if key in s.files {
      var i := s.files[key].from;
      assert i in s.renames[key];
      assert HasRenamed(s.txns, i) && KeyOf(s.txns[i].x) == key && s.exchanges[i] == s.txns[i].x;
    }
  }

  /** Every step of a lookup keeps what is known of the row it holds. */
  lemma LookupStaysOk(cfg: Config, s: State, l: Lookup, ok: bool)
    requires Inv(cfg, s) && LookupOk(s.exchanges, s.renames, l)
    ensures LookupOk(s.exchanges, s.renames, l.(pc := LookupGoes(s, l, ok)))
  {
    if l.pc.Opening? && l.verb.Get? {
      OpeningFindsTheBody(s, l);
    }
    hide TxnsInv, LocksInv, StoresInv, RenamesInv, FilesInv, LookupsInv, AgreementInv, SourceOk, OpenedOk, Db.TimesInv;
  }

  /** The only row a lookup changes is its own, and there only the access time. */
  lemma LookupLeavesEntries(cfg: Config, s: State, l: Lookup, ok: bool)
    requires Db.TimesInv(s.db)
    ensures
      var db' := RowsAfter(cfg, s, l, ok);
      && db'.stores == s.db.stores && Db.TimesInv(db')
      && (forall key :: key in db'.rows ==> key in s.db.rows && db'.rows[key].entry == s.db.rows[key].entry)
  {
  }

  lemma LookupKeepsInv(cfg: Config, s: State, id: Id, ok: bool)
    requires Inv(cfg, s) && id in s.lookups
    ensures Inv(cfg, LookupAt(cfg, s, id, ok))
  {
    var l := s.lookups[id];
    assert LookupOk(s.exchanges, s.renames, l);
    LookupStaysOk(cfg, s, l, ok);
    LookupLeavesEntries(cfg, s, l, ok);
    hide TxnsInv, LocksInv, StoresInv, RenamesInv, FilesInv, RowsInv, LookupsInv, AgreementInv;
    hide LookupOk, Db.TimesInv, RowsAfter;
    var rows := RowsAfter(cfg, s, l, ok).rows;
    var gone := if l.pc.DeletingFile? && l.pc.path.Some? then {l.pc.path.value} else {};
    assert FilesAfter(s, l) == s.files - gone;
    LookupMoveKeepsLookups(s.lookups, s.exchanges, s.renames, id, l.(pc := LookupGoes(s, l, ok)));
    FewerRows(s.db.rows, rows, s.files, gone, s.provs, s.exchanges, s.renames, s.txns, s.db.stores);
    FewerFiles(s.files, s.exchanges, s.renames, gone);
  }

  // ---------- Every run ----------

  lemma StepKeepsInv(cfg: Config, s: State, e: Event)
    requires Inv(cfg, s)
    ensures Inv(cfg, Step(cfg, s, e))
  {
    match e {
      case Answer(id, x) => AnswerKeepsInv(cfg, s, id, x);
      case Pipe(id, step) => if id in s.txns { PipeKeepsInv(cfg, s, id, step); }
      case Sql(id, ok, victims) => if id in s.db.stores { SqlKeepsInv(cfg, s, id, ok, victims); }
      case Ask(id, verb, url) =>
        var l := Lookup(if verb.Other? then Get else verb, url, s.now, Selecting);
        LookupMoveKeepsLookups(s.lookups, s.exchanges, s.renames, id, l);
      case LookupStep(id, ok) => if id in s.lookups { LookupKeepsInv(cfg, s, id, ok); }
      case Tick(_) =>
    }
  }

  lemma {:induction false} RunKeepsInv(cfg: Config, events: seq<Event>)
    ensures Inv(cfg, Run(cfg, events))
  {
    if events != [] {
      RunKeepsInv(cfg, events[..|events| - 1]);
      StepKeepsInv(cfg, Run(cfg, events[..|events| - 1]), events[|events| - 1]);
    }
  }
}
