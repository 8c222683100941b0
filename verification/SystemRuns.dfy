/** Runs of the whole system from an upstream answer to a hit: the promises about hits
    are not empty, and a body longer than its declared length is served cut short. */
module SystemRuns {
  import opened Basics
  import opened System
  import opened Atomicity
  import SystemSafety
  import SqliteCache
  import CacheRuns
  import Pipeline
  import Db

  // ---------- One body through the pipeline ----------

  /** Without a declared length the body has to end; with one the client may leave. */
  predicate ToTheEnd(x: Exchange) {
    x.contentLength.None?
  }

  /** The answer passes the gate, and what is to be kept of it passes the writer. */
  predicate Keepable(cfg: Config, x: Exchange) {
    && Gate(cfg, x, 0).TeeBody? && FitsU64(x)
    && (x.contentLength.Some? ==> x.contentLength.value <= |x.body|)
    && (Pipeline.Bounded(PipeConfig(cfg, x)) ==> |Kept(x)| <= cfg.maxSize)
  }

  function TeeAt(x: Exchange, k: nat): Pipeline.Tee {
    var chunks := if k == 0 then [] else [Kept(x)];
    var pc := if k == 2 then Pipeline.FinishCompletion(ToTheEnd(x))
              else if k == 3 then Pipeline.FinishTx
              else Pipeline.Idle;
    Pipeline.Tee(if k >= 2 && ToTheEnd(x) then Pipeline.Ended else Pipeline.Streaming,
                 k < 2 || ToTheEnd(x),
                 pc, chunks, chunks, false, false)
  }

  function LinkAt(x: Exchange, k: nat): Pipeline.Link {
    Pipeline.Link(if 1 <= k < 6 then [Kept(x)] else [], k < 4, false, false,
                  if k < 3 then Pipeline.Waiting else Pipeline.Sent(ToTheEnd(x)))
  }

  function PcAt(x: Exchange, k: nat): Pipeline.WriterPc {
    if k <= 4 then Pipeline.Start
    else if k == 5 || k == 8 then Pipeline.Receiving
    else if k == 6 then Pipeline.Inspect(Kept(x))
    else if k == 7 then Pipeline.Writing(Kept(x))
    else if k == 9 then Pipeline.AbortCheck
    else if k == 10 then Pipeline.RequireCheck
    else if k == 11 then Pipeline.AwaitCompletion
    else if k == 12 then Pipeline.Decide(ToTheEnd(x))
    else if k == 13 then Pipeline.Flushing
    else Pipeline.Renaming
  }

  function WriterAt(x: Exchange, k: nat): Pipeline.Writer {
    Pipeline.Writer(PcAt(x, k),
                    if k < 7 then 0 else |Kept(x)| % U64_LIMIT,
                    if k < 5 then None else if k < 14 then Some([]) else Some(Kept(x)),
                    if 8 <= k < 14 then Kept(x) else [],
                    if k < 8 then [] else [Kept(x)],
                    false, None, false)
  }

  /** The pipeline after `k` steps: four of the tee, then ten of the writer. */
  function PipeAt(x: Exchange, k: nat): Pipeline.State {
    Pipeline.State(TeeAt(x, k), LinkAt(x, k), WriterAt(x, k))
  }

  const MOVE := Pipeline.WriterMove(true, true, 0)

  function EventAt(x: Exchange, k: nat): Pipeline.Event {
    if k == 0 then Pipeline.TeeEvent(Pipeline.PollData(Kept(x)))
    else if k == 1 then Pipeline.TeeEvent(if ToTheEnd(x) then Pipeline.PollEnd else Pipeline.Drop)
    else if k < 4 then Pipeline.TeeEvent(Pipeline.Advance)
    else Pipeline.WriterEvent(MOVE)
  }

  lemma TeeStage(cfg: Config, x: Exchange, k: nat)
    requires Keepable(cfg, x) && k < 4
    ensures
      && Pipeline.Enabled(PipeAt(x, k), EventAt(x, k))
      && Pipeline.Step(PipeConfig(cfg, x), PipeAt(x, k), EventAt(x, k)) == PipeAt(x, k + 1)
  {
    hide Pipeline.WriterStep, Kept;
  }

  lemma LoopStage(cfg: Config, x: Exchange, k: nat)
    requires Keepable(cfg, x) && 4 <= k < 9
    ensures
      && Pipeline.Enabled(PipeAt(x, k), EventAt(x, k))
      && Pipeline.Step(PipeConfig(cfg, x), PipeAt(x, k), EventAt(x, k)) == PipeAt(x, k + 1)
  {
    var c := Kept(x);
    assert [] + c == c && c[..0] == [] && c[0..] == c;
    assert [] + c[..0] == [];
    hide Pipeline.TeeStep, Pipeline.CheckStep, Pipeline.CommitStep, Kept;
  }

  lemma CheckStage(cfg: Config, x: Exchange, k: nat)
    requires Keepable(cfg, x) && 9 <= k < 14
    ensures
      && Pipeline.Enabled(PipeAt(x, k), EventAt(x, k))
      && Pipeline.Step(PipeConfig(cfg, x), PipeAt(x, k), EventAt(x, k)) == PipeAt(x, k + 1)
  {
    var c := Kept(x);
    assert [] + c == c;
    assert |c| <= |x.body| && (x.contentLength.Some? ==> x.contentLength.value == |c|);
    assert |c| % U64_LIMIT == |c|;
    hide Pipeline.TeeStep, Pipeline.LoopStep, Kept;
  }

  // ---------- The same in the system ----------

  /** The system after the answer and `k` steps of its pipeline. */
  function ServedAt(x: Exchange, k: nat): State {
    Init().(exchanges := map[0 := x], locks := {KeyOf(x)}, txns := map[0 := Txn(x, 0, PipeAt(x, k))])
  }

  lemma PipeStage(cfg: Config, x: Exchange, k: nat)
    requires Keepable(cfg, x) && k < 14
    ensures Step(cfg, ServedAt(x, k), Pipe(0, EventAt(x, k))) == ServedAt(x, k + 1)
  {
    if k < 4 {
      TeeStage(cfg, x, k);
    } else if k < 9 {
      LoopStage(cfg, x, k);
    } else {
      CheckStage(cfg, x, k);
    }
    DeliveryIsEnabled(cfg, x, k);
    hide Pipeline.Step, Pipeline.Enabled, PipeEnabled, KeyOf, Kept, Gate;
    var s, t, e := ServedAt(x, k), ServedAt(x, k).txns[0], EventAt(x, k);
    assert PipeStep(cfg, s, 0, e) == s.(txns := s.txns[0 := t.(pipe := PipeAt(x, k + 1))]);
  }

  /** What is delivered is a prefix of the body, and its end comes after the whole. */
  lemma DeliveryIsEnabled(cfg: Config, x: Exchange, k: nat)
    requires k < 14 && Pipeline.Enabled(PipeAt(x, k), EventAt(x, k))
    ensures PipeEnabled(ServedAt(x, k), 0, EventAt(x, k))
  {
    hide Pipeline.Enabled;
    assert Concat([]) == [];
    assert [] + Kept(x) == Kept(x) <= x.body;
    assert Concat([Kept(x)]) == Kept(x) by {
      ConcatSnoc([], Kept(x));
      assert [] + [Kept(x)] == [Kept(x)];
    }
  }

  /** The answer arrives, and its pipeline takes `k` steps. */
  function Serving(x: Exchange, k: nat): seq<Event> {
    if k == 0 then [Answer(0, x)] else Serving(x, k - 1) + [Pipe(0, EventAt(x, k - 1))]
  }

  lemma RunSnoc(cfg: Config, events: seq<Event>, e: Event)
    ensures Run(cfg, events + [e]) == Step(cfg, Run(cfg, events), e)
  {
    assert (events + [e])[..|events|] == events;
  }

  lemma AnswerOpens(cfg: Config, x: Exchange)
    requires Keepable(cfg, x)
    ensures Step(cfg, Init(), Answer(0, x)) == ServedAt(x, 0)
  {
    hide KeyOf;
    var s := Step(cfg, Init(), Answer(0, x));
    assert PipeAt(x, 0) == Pipeline.Init();
    assert s.locks == {KeyOf(x)} && s.txns == map[0 := Txn(x, 0, Pipeline.Init())] && s.exchanges == map[0 := x];
  }

  lemma {:induction false} ServingRuns(cfg: Config, x: Exchange, k: nat)
    requires Keepable(cfg, x) && k <= 14
    ensures Run(cfg, Serving(x, k)) == ServedAt(x, k)
  {
    hide Run, Step, ServedAt, EventAt, Keepable;
    if k == 0 {
      AnswerOpens(cfg, x);
      RunSnoc(cfg, [], Answer(0, x));
      assert [] + [Answer(0, x)] == Serving(x, 0);
      RunOfNothing(cfg);
    } else {
      ServingRuns(cfg, x, k - 1);
      RunSnoc(cfg, Serving(x, k - 1), Pipe(0, EventAt(x, k - 1)));
      PipeStage(cfg, x, k - 1);
    }
  }

  lemma RunOfNothing(cfg: Config)
    ensures Run(cfg, []) == Init()
  {
  }

  // ---------- The store and the lookup ----------

  function Sqls(n: nat): seq<Event> {
    if n == 0 then [] else [Sql(0, true, [])] + Sqls(n - 1)
  }

  lemma {:induction false} RunStatements(cfg: Config, events: seq<Event>, n: nat)
    ensures Run(cfg, events + Sqls(n)) == Statements(cfg, Run(cfg, events), 0, [], n)
    decreases n
  {
    hide Run, Step;
    if n == 0 {
      assert events + Sqls(0) == events;
    } else {
      RunSnoc(cfg, events, Sql(0, true, []));
      RunStatements(cfg, events + [Sql(0, true, [])], n - 1);
      assert events + Sqls(n) == events + [Sql(0, true, [])] + Sqls(n - 1);
    }
  }

  lemma StatementKeepsProvs(cfg: Config, s: State)
    requires 0 in s.db.stores && !s.db.stores[0].pc.Pending?
    ensures
      var s' := Step(cfg, s, Sql(0, true, []));
      0 in s'.db.stores && !s'.db.stores[0].pc.Pending? && s'.provs == s.provs && s'.renames == s.renames
  {
    hide Db.IsLruSelection, AfterUnlink;
  }

  lemma {:induction false} StatementsKeepProvs(cfg: Config, s: State, n: nat)
    requires 0 in s.db.stores && !s.db.stores[0].pc.Pending?
    ensures Statements(cfg, s, 0, [], n).provs == s.provs && Statements(cfg, s, 0, [], n).renames == s.renames
    decreases n
  {
    hide Step;
    if n > 0 {
      StatementKeepsProvs(cfg, s);
      StatementsKeepProvs(cfg, Step(cfg, s, Sql(0, true, [])), n - 1);
    }
  }

  /** The INSERT notes how many renames there have been. */
  lemma InsertNotesRenames(cfg: Config, s: State, entry: Db.Entry, n: nat)
    requires IsAt(s, 0, entry, Db.Pending) && n > 0
    ensures
      var s' := Statements(cfg, s, 0, [], n);
      && s'.provs == s.provs[entry.key := Prov(0, |Renames(s, entry.key)|)] && s'.renames == s.renames
  {
    var s1 := Step(cfg, s, Sql(0, true, []));
    assert 0 in s1.db.stores && !s1.db.stores[0].pc.Pending?;
    assert s1.provs == s.provs[entry.key := Prov(0, |Renames(s, entry.key)|)] && s1.renames == s.renames;
    hide Step;
    StatementsKeepProvs(cfg, s1, n - 1);
  }

  lemma {:induction false} StatementsLeaveTheRest(cfg: Config, s: State, n: nat)
    ensures
      var s' := Statements(cfg, s, 0, [], n);
      s'.lookups == s.lookups && s'.now == s.now
    decreases n
  {
    if n > 0 {
      var s1 := Step(cfg, s, Sql(0, true, []));
      assert s1.lookups == s.lookups && s1.now == s.now;
      hide Step;
      StatementsLeaveTheRest(cfg, s1, n - 1);
    }
  }

  function Looks(n: nat): seq<Event> {
    if n == 0 then [] else [LookupStep(1, true)] + Looks(n - 1)
  }

  lemma {:induction false} RunLooks(cfg: Config, events: seq<Event>, n: nat)
    ensures Run(cfg, events + Looks(n)) == LookupSteps(cfg, Run(cfg, events), 1, n)
    decreases n
  {
    hide Run, Step;
    if n == 0 {
      assert events + Looks(0) == events;
    } else {
      RunSnoc(cfg, events, LookupStep(1, true));
      RunLooks(cfg, events + [LookupStep(1, true)], n - 1);
      assert events + Looks(n) == events + [LookupStep(1, true)] + Looks(n - 1);
    }
  }

  /** The answer has been teed, renamed and stored. */
  function Storing(x: Exchange): seq<Event> {
    Serving(x, 14) + [Pipe(0, Pipeline.WriterEvent(MOVE))] + Sqls(4)
  }

  /** A later request asks for the same URL, and its lookup runs. */
  function Serve(x: Exchange): seq<Event> {
    Storing(x) + [Ask(1, Get, x.url)] + Looks(5)
  }

  const EMPTY: SqliteCache.Disk := SqliteCache.Disk(map[], map[])

  /** One row in an empty table is within any limit. */
  lemma FirstCommitIsLegal(max: nat, e: Db.Entry, body: Bytes)
    requires e.bodyPath == Some(e.key)
    ensures
      var op := CacheRuns.Commit(e, body, []);
      && CacheRuns.Legal(max, EMPTY, op)
      && CacheRuns.Step(EMPTY, op) == SqliteCache.Disk(map[e.key := Db.Row(e, e.createdAt)], map[e.key := body])
  {
    var d := SqliteCache.Upserted(CacheRuns.Placed(EMPTY, e, body), e);
    assert d.rows.Keys == {e.key} && |d.rows.Keys| == |d.rows|;
    assert SqliteCache.Evicted(d, []) == d;
  }

  lemma AnswerIsStored(cfg: Config, x: Exchange)
    requires Keepable(cfg, x)
    ensures
      var s, key := Run(cfg, Storing(x)), KeyOf(x);
      var e := EntryOf(x, 0, |Kept(x)|);
      && View(s) == SqliteCache.Disk(map[key := Db.Row(e, 0)], map[key := Kept(x)])
      && s.lookups == map[] && s.now == 0
      && key in s.provs && s.provs[key] == Prov(0, |Renames(s, key)|)
  {
    hide Run, Step, Statements, Serving, View, Gate, IsAt, Kept, KeyOf;
    var events := Serving(x, 14);
    var s, rename := Run(cfg, events), Pipe(0, Pipeline.WriterEvent(MOVE));
    ServedIsRenaming(cfg, x);
    RunSnoc(cfg, events, rename);
    RunStatements(cfg, events + [rename], 4);
    FirstCommitIsLegal(cfg.maxEntries, EntryOf(x, 0, |Kept(x)|), Kept(x));
    CommitRunsAtomically(cfg, events, 0, MOVE, []);
    RenamedIsPending(cfg, x);
    InsertNotesRenames(cfg, Step(cfg, s, rename), EntryOf(x, 0, |Kept(x)|), 4);
    StatementsLeaveTheRest(cfg, Step(cfg, s, rename), 4);
    RenameLeavesTheRest(cfg, s, Pipeline.WriterEvent(MOVE));
  }

  lemma RenamedIsPending(cfg: Config, x: Exchange)
    requires Keepable(cfg, x) && x.expiry.Some?
    ensures
      var s' := Step(cfg, Run(cfg, Serving(x, 14)), Pipe(0, Pipeline.WriterEvent(MOVE)));
      IsAt(s', 0, EntryOf(x, 0, |Kept(x)|), Db.Pending)
  {
    var events := Serving(x, 14);
    ServedIsRenaming(cfg, x);
    SystemSafety.RunKeepsInv(cfg, events);
    hide Run, Step, Serving, IsAt, SystemSafety.Inv, Kept;
    RenameStep(cfg, Run(cfg, events), 0, MOVE);
  }

  lemma ServedIsRenaming(cfg: Config, x: Exchange)
    requires Keepable(cfg, x)
    ensures
      var s := Run(cfg, Serving(x, 14));
      && View(s) == EMPTY && s.lookups == map[] && s.now == 0
      && s.txns.Keys == {0} && s.txns[0].x == x && s.txns[0].createdAt == 0
      && s.txns[0].pipe.writer.pc.Renaming?
    ensures x.verb.Get? && x.expiry.Some?
  {
    ServingRuns(cfg, x, 14);
  }

  lemma RenameLeavesTheRest(cfg: Config, s: State, e: Pipeline.Event)
    ensures
      var s' := Step(cfg, s, Pipe(0, e));
      s'.lookups == s.lookups && s'.now == s.now
  {
    hide Pipeline.Step, PipeEnabled, Db.Step;
  }

  /** Every answer that passes the gate and can be kept is served: a run in which a
      later GET of its URL is answered with its status, its headers and what is kept of
      its body.  That is less than the whole body exactly if less was declared. */
  lemma AnswerIsServed(cfg: Config, x: Exchange)
    requires Keepable(cfg, x)
    ensures
      var s := Run(cfg, Serve(x));
      && 1 in s.lookups && s.lookups[1].verb.Get? && s.lookups[1].url == x.url
      && s.lookups[1].pc.Closed? && s.lookups[1].pc.reply.Replayed?
      && (var r := s.lookups[1].pc.reply;
          && r.entry == EntryOf(x, 0, |Kept(x)|) && r.renames == r.prov.seen
          && r.file.Some? && r.file.value.bytes == Kept(x)
          && (r.file.value.bytes == x.body <==> !DeclaresLess(x)))
  {
    var events, ask := Storing(x), Ask(1, Get, x.url);
    var s := Run(cfg, events);
    var s1 := Step(cfg, s, ask);
    AnswerIsStored(cfg, x);
    RunSnoc(cfg, events, ask);
    RunLooks(cfg, events + [ask], 5);
    var l := Lookup(Get, x.url, 0, Selecting);
    assert s1.lookups == map[1 := l] && View(s1) == View(s) && s1.provs == s.provs && s1.renames == s.renames;
    assert LookupKey(l) == KeyOf(x);
    hide Run, Step, LookupSteps, Storing, Looks, View;
    UndisturbedLookupIsAtomic(cfg, events + [ask], 1);
    LookupKeepsItsQuestion(cfg, s1, 5, l);
    assert SqliteCache.Hits(View(s1), KeyOf(x), 0);
  }

  lemma {:induction false} LookupKeepsItsQuestion(cfg: Config, s: State, n: nat, l: Lookup)
    requires 1 in s.lookups && s.lookups[1].verb == l.verb && s.lookups[1].url == l.url
    ensures
      var s' := LookupSteps(cfg, s, 1, n);
      1 in s'.lookups && s'.lookups[1].verb == l.verb && s'.lookups[1].url == l.url
    decreases n
  {
    if n > 0 {
      OneLookupStep(cfg, s, 1, s.lookups[1]);
      hide Step;
      LookupKeepsItsQuestion(cfg, Step(cfg, s, LookupStep(1, true)), n - 1, l);
    }
  }

  /** An answer of two bytes that declares one, as a chunked answer may: its client
      leaves after the first, and the next client is served that byte as the whole. */
  lemma TruncatedBodyIsServed(cfg: Config, url: string)
    requires cfg.capacity > 0
    ensures
      var x := Exchange(Get, url, false, 200, [], Some(1), Some(100), [7, 8]);
      var s := Run(cfg, Serve(x));
      && 1 in s.lookups && s.lookups[1].pc.Closed? && s.lookups[1].pc.reply.Replayed?
      && s.lookups[1].pc.reply.file.Some? && s.lookups[1].pc.reply.file.value.bytes == [7]
      && s.lookups[1].pc.reply.entry.bodySize == 1
  {
    var x := Exchange(Get, url, false, 200, [], Some(1), Some(100), [7, 8]);
    assert Kept(x) == [7];
    hide Run, Serve;
    AnswerIsServed(cfg, x);
  }
}
