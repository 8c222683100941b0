/** The clock of the whole system: when requests are asked and answered, counted by the
    ticks of a run alone, and what lookups, writers, stores and rows make of it. */
module SystemClock {
  import opened Basics
  import opened System
  import opened SystemSafety
  import Pipeline
  import Db

  /** The seconds that pass in a list of events. */
  function Elapsed(events: seq<Event>): nat {
    if events == [] then 0
    else
      var last := events[|events| - 1];
      Elapsed(events[..|events| - 1]) + if last.Tick? then last.seconds else 0
  }

  /** Ticks add up, and nothing else takes time. */
  lemma {:induction false} ElapsedAdds(a: seq<Event>, b: seq<Event>, e: Event)
    ensures Elapsed(a + b) == Elapsed(a) + Elapsed(b)
    ensures Elapsed([e]) == if e.Tick? then e.seconds else 0
    decreases |b|
  {
    assert [e][..0] == [];
    if b == [] {
      assert a + b == a;
    } else {
      assert (a + b)[..|a + b| - 1] == a + b[..|b| - 1];
      ElapsedAdds(a, b[..|b| - 1], e);
    }
  }

  lemma StepMovesTheClock(cfg: Config, s: State, e: Event)
    ensures Step(cfg, s, e).now == s.now + if e.Tick? then e.seconds else 0
  {
    hide Gate, PipeEnabled, Pipeline.Step, Db.Step;
  }

  lemma {:induction false} ClockIsElapsed(cfg: Config, events: seq<Event>)
    ensures Run(cfg, events).now == Elapsed(events)
  {
    if events != [] {
      var before := events[..|events| - 1];
      ClockIsElapsed(cfg, before);
      hide Step;
      StepMovesTheClock(cfg, Run(cfg, before), events[|events| - 1]);
    }
  }

  lemma RunSnoc(cfg: Config, events: seq<Event>, e: Event)
    ensures Run(cfg, events + [e]) == Step(cfg, Run(cfg, events), e)
    ensures Elapsed(events + [e]) == Elapsed(events) + if e.Tick? then e.seconds else 0
  {
    assert (events + [e])[..|events|] == events;
  }

  // ---------- Lookups ----------

  predicate SameQuestion(l: Lookup, l': Lookup) {
    l'.verb == l.verb && l'.url == l.url && l'.now == l.now
  }

  /** A lookup keeps its question and its time. */
  lemma StepKeepsQuestions(cfg: Config, s: State, e: Event, id: Id)
    requires id in s.lookups
    ensures id in Step(cfg, s, e).lookups && SameQuestion(s.lookups[id], Step(cfg, s, e).lookups[id])
  {
    hide Gate, PipeEnabled, Pipeline.Step, Db.Step, LookupGoes;
  }

  lemma AskOpens(cfg: Config, s: State, id: Id, verb: Method, url: string)
    requires id !in s.lookups && !verb.Other?
    ensures
      var s' := Step(cfg, s, Ask(id, verb, url));
      id in s'.lookups && s'.lookups[id].verb == verb && s'.lookups[id].url == url && s'.lookups[id].now == s.now
  {
  }

  /** The time of a lookup is the time that had passed when it was asked. */
  lemma {:induction false} LookupIsDated(cfg: Config, before: seq<Event>, id: Id, verb: Method, url: string,
                                         after: seq<Event>)
    requires id !in Run(cfg, before).lookups && !verb.Other?
    ensures
      var lookups := Run(cfg, before + [Ask(id, verb, url)] + after).lookups;
      && id in lookups && lookups[id].verb == verb && lookups[id].url == url
      && lookups[id].now == Elapsed(before)
    decreases |after|
  {
    var ask := Ask(id, verb, url);
    if after == [] {
      assert before + [ask] + after == before + [ask];
      RunSnoc(cfg, before, ask);
      ClockIsElapsed(cfg, before);
      hide Run, Step;
      AskOpens(cfg, Run(cfg, before), id, verb, url);
    } else {
      var init, last := after[..|after| - 1], after[|after| - 1];
      LookupIsDated(cfg, before, id, verb, url, init);
      assert before + [ask] + after == before + [ask] + init + [last];
      RunSnoc(cfg, before + [ask] + init, last);
      hide Run, Step, Elapsed;
      StepKeepsQuestions(cfg, Run(cfg, before + [ask] + init), last, id);
    }
  }

  lemma OnlyAsksOpen(cfg: Config, s: State, e: Event, id: Id)
    requires id !in s.lookups && id in Step(cfg, s, e).lookups
    ensures e.Ask? && e.id == id && !e.verb.Other?
  {
    hide Gate, PipeEnabled, Pipeline.Step, Db.Step, LookupGoes;
  }

  /** Every lookup of a run was opened by one of its questions. */
  lemma {:induction false} LookupWasAsked(cfg: Config, events: seq<Event>, id: Id) returns (k: nat)
    requires id in Run(cfg, events).lookups
    ensures
      && k < |events| && id !in Run(cfg, events[..k]).lookups
      && events[k].Ask? && events[k].id == id && !events[k].verb.Other?
  {
    NothingAskedAtFirst(cfg);
    var before := events[..|events| - 1];
    if id in Run(cfg, before).lookups {
      k := LookupWasAsked(cfg, before, id);
      assert before[..k] == events[..k];
    } else {
      k := |events| - 1;
      assert events == before + [events[k]];
      RunSnoc(cfg, before, events[k]);
      hide Run, Step;
      OnlyAsksOpen(cfg, Run(cfg, before), events[k], id);
    }
  }

  lemma NothingAskedAtFirst(cfg: Config)
    ensures Run(cfg, []).lookups == map[]
  {
  }

  // ---------- Answers ----------

  /** When each exchange that is kept was answered. */
  ghost function Dates(cfg: Config, events: seq<Event>): map<Id, int> {
    if events == [] then map[]
    else
      var before, last := events[..|events| - 1], events[|events| - 1];
      Dated(Dates(cfg, before), Run(cfg, before), Run(cfg, events), last, Elapsed(before))
  }

  ghost function Dated(dates: map<Id, int>, s: State, s': State, e: Event, now: int): map<Id, int> {
    if e.Answer? && e.id !in s.exchanges && e.id in s'.exchanges then dates[e.id := now] else dates
  }

  ghost predicate ExchangesDated(dates: map<Id, int>, exchanges: map<Id, Exchange>) {
    && dates.Keys == exchanges.Keys
    && (forall i :: i in exchanges ==> exchanges[i].expiry.Some? && exchanges[i].expiry.value > dates[i])
  }

  ghost predicate TxnsDated(dates: map<Id, int>, txns: map<Id, Txn>) {
    forall i :: i in txns ==> i in dates && txns[i].createdAt == dates[i]
  }

  ghost predicate StoresDated(dates: map<Id, int>, stores: map<Id, Db.Store>) {
    forall i :: i in stores ==> i in dates && stores[i].entry.createdAt == dates[i]
  }

  ghost predicate RowsDated(dates: map<Id, int>, rows: map<string, Db.Row>, provs: map<string, Prov>) {
    forall key :: key in rows ==>
      key in provs && provs[key].from in dates && rows[key].entry.createdAt == dates[provs[key].from]
  }

  ghost predicate AllDated(dates: map<Id, int>, s: State) {
    && ExchangesDated(dates, s.exchanges) && TxnsDated(dates, s.txns)
    && StoresDated(dates, s.db.stores) && RowsDated(dates, s.db.rows, s.provs)
  }

  lemma HeadAnswerIsDated(cfg: Config, s: State, dates: map<Id, int>, id: Id, x: Exchange)
    requires AllDated(dates, s) && id !in s.exchanges && id !in s.db.stores
    requires FitsU64(x) && Gate(cfg, x, s.now).StoreHead?
    ensures AllDated(dates[id := s.now], AnswerStep(cfg, s, id, x))
  {
    StoringHeadStep(cfg, s, id, x);
    hide AnswerStep;
  }

  lemma GetAnswerIsDated(cfg: Config, s: State, dates: map<Id, int>, id: Id, x: Exchange)
    requires AllDated(dates, s) && OpensTxn(cfg, s, id, x)
    ensures AllDated(dates[id := s.now], AnswerStep(cfg, s, id, x))
  {
  }

  lemma AnswerIsDatedNow(cfg: Config, s: State, dates: map<Id, int>, id: Id, x: Exchange)
    requires Inv(cfg, s) && AllDated(dates, s)
    ensures AllDated(Dated(dates, s, AnswerStep(cfg, s, id, x), Answer(id, x), s.now), AnswerStep(cfg, s, id, x))
  {
    assert id in s.txns || id in s.db.stores ==> id in s.exchanges;
    hide Inv, AllDated;
    if id !in s.exchanges && FitsU64(x) && Gate(cfg, x, s.now).StoreHead? {
      HeadAnswerIsDated(cfg, s, dates, id, x);
    } else if OpensTxn(cfg, s, id, x) {
      GetAnswerIsDated(cfg, s, dates, id, x);
    }
    hide Gate, Db.Step;
  }

  lemma PipeLeavesRows(cfg: Config, s: State, id: Id, e: Pipeline.Event)
    requires id in s.txns
    ensures
      var s' := PipeStep(cfg, s, id, e);
      s'.exchanges == s.exchanges && s'.provs == s.provs && s'.db.rows == s.db.rows
  {
    hide PipeEnabled, Pipeline.Step, KeyOf, Renames, EntryOf;
  }

  lemma PipeKeepsTxnsDated(cfg: Config, s: State, dates: map<Id, int>, id: Id, e: Pipeline.Event)
    requires TxnsDated(dates, s.txns) && id in s.txns
    ensures TxnsDated(dates, PipeStep(cfg, s, id, e).txns)
  {
    var t, txns' := s.txns[id], PipeStep(cfg, s, id, e).txns;
    assert txns' == s.txns || txns' == s.txns[id := Moved(cfg, t, e)] by {
      hide PipeEnabled, Pipeline.Step, Db.Step, KeyOf, Renames, EntryOf, TxnsDated;
    }
    hide PipeStep, Pipeline.Step;
  }

  /** A store that is opened at a rename has the date of its transaction. */
  lemma PipeKeepsStoresDated(cfg: Config, s: State, dates: map<Id, int>, id: Id, e: Pipeline.Event)
    requires TxnsDated(dates, s.txns) && StoresDated(dates, s.db.stores) && id in s.txns
    ensures StoresDated(dates, PipeStep(cfg, s, id, e).db.stores)
  {
    var t, db' := s.txns[id], PipeStep(cfg, s, id, e).db;
    var size := Moved(cfg, t, e).pipe.writer.size;
    assert db' == s.db
      || (t.x.expiry.Some? && db' == Db.Step(cfg.maxEntries, s.db, Db.Open(id, EntryOf(t.x, t.createdAt, size)))) by {
      hide PipeEnabled, Pipeline.Step, Db.Step, KeyOf, Renames, EntryOf, StoresDated, TxnsDated;
    }
    hide PipeStep, Pipeline.Step, KeyOf;
  }

  lemma PipeIsDated(cfg: Config, s: State, dates: map<Id, int>, id: Id, e: Pipeline.Event)
    requires AllDated(dates, s) && id in s.txns
    ensures AllDated(dates, PipeStep(cfg, s, id, e))
  {
    hide PipeStep, TxnsDated, StoresDated, RowsDated, ExchangesDated;
    PipeLeavesRows(cfg, s, id, e);
    PipeKeepsTxnsDated(cfg, s, dates, id, e);
    PipeKeepsStoresDated(cfg, s, dates, id, e);
  }

  lemma StatementIsDated(cfg: Config, s: State, dates: map<Id, int>, id: Id, ok: bool, victims: seq<Db.Victim>)
    requires Inv(cfg, s) && AllDated(dates, s) && id in s.db.stores
    ensures AllDated(dates, SqlStep(cfg, s, id, ok, victims))
  {
    StatementShape(cfg.maxEntries, s.db, id, ok, victims);
    hide Inv, Db.Step, AfterUnlink;
    var store := s.db.stores[id];
    var db' := Db.Step(cfg.maxEntries, s.db, Db.Statement(id, ok, victims));
    StatementKeepsStoresDated(dates, s.db.stores, id, db'.stores[id]);
    if store.pc.Pending? && ok {
      var row, prov := Db.Row(store.entry, store.entry.createdAt), Prov(id, |Renames(s, store.entry.key)|);
      InsertedRowIsDated(dates, s.db.rows, s.provs, store.entry.key, row, prov);
    } else {
      FewerRowsAreDated(dates, s.db.rows, db'.rows, s.provs);
    }
    hide StoresDated, RowsDated, TxnsDated, ExchangesDated;
  }

  lemma StatementKeepsStoresDated(dates: map<Id, int>, stores: map<Id, Db.Store>, id: Id, store: Db.Store)
    requires StoresDated(dates, stores) && id in stores && store.entry == stores[id].entry
    ensures StoresDated(dates, stores[id := store])
  {
  }

  lemma InsertedRowIsDated(dates: map<Id, int>, rows: map<string, Db.Row>, provs: map<string, Prov>,
                           key: string, row: Db.Row, prov: Prov)
    requires RowsDated(dates, rows, provs)
    requires prov.from in dates && row.entry.createdAt == dates[prov.from]
    ensures RowsDated(dates, rows[key := row], provs[key := prov])
  {
  }

  lemma FewerRowsAreDated(dates: map<Id, int>, rows: map<string, Db.Row>, rows': map<string, Db.Row>,
                          provs: map<string, Prov>)
    requires RowsDated(dates, rows, provs)
    requires forall key :: key in rows' ==> key in rows && rows'[key] == rows[key]
    ensures RowsDated(dates, rows', provs)
  {
  }

  lemma LookupStepIsDated(cfg: Config, s: State, dates: map<Id, int>, id: Id, ok: bool)
    requires Inv(cfg, s) && AllDated(dates, s) && id in s.lookups
    ensures AllDated(dates, LookupAt(cfg, s, id, ok))
  {
    LookupLeavesEntries(cfg, s, s.lookups[id], ok);
    hide Inv, RowsAfter, LookupGoes, FilesAfter;
  }

  lemma StepIsDated(cfg: Config, s: State, dates: map<Id, int>, e: Event)
    requires Inv(cfg, s) && AllDated(dates, s)
    ensures AllDated(Dated(dates, s, Step(cfg, s, e), e, s.now), Step(cfg, s, e))
  {
    match e {
      case Answer(id, x) => AnswerIsDatedNow(cfg, s, dates, id, x);
      case Pipe(id, step) => if id in s.txns { PipeIsDated(cfg, s, dates, id, step); }
      case Sql(id, ok, victims) => if id in s.db.stores { StatementIsDated(cfg, s, dates, id, ok, victims); }
      case Ask(_, _, _) =>
      case LookupStep(id, ok) => if id in s.lookups { LookupStepIsDated(cfg, s, dates, id, ok); }
      case Tick(_) =>
    }
    hide Inv, AnswerStep, PipeStep, SqlStep, LookupAt, TxnsDated, StoresDated, RowsDated, ExchangesDated;
  }

  lemma {:induction false} RunIsDated(cfg: Config, events: seq<Event>)
    ensures AllDated(Dates(cfg, events), Run(cfg, events))
  {
    if events != [] {
      var before := events[..|events| - 1];
      RunIsDated(cfg, before);
      RunKeepsInv(cfg, before);
      ClockIsElapsed(cfg, before);
      hide Inv, Step, AllDated, Dated, Elapsed;
      StepIsDated(cfg, Run(cfg, before), Dates(cfg, before), events[|events| - 1]);
    }
  }

  lemma StepKeepsExchanges(cfg: Config, s: State, e: Event, id: Id)
    requires id in s.exchanges
    ensures id in Step(cfg, s, e).exchanges && Step(cfg, s, e).exchanges[id] == s.exchanges[id]
  {
    hide Gate, PipeEnabled, Pipeline.Step, Db.Step, LookupGoes;
  }

  lemma AnswerOpens(cfg: Config, s: State, id: Id, x: Exchange)
    requires id !in s.exchanges && id in Step(cfg, s, Answer(id, x)).exchanges
    ensures Step(cfg, s, Answer(id, x)).exchanges[id] == x
  {
    hide Gate, Db.Step;
  }

  lemma DatesOfOne(cfg: Config, before: seq<Event>, e: Event)
    ensures
      Dates(cfg, before + [e]) ==
      Dated(Dates(cfg, before), Run(cfg, before), Run(cfg, before + [e]), e, Elapsed(before))
  {
    hide Run, Elapsed, Dated;
    assert (before + [e])[..|before|] == before;
  }

  /** The date of an exchange is the time that had passed when it was answered. */
  lemma {:induction false} AnswerIsDated(cfg: Config, before: seq<Event>, id: Id, x: Exchange, after: seq<Event>)
    requires id !in Run(cfg, before).exchanges && id in Run(cfg, before + [Answer(id, x)]).exchanges
    ensures
      var events := before + [Answer(id, x)] + after;
      && id in Run(cfg, events).exchanges && Run(cfg, events).exchanges[id] == x
      && id in Dates(cfg, events) && Dates(cfg, events)[id] == Elapsed(before)
    decreases |after|
  {
    hide Run, Step, Elapsed, Dates;
    var answer := Answer(id, x);
    if after == [] {
      assert before + [answer] + after == before + [answer];
      RunSnoc(cfg, before, answer);
      AnswerOpens(cfg, Run(cfg, before), id, x);
      DatesOfOne(cfg, before, answer);
    } else {
      var init, last := after[..|after| - 1], after[|after| - 1];
      AnswerIsDated(cfg, before, id, x, init);
      var events := before + [answer] + after;
      assert events == before + [answer] + init + [last];
      RunSnoc(cfg, before + [answer] + init, last);
      DatesOfOne(cfg, before + [answer] + init, last);
      StepKeepsExchanges(cfg, Run(cfg, before + [answer] + init), last, id);
    }
  }

  /** A row is dated by the answer it came from: its creation time, from which its place
      in the order of access starts, is the time of that answer, however long the body
      took; and the answer was fresh then. */
  lemma RowIsDatedByItsAnswer(cfg: Config, before: seq<Event>, id: Id, x: Exchange, after: seq<Event>, key: string)
    requires id !in Run(cfg, before).exchanges && id in Run(cfg, before + [Answer(id, x)]).exchanges
    requires
      var s := Run(cfg, before + [Answer(id, x)] + after);
      key in s.db.rows && key in s.provs && s.provs[key].from == id
    ensures
      var e := Run(cfg, before + [Answer(id, x)] + after).db.rows[key].entry;
      && e.createdAt == Elapsed(before)
      && x.expiry == Some(e.expiresAt) && e.expiresAt > Elapsed(before)
      && e.url == x.url && e.status == x.status && e.headers == x.headers
  {
    var events := before + [Answer(id, x)] + after;
    AnswerIsDated(cfg, before, id, x, after);
    RunIsDated(cfg, events);
    RunKeepsInv(cfg, events);
    hide Run, Dates, Elapsed;
  }
}
