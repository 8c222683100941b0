/** The proxy cache as one concurrent system: requests being answered, tees and
    writers, write permits, stores, lookups with their deletes, and evictions, all
    over one table, one directory of body files and one clock.

    Steps of different tasks interleave freely.  A step is one statement, one file
    operation, or one step of a response's pipeline. */
module System {
  import opened Basics
  import opened CacheKey
  import Pipeline
  import Db

  type Id = nat

  // ---------- What comes from outside ----------

  datatype Method = Get | Head | Other

  /** A request and the upstream's answer to it.  `headers` is what
      `headers_for_storage` keeps, `expiry` what `compute_expiry` answers, and `body`
      the whole body the upstream means to send. */
  datatype Exchange = Exchange(
    verb: Method,
    url: string,
    ranged: bool,
    status: nat,
    headers: seq<(string, string)>,
    contentLength: Option<u64>,
    expiry: Option<int>,
    body: Bytes)

  datatype Config = Config(maxEntries: nat, maxSize: u64, requireLength: bool, capacity: nat)

  /** Sizes do not wrap. */
  predicate FitsU64(x: Exchange) {
    |x.body| < U64_LIMIT
  }

  /** The declared length is less than what the upstream sends, as it may be for a
      chunked body: nothing on the way to the cache looks at Transfer-Encoding. */
  predicate DeclaresLess(x: Exchange) {
    x.contentLength.Some? && x.contentLength.value < |x.body|
  }

  /** What a commit keeps of the body: a declared length is enough to commit. */
  function Kept(x: Exchange): Bytes {
    if DeclaresLess(x) then x.body[..x.contentLength.value] else x.body
  }

  function VerbName(verb: Method): string {
    match verb
    case Get => "GET"
    case Head => "HEAD"
    case Other => "OTHER"
  }

  function KeyOf(x: Exchange): string {
    Key(VerbName(x.verb), x.url)
  }

  // ---------- State ----------

  /** A transaction: an exchange whose body is being teed into the cache. */
  datatype Txn = Txn(x: Exchange, createdAt: int, pipe: Pipeline.State)

  /** `from`: the transaction whose rename put the file there. */
  datatype File = File(bytes: Bytes, from: Id)

  /** Where a row comes from: the store that inserted it, and how many renames onto
      the key's final path there had been by then. */
  datatype Prov = Prov(from: Id, seen: nat)

  datatype Reply =
    | Missed
    | Errored
    | Bypassed
    | Replayed(entry: Db.Entry, prov: Prov, file: Option<File>, renames: nat)

  /** `get` and the `delete` it may call, then `cached_response`. */
  datatype LookupPc =
    | Selecting
    | Checking(row: Db.Row, prov: Prov)
    | SelectingPath
    | DeletingRow(path: Option<string>)
    | DeletingFile(path: Option<string>)
    | Touching(row: Db.Row, prov: Prov)
    | Opening(row: Db.Row, prov: Prov)
    | Closed(reply: Reply)

  datatype Lookup = Lookup(verb: Method, url: string, now: int, pc: LookupPc)

  /** `files` maps a key to the file at its final path.  `exchanges`, `provs` and
      `renames` are history. */
  datatype State = State(
    db: Db.Table,
    files: map<string, File>,
    locks: set<string>,
    txns: map<Id, Txn>,
    lookups: map<Id, Lookup>,
    now: int,
    exchanges: map<Id, Exchange>,
    provs: map<string, Prov>,
    renames: map<string, seq<Id>>)

  datatype Event =
    | Answer(id: Id, x: Exchange)
    | Pipe(id: Id, step: Pipeline.Event)
    | Sql(id: Id, ok: bool, victims: seq<Db.Victim>)
    | Ask(id: Id, verb: Method, url: string)
    | LookupStep(id: Id, ok: bool)
    | Tick(seconds: nat)

  function Init(): State {
    State(Db.Table(map[], map[], 0), map[], {}, map[], map[], 0, map[], map[], map[])
  }

  function Renames(s: State, key: string): seq<Id> {
    if key in s.renames then s.renames[key] else []
  }

  // ---------- Answers ----------

  datatype Decision = PassThrough | StoreHead | TeeBody

  /** The gate of `handle_http` between the upstream's answer and the permit. */
  function Gate(cfg: Config, x: Exchange, now: int): Decision {
    if x.verb.Other? || x.ranged || x.status == 206 then PassThrough
    else if x.expiry.None? || !(x.expiry.value > now && 200 <= x.status < 300) then PassThrough
    else if x.verb.Head? then StoreHead
    else if x.contentLength.Some? && cfg.maxSize > 0 && x.contentLength.value > cfg.maxSize then PassThrough
    else if cfg.requireLength && x.contentLength.None? then PassThrough
    else if cfg.capacity == 0 then PassThrough
    else TeeBody
  }

  function EntryOf(x: Exchange, createdAt: int, bodySize: nat): Db.Entry
    requires x.expiry.Some?
  {
    Db.Entry(KeyOf(x), VerbName(x.verb), x.url, x.status, x.headers,
             if x.verb.Get? then Some(KeyOf(x)) else None, bodySize, createdAt, x.expiry.value)
  }

  ghost function AnswerStep(cfg: Config, s: State, id: Id, x: Exchange): State {
    if id in s.exchanges || !FitsU64(x) then s
    else
      match Gate(cfg, x, s.now)
      case PassThrough => s
      case StoreHead =>
        s.(exchanges := s.exchanges[id := x],
           db := Db.Step(cfg.maxEntries, s.db, Db.Open(id, EntryOf(x, s.now, 0))))
      case TeeBody =>
        if KeyOf(x) in s.locks then s  // no permit: pass through
        else
          s.(exchanges := s.exchanges[id := x],
             locks := s.locks + {KeyOf(x)},
             txns := s.txns[id := Txn(x, s.now, Pipeline.Init())])
  }

  // ---------- Pipelines ----------

  function PipeConfig(cfg: Config, x: Exchange): Pipeline.Config {
    Pipeline.Config(x.contentLength, cfg.maxSize, cfg.requireLength, cfg.capacity)
  }

  /** The upstream delivers the body of the exchange in order, and ends only after
      the whole of it; the store step of the writer waits for its statements. */
  ghost predicate PipeEnabled(s: State, id: Id, e: Pipeline.Event)
    requires id in s.txns
  {
    var t := s.txns[id];
    && Pipeline.Enabled(t.pipe, e)
    && (e.TeeEvent? && e.tee.PollData? ==> Concat(t.pipe.tee.forwarded) + e.tee.chunk <= t.x.body)
    && (e.TeeEvent? && e.tee.PollEnd? ==> Concat(t.pipe.tee.forwarded) == t.x.body)
    && (e.WriterEvent? && t.pipe.writer.pc.Storing? ==>
          && id in s.db.stores
          && (s.db.stores[id].pc.Finished? || s.db.stores[id].pc.Failed?)
          && e.writer.ok == s.db.stores[id].pc.Finished?)
  }

  ghost function PipeStep(cfg: Config, s: State, id: Id, e: Pipeline.Event): State
    requires id in s.txns
  {
    var t := s.txns[id];
    if !PipeEnabled(s, id, e) then s
    else
      var key := KeyOf(t.x);
      var before := t.pipe.writer;
      var pipe := Pipeline.Step(PipeConfig(cfg, t.x), t.pipe, e);
      var s1 := s.(txns := s.txns[id := t.(pipe := pipe)]);
      if e.TeeEvent? then s1
      else if before.pc.Renaming? && pipe.writer.renamed.Some? && t.x.expiry.Some? then
        s1.(files := s.files[key := File(pipe.writer.renamed.value, id)],
            renames := s.renames[key := Renames(s, key) + [id]],
            db := Db.Step(cfg.maxEntries, s.db, Db.Open(id, EntryOf(t.x, t.createdAt, pipe.writer.size))))
      else
        s1.(files := if before.pc.CleaningUp? then s.files - {key} else s.files,
            locks := if pipe.writer.pc.Exited? then s.locks - {key} else s.locks)
  }

  // ---------- Statements of stores ----------

  /** The files after a statement: only the removal of a victim's body touches them. */
  function AfterUnlink(files: map<string, File>, store: Db.Store): map<string, File> {
    if store.pc.Unlinking? && store.pc.victims != [] && store.pc.victims[0].path.Some?
    then files - {store.pc.victims[0].path.value}
    else files
  }

  ghost function SqlStep(cfg: Config, s: State, id: Id, ok: bool, victims: seq<Db.Victim>): State
    requires id in s.db.stores
  {
    var store := s.db.stores[id];
    var key := store.entry.key;
    s.(db := Db.Step(cfg.maxEntries, s.db, Db.Statement(id, ok, victims)),
       files := AfterUnlink(s.files, store),
       provs := if store.pc.Pending? && ok then s.provs[key := Prov(id, |Renames(s, key)|)] else s.provs)
  }

  // ---------- Lookups ----------

  function LookupKey(l: Lookup): string {
    Key(VerbName(l.verb), l.url)
  }

  /** What the next step of a lookup sees, and where it goes from there. */
  function LookupGoes(s: State, l: Lookup, ok: bool): LookupPc {
    var key := LookupKey(l);
    match l.pc
    case Selecting =>
      if !ok then Closed(Errored)
      else if key in s.db.rows && key in s.provs then Checking(s.db.rows[key], s.provs[key])
      else Closed(Missed)
    case Checking(row, prov) =>
      if row.entry.expiresAt <= l.now then SelectingPath
      else if row.entry.bodyPath.Some? && row.entry.bodyPath.value !in s.files then SelectingPath
      else Touching(row, prov)
    case SelectingPath =>
      if !ok then Closed(Errored)
      else DeletingRow(if key in s.db.rows then s.db.rows[key].entry.bodyPath else None)
    case DeletingRow(path) =>
      if !ok then Closed(Errored) else DeletingFile(path)
    case DeletingFile(_) =>
      Closed(Missed)
    case Touching(row, prov) =>
      if !ok then Closed(Errored) else Opening(row, prov)
    case Opening(row, prov) =>
      var path := row.entry.bodyPath;
      if l.verb.Head? then Closed(Replayed(row.entry, prov, None, |Renames(s, key)|))
      else if path.Some? && path.value in s.files then
        Closed(Replayed(row.entry, prov, Some(s.files[path.value]), |Renames(s, key)|))
      else Closed(Bypassed)
    case Closed(reply) => Closed(reply)
  }

  /** The rows after the next step of a lookup: its DELETE and its touch. */
  ghost function RowsAfter(cfg: Config, s: State, l: Lookup, ok: bool): Db.Table {
    if l.pc.DeletingRow? && ok then Db.Step(cfg.maxEntries, s.db, Db.Delete(LookupKey(l)))
    else if l.pc.Touching? && ok then Db.Step(cfg.maxEntries, s.db, Db.Touch(LookupKey(l), l.now))
    else s.db
  }

  /** The files after the next step of a lookup: what its delete removes. */
  function FilesAfter(s: State, l: Lookup): map<string, File> {
    if l.pc.DeletingFile? && l.pc.path.Some? then s.files - {l.pc.path.value} else s.files
  }

  ghost function LookupAt(cfg: Config, s: State, id: Id, ok: bool): State
    requires id in s.lookups
  {
    var l := s.lookups[id];
    s.(db := RowsAfter(cfg, s, l, ok),
       files := FilesAfter(s, l),
       lookups := s.lookups[id := l.(pc := LookupGoes(s, l, ok))])
  }

  // ---------- Runs ----------

  /** An event that is not enabled leaves the state unchanged. */
  ghost function Step(cfg: Config, s: State, e: Event): State {
    match e
    case Answer(id, x) => AnswerStep(cfg, s, id, x)
    case Pipe(id, step) => if id in s.txns then PipeStep(cfg, s, id, step) else s
    case Sql(id, ok, victims) => if id in s.db.stores then SqlStep(cfg, s, id, ok, victims) else s
    case Ask(id, verb, url) =>
      if id in s.lookups || verb.Other? then s
      else s.(lookups := s.lookups[id := Lookup(verb, url, s.now, Selecting)])
    case LookupStep(id, ok) => if id in s.lookups then LookupAt(cfg, s, id, ok) else s
    case Tick(seconds) => s.(now := s.now + seconds)
  }

  ghost function Run(cfg: Config, events: seq<Event>): State {
    if events == [] then Init()
    else Step(cfg, Run(cfg, events[..|events| - 1]), events[|events| - 1])
  }
}
