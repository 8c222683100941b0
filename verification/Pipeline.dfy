/** The streaming cache pipeline of one response as a step machine.

    Two parties share a bounded channel, a one-shot completion channel and an
    abort flag: the tee (polled by the client side, dropped at any moment) and
    the writer task.  Every effect that the other party could observe is a step
    of its own, so a run may interleave the two inside `disable_cache`, inside
    `finish`, and between any two statements of the writer.

    The flag is a relaxed atomic.  A load by the writer may return a stale
    `false`, except where something the writer has already seen forces the
    value: an earlier load of `true`, its own store, or the closing of the data
    channel, which publishes the value the flag had when the sender was dropped. */
module Pipeline {
  import opened Basics

  datatype Config = Config(
    contentLength: Option<u64>,
    maxSize: u64,           // 0 means no limit
    requireLength: bool,
    capacity: nat)

  // ---------- The tee ----------

  datatype Inner = Streaming | Ended | Failed

  /** What is left of a call that has begun: `disable_cache` stores the flag,
      drops the sender, drops the completion sender; an upstream error stores the
      flag and then finishes; `finish` sends the completion and drops the sender. */
  datatype TeePc =
    | Idle
    | DisableFlag
    | DisableTx
    | DisableCompletion
    | ErrorFlag
    | FinishCompletion(clean: bool)
    | FinishTx

  /** `forwarded`: data frames given to the client; `sent`: those the channel
      accepted; `full`: a send found the queue full; `refused`: a send failed. */
  datatype Tee = Tee(
    inner: Inner,
    alive: bool,
    pc: TeePc,
    forwarded: seq<Bytes>,
    sent: seq<Bytes>,
    full: bool,
    refused: bool)

  // ---------- What both share ----------

  datatype Completion = Waiting | Sent(clean: bool) | Dropped

  /** `published`: the value of the flag when the sender was dropped. */
  datatype Link = Link(
    queue: seq<Bytes>,
    txOpen: bool,
    flag: bool,
    published: bool,
    completion: Completion)

  // ---------- The writer ----------

  datatype WriterPc =
    | Start
    | Receiving
    | Inspect(chunk: Bytes)
    | Writing(chunk: Bytes)
    | AbortCheck
    | RequireCheck
    | AwaitCompletion
    | Decide(clean: bool)
    | Flushing
    | Renaming
    | Storing
    | CleaningUp
    | Removing
    | Exited(committed: bool)

  /** `temp`: the temporary file, if it exists; `buf`: bytes still in the buffered
      writer; `known`: the writer can no longer read the flag as false;
      `renamed`: the contents the writer moved onto the final path. */
  datatype Writer = Writer(
    pc: WriterPc,
    size: u64,
    temp: Option<Bytes>,
    buf: Bytes,
    written: seq<Bytes>,
    known: bool,
    renamed: Option<Bytes>,
    ioFailed: bool)

  datatype State = State(tee: Tee, link: Link, writer: Writer)

  datatype TeeMove =
    | PollData(chunk: Bytes)
    | PollError
    | PollEnd
    | Drop
    | Advance   // the next effect of the call in progress

  /** `ok`: the file or store operation of this step succeeds; `read`: a load of
      the flag is fresh; `spill`: how much of its buffer the buffered writer
      hands to the file. */
  datatype WriterMove = WriterMove(ok: bool, read: bool, spill: nat)

  datatype Event = TeeEvent(tee: TeeMove) | WriterEvent(writer: WriterMove)

  function Init(): State {
    State(
      Tee(Streaming, true, Idle, [], [], false, false),
      Link([], true, false, false, Waiting),
      Writer(Start, 0, None, [], [], false, None, false))
  }

  // ---------- Steps of the tee ----------

  predicate TeeEnabled(s: State, m: TeeMove) {
    match m
    case Advance => !s.tee.pc.Idle?
    case Drop => s.tee.alive && s.tee.pc.Idle?
    case _ => s.tee.alive && s.tee.pc.Idle? && s.tee.inner.Streaming?
  }

  function TeeStep(cfg: Config, s: State, m: TeeMove): State
    requires TeeEnabled(s, m)
  {
    var tee, link := s.tee, s.link;
    match m
    case PollData(chunk) =>
      var tee := tee.(forwarded := tee.forwarded + [chunk]);
      if !link.txOpen then
        s.(tee := tee)
      else if s.writer.pc.Exited? then  // try_send: closed
        s.(tee := tee.(refused := true, pc := DisableFlag))
      else if |link.queue| < cfg.capacity then
        s.(tee := tee.(sent := tee.sent + [chunk]), link := link.(queue := link.queue + [chunk]))
      else  // try_send: full
        s.(tee := tee.(full := true, refused := true, pc := DisableFlag))
    case PollError =>
      s.(tee := tee.(inner := Failed, pc := ErrorFlag))
    case PollEnd =>
      s.(tee := tee.(inner := Ended, pc := FinishCompletion(true)))
    case Drop =>
      s.(tee := tee.(alive := false, pc := if link.completion.Waiting? then FinishCompletion(false) else Idle))
    case Advance =>
      match tee.pc
      case Idle => s
      case DisableFlag => s.(tee := tee.(pc := DisableTx), link := link.(flag := true))
      case DisableTx => s.(tee := tee.(pc := DisableCompletion), link := CloseTx(link))
      case DisableCompletion => s.(tee := tee.(pc := Idle), link := Complete(link, Dropped))
      case ErrorFlag => s.(tee := tee.(pc := FinishCompletion(false)), link := link.(flag := true))
      case FinishCompletion(clean) => s.(tee := tee.(pc := FinishTx), link := Complete(link, Sent(clean)))
      case FinishTx => s.(tee := tee.(pc := Idle), link := CloseTx(link))
  }

  /** Dropping the sender, if it is still there. */
  function CloseTx(link: Link): Link {
    if link.txOpen then link.(txOpen := false, published := link.flag) else link
  }

  /** Using up the one-shot sender, if it is still there. */
  function Complete(link: Link, c: Completion): Link {
    if link.completion.Waiting? then link.(completion := c) else link
  }

  // ---------- Steps of the writer ----------

  predicate WriterEnabled(s: State) {
    match s.writer.pc
    case Receiving => s.link.queue != [] || !s.link.txOpen
    case AwaitCompletion => !s.link.completion.Waiting?
    case Exited(_) => false
    case _ => true
  }

  predicate ExceedsLimit(cfg: Config, size: u64, chunk: Bytes) {
    cfg.maxSize > 0 && SaturatingAdd(size, |chunk|) > cfg.maxSize
  }

  /** The checks between the completion and the flush. */
  predicate Accepts(cfg: Config, size: u64, clean: bool) {
    && (match cfg.contentLength
        case Some(expected) => size == expected
        case None => clean)
    && !(cfg.maxSize > 0 && size > cfg.maxSize)
  }

  function WriterStep(cfg: Config, s: State, m: WriterMove): State
    requires WriterEnabled(s)
  {
    match s.writer.pc
    case Start => LoopStep(cfg, s, m)
    case Receiving => LoopStep(cfg, s, m)
    case Inspect(_) => LoopStep(cfg, s, m)
    case Writing(_) => LoopStep(cfg, s, m)
    case AbortCheck => CheckStep(cfg, s, m)
    case RequireCheck => CheckStep(cfg, s, m)
    case AwaitCompletion => CheckStep(cfg, s, m)
    case Decide(_) => CheckStep(cfg, s, m)
    case _ => CommitStep(s, m)
  }

  /** A load of the abort flag. */
  predicate Load(s: State, m: WriterMove) {
    s.writer.known || (m.read && s.link.flag)
  }

  /** The receive loop. */
  function LoopStep(cfg: Config, s: State, m: WriterMove): State {
    var w, link := s.writer, s.link;
    match w.pc
    case Start =>
      if m.ok then s.(writer := w.(pc := Receiving, temp := Some([])))
      else s.(writer := w.(pc := Exited(false), ioFailed := true))
    case Receiving =>
      if link.queue != [] then
        s.(link := link.(queue := link.queue[1..]), writer := w.(pc := Inspect(link.queue[0])))
      else
        s.(writer := w.(pc := AbortCheck, known := w.known || link.published))
    case Inspect(chunk) =>
      if Load(s, m) then
        s.(writer := w.(pc := AbortCheck, known := true))
      else if ExceedsLimit(cfg, w.size, chunk) then
        s.(link := link.(flag := true), writer := w.(pc := AbortCheck, known := true))
      else
        s.(writer := w.(pc := Writing(chunk), size := WrappingAdd(w.size, |chunk|)))
    case Writing(chunk) =>
      if m.ok then
        s.(writer := Buffered(w, chunk, m.spill).(pc := Receiving))
      else
        s.(link := link.(flag := true), writer := w.(pc := Removing, ioFailed := true))
    case _ => s
  }

  /** `write_all` on the buffered writer: the chunk goes behind the buffer, and
      the first `spill` bytes of the result go on to the file. */
  function Buffered(w: Writer, chunk: Bytes, spill: nat): Writer {
    var pending := w.buf + chunk;
    var n := if spill < |pending| then spill else |pending|;
    w.(temp := Appended(w.temp, pending[..n]), buf := pending[n..], written := w.written + [chunk])
  }

  function Appended(file: Option<Bytes>, more: Bytes): Option<Bytes> {
    if file.Some? then Some(file.value + more) else None
  }

  /** The checks between the loop and the flush. */
  function CheckStep(cfg: Config, s: State, m: WriterMove): State {
    var w := s.writer;
    match w.pc
    case AbortCheck =>
      s.(writer := w.(pc := if Load(s, m) then Removing else RequireCheck))
    case RequireCheck =>
      s.(writer := w.(pc := if cfg.requireLength && cfg.contentLength.None? then Removing else AwaitCompletion))
    case AwaitCompletion =>
      s.(writer := w.(pc := Decide(s.link.completion == Sent(true))))
    case Decide(clean) =>
      s.(writer := w.(pc := if Accepts(cfg, w.size, clean) then Flushing else Removing))
    case _ => s
  }

  /** From the flush to the end of the writer. */
  function CommitStep(s: State, m: WriterMove): State {
    var w := s.writer;
    match w.pc
    case Flushing =>
      if m.ok then s.(writer := w.(pc := Renaming, temp := Appended(w.temp, w.buf), buf := []))
      else s.(writer := w.(pc := Removing, ioFailed := true))
    case Renaming =>
      if m.ok then s.(writer := w.(pc := Storing, temp := None, renamed := w.temp))
      else s.(writer := w.(pc := Removing, ioFailed := true))
    case Storing =>
      if m.ok then s.(writer := w.(pc := Exited(true)))
      else s.(writer := w.(pc := CleaningUp, ioFailed := true))
    case CleaningUp =>
      s.(writer := w.(pc := Exited(false)))
    case Removing =>
      s.(writer := w.(pc := Exited(false), temp := None))
    case _ => s
  }

  // ---------- Runs ----------

  predicate Enabled(s: State, e: Event) {
    match e
    case TeeEvent(m) => TeeEnabled(s, m)
    case WriterEvent(_) => WriterEnabled(s)
  }

  /** An event that is not enabled leaves the state unchanged, so every list of
      events is a schedule. */
  function Step(cfg: Config, s: State, e: Event): State {
    if !Enabled(s, e) then s
    else
      match e
      case TeeEvent(m) => TeeStep(cfg, s, m)
      case WriterEvent(m) => WriterStep(cfg, s, m)
  }

  function Run(cfg: Config, schedule: seq<Event>): State {
    if schedule == [] then Init()
    else Step(cfg, Run(cfg, schedule[..|schedule| - 1]), schedule[|schedule| - 1])
  }

  // ---------- The invariant ----------

  ghost function Forwarded(t: Tee): Bytes {
    Concat(t.forwarded)
  }

  /** The running size is checked by a saturating sum, so a limit of u64::MAX
      refuses nothing. */
  predicate Bounded(cfg: Config) {
    0 < cfg.maxSize < U64_MAX
  }

  ghost predicate OverLimit(cfg: Config, t: Tee) {
    Bounded(cfg) && |Forwarded(t)| > cfg.maxSize
  }

  /** The tee, its flag and its two channels. */
  ghost predicate TeeInv(s: State) {
    var t, l := s.tee, s.link;
    && (!t.refused ==> t.forwarded == t.sent)
    && (t.full ==> t.refused)
    && (t.refused && !t.pc.DisableFlag? ==> l.flag)
    && (t.inner.Failed? && !t.pc.ErrorFlag? ==> l.flag)
    && (l.published ==> l.flag && !l.txOpen)
    // what a call in progress still has to do
    && (t.pc.DisableFlag? || t.pc.DisableTx? ==>
          t.refused && l.txOpen && l.completion.Waiting? && t.alive && t.inner.Streaming?)
    && (t.pc.DisableCompletion? ==> t.refused && !l.txOpen && l.completion.Waiting? && t.alive && t.inner.Streaming?)
    && (t.pc.ErrorFlag? ==> t.inner.Failed? && t.alive)
    && (t.pc.FinishCompletion? ==>
          && (t.pc.clean ==> t.inner.Ended?)
          && (!t.pc.clean ==> t.inner.Failed? || (t.inner.Streaming? && !t.alive && !t.refused)))
    && (t.pc.FinishTx? ==> !t.inner.Streaming? || !t.alive)
    && (t.pc.FinishCompletion? || t.pc.ErrorFlag? || t.pc.Idle? ==> l.txOpen == l.completion.Waiting?)
    && (t.pc.FinishTx? ==> !l.completion.Waiting? && (l.txOpen ==> l.completion.Sent?))
    && (t.pc.Idle? && !l.txOpen ==> t.refused || !t.inner.Streaming? || !t.alive)
    && (t.pc.Idle? && l.txOpen ==> t.alive && t.inner.Streaming? && !t.refused)
    && (l.txOpen && (t.pc.FinishCompletion? || t.pc.FinishTx? || t.pc.ErrorFlag?) ==> !t.refused)
    // closing without the flag is the end or the drop of the stream, already announced
    && (!l.txOpen && !l.published ==>
          !t.refused && !t.inner.Failed? && t.pc.Idle? && l.completion == Sent(t.inner.Ended?))
    && (l.completion.Sent? && !t.refused && !t.inner.Failed? ==> l.completion.clean == t.inner.Ended?)
    && (!l.txOpen && !l.published ==> t.inner.Ended? || !t.alive)
  }

  function InHand(pc: WriterPc): seq<Bytes> {
    if pc.Inspect? || pc.Writing? then [pc.chunk] else []
  }

  /** Past the flag check that follows the receive loop. */
  predicate PastAbortCheck(pc: WriterPc) {
    pc.RequireCheck? || pc.AwaitCompletion? || pc.Decide? || PastDecision(pc)
  }

  predicate PastDecision(pc: WriterPc) {
    pc.Flushing? || pc.Renaming? || PastRename(pc)
  }

  predicate PastRename(pc: WriterPc) {
    pc.Storing? || pc.CleaningUp? || pc == Exited(true)
  }

  /** The channel was closed without the flag and has been drained. */
  ghost predicate DrainedCleanly(s: State) {
    && !s.link.txOpen && !s.link.published && s.link.queue == []
    && s.tee.sent == s.writer.written
  }

  /** What decides a commit, in terms of the stream alone. */
  ghost predicate CommitCondition(cfg: Config, t: Tee) {
    && !t.full
    && !t.inner.Failed?
    && !OverLimit(cfg, t)
    && (match cfg.contentLength
        case Some(expected) => expected == |Forwarded(t)| % U64_LIMIT
        case None => !cfg.requireLength && t.inner.Ended?)
  }

  /** The flag has a reason in the stream. */
  ghost predicate Spoiled(cfg: Config, t: Tee) {
    t.full || t.inner.Failed? || OverLimit(cfg, t)
  }

  /** Why a writer that met no I/O failure gives up; no step undoes it. */
  ghost predicate Doomed(cfg: Config, s: State) {
    || Spoiled(cfg, s.tee)
    || (cfg.requireLength && cfg.contentLength.None?)
    || (!s.link.txOpen && !s.link.published && !CommitCondition(cfg, s.tee))
  }

  /** The chunks on their way to the file. */
  ghost predicate ChannelInv(s: State) {
    var w := s.writer;
    && (w.known ==> s.link.flag)
    && (s.tee.refused ==> s.tee.full || w.pc.Exited?)
    && (w.pc.Start? || w.pc.Receiving? || w.pc.Inspect? || w.pc.Writing? ==>
          s.tee.sent == w.written + InHand(w.pc) + s.link.queue)
    && (w.pc.AbortCheck? ==> w.known || DrainedCleanly(s))
    && (PastAbortCheck(w.pc) || w.renamed.Some? ==> DrainedCleanly(s))
  }

  /** The temporary file, the buffered writer and the renamed file. */
  ghost predicate FileInv(w: Writer) {
    && (w.pc.Start? ==> w.buf == [] && w.written == [])
    && (w.temp.Some? <==> !(w.pc.Start? || PastRename(w.pc) || w.pc.Exited?))
    && (w.temp.Some? && !w.pc.Removing? ==> w.temp.value + w.buf == Concat(w.written))
    && (w.pc.Renaming? ==> w.buf == [])
    && (w.pc.CleaningUp? ==> w.ioFailed)
    && (PastRename(w.pc) ==> w.renamed.Some?)
    && (w.renamed.Some? ==>
          && w.renamed.value == Concat(w.written)
          && (PastRename(w.pc) || (w.pc == Exited(false) && w.ioFailed)))
  }

  /** Every verdict of the writer has its reason in the stream. */
  ghost predicate DecisionInv(cfg: Config, s: State) {
    var w, ended := s.writer, s.tee.inner.Ended?;
    && (s.link.flag && !w.pc.Exited? && !w.ioFailed ==> Spoiled(cfg, s.tee))
    && (w.pc.Decide? ==> w.pc.clean == ended)
    && ((PastAbortCheck(w.pc) && !w.pc.RequireCheck?) || w.renamed.Some? ==>
          !(cfg.requireLength && cfg.contentLength.None?))
    && (PastDecision(w.pc) || w.renamed.Some? ==> Accepts(cfg, w.size, ended))
    && ((w.pc.Removing? || w.pc == Exited(false)) && !w.ioFailed ==> Doomed(cfg, s))
  }

  /** `size` is the length of what has been written or is about to be. */
  ghost predicate SizeInv(cfg: Config, w: Writer) {
    !(w.pc.Removing? || (w.pc == Exited(false) && w.renamed.None?)) ==>
      var total := |Concat(w.written)| + if w.pc.Writing? then |w.pc.chunk| else 0;
      && w.size == total % U64_LIMIT
      && (Bounded(cfg) ==> total <= cfg.maxSize)
  }

  ghost predicate Inv(cfg: Config, s: State) {
    TeeInv(s) && ChannelInv(s) && FileInv(s.writer) && SizeInv(cfg, s.writer) && DecisionInv(cfg, s)
  }

  lemma TeeStepKeepsTeeInv(cfg: Config, s: State, m: TeeMove)
    requires TeeInv(s) && TeeEnabled(s, m)
    ensures TeeInv(TeeStep(cfg, s, m))
  {
  }

  lemma TeeStepKeepsChannelInv(cfg: Config, s: State, m: TeeMove)
    requires TeeInv(s) && ChannelInv(s) && TeeEnabled(s, m)
    ensures ChannelInv(TeeStep(cfg, s, m))
  {
    if m.PollData? {
      var w := s.writer;
      assert w.written + InHand(w.pc) + s.link.queue + [m.chunk]
          == w.written + InHand(w.pc) + (s.link.queue + [m.chunk]);
    }
  }

  lemma TeeStepKeepsDecisionInv(cfg: Config, s: State, m: TeeMove)
    requires Inv(cfg, s) && TeeEnabled(s, m)
    ensures DecisionInv(cfg, TeeStep(cfg, s, m))
  {
    if m.PollData? {
      ConcatSnoc(s.tee.forwarded, m.chunk);
    }
  }

  /** The checks before the flush reject exactly a stream that must not be committed. */
  lemma DecideIsExact(cfg: Config, s: State)
    requires Inv(cfg, s) && (s.writer.pc.Decide? || PastDecision(s.writer.pc))
    requires !cfg.requireLength || cfg.contentLength.Some?
    ensures Accepts(cfg, s.writer.size, s.tee.inner.Ended?) <==> CommitCondition(cfg, s.tee)
  {
    assert Forwarded(s.tee) == Concat(s.writer.written);
    var total := |Forwarded(s.tee)|;
    assert s.writer.size == total % U64_LIMIT;
    assert total < U64_LIMIT ==> total % U64_LIMIT == total;
  }

  predicate InLoop(pc: WriterPc) {
    pc.Start? || pc.Receiving? || pc.Inspect? || pc.Writing?
  }

  predicate InChecks(pc: WriterPc) {
    pc.AbortCheck? || pc.RequireCheck? || pc.AwaitCompletion? || pc.Decide?
  }

  lemma BufferedKeepsContents(w: Writer, chunk: Bytes, spill: nat)
    requires w.temp.Some? && w.temp.value + w.buf == Concat(w.written)
    ensures
      var w' := Buffered(w, chunk, spill);
      w'.temp.Some? && w'.temp.value + w'.buf == Concat(w'.written) == Concat(w.written) + chunk
  {
    var pending := w.buf + chunk;
    var n := if spill < |pending| then spill else |pending|;
    CutAndJoin(w.temp.value, pending, n);
    AppendAssociates(w.temp.value, w.buf, chunk);
    ConcatSnoc(w.written, chunk);
  }

  lemma LoopKeepsFile(cfg: Config, s: State, m: WriterMove)
    requires InLoop(s.writer.pc) && FileInv(s.writer)
    ensures FileInv(LoopStep(cfg, s, m).writer)
  {
    if s.writer.pc.Writing? {
      BufferedKeepsContents(s.writer, s.writer.pc.chunk, m.spill);
    }
  }

  /** A chunk that is let through keeps the size and the limit. */
  lemma AdmittingKeepsSize(cfg: Config, total: nat, chunk: Bytes)
    requires Bounded(cfg) ==> total <= cfg.maxSize
    requires !ExceedsLimit(cfg, total % U64_LIMIT, chunk)
    ensures WrappingAdd(total % U64_LIMIT, |chunk|) == (total + |chunk|) % U64_LIMIT
    ensures Bounded(cfg) ==> total + |chunk| <= cfg.maxSize
  {
    WrappingAddOfTotal(total, |chunk|);
    hide WrappingAdd;
    assert total < U64_LIMIT ==> total % U64_LIMIT == total;
  }

  lemma LoopKeepsSize(cfg: Config, s: State, m: WriterMove)
    requires InLoop(s.writer.pc) && FileInv(s.writer) && SizeInv(cfg, s.writer)
    ensures SizeInv(cfg, LoopStep(cfg, s, m).writer)
  {
    var w := s.writer;
    hide ExceedsLimit, WrappingAdd, Bounded, FileInv;
    if w.pc.Inspect? {
      hide Load;
      if !ExceedsLimit(cfg, w.size, w.pc.chunk) {
        AdmittingKeepsSize(cfg, |Concat(w.written)|, w.pc.chunk);
      }
    } else if w.pc.Writing? {
      BufferedKeepsSize(cfg, w, m.spill);
      hide Buffered;
    }
  }

  lemma BufferedKeepsSize(cfg: Config, w: Writer, spill: nat)
    requires w.pc.Writing? && FileInv(w) && SizeInv(cfg, w)
    ensures SizeInv(cfg, Buffered(w, w.pc.chunk, spill).(pc := Receiving))
  {
    BufferedKeepsContents(w, w.pc.chunk, spill);
  }

  lemma LoopKeepsTeeInv(cfg: Config, s: State, m: WriterMove)
    requires InLoop(s.writer.pc) && TeeInv(s)
    ensures TeeInv(LoopStep(cfg, s, m))
  {
  }

  lemma ReceivingKeepsChannel(cfg: Config, s: State, m: WriterMove)
    requires s.writer.pc.Receiving? && WriterEnabled(s) && TeeInv(s) && ChannelInv(s)
    ensures ChannelInv(LoopStep(cfg, s, m))
  {
    var w, queue := s.writer, s.link.queue;
    if queue != [] {
      assert queue == [queue[0]] + queue[1..];
      AppendAssociates(w.written, [queue[0]], queue[1..]);
    }
  }

  lemma LoopKeepsChannel(cfg: Config, s: State, m: WriterMove)
    requires InLoop(s.writer.pc) && WriterEnabled(s) && TeeInv(s) && ChannelInv(s) && FileInv(s.writer)
    ensures ChannelInv(LoopStep(cfg, s, m))
  {
    if s.writer.pc.Receiving? {
      ReceivingKeepsChannel(cfg, s, m);
    } else {
      hide TeeInv, ExceedsLimit;
    }
  }

  /** The limit check fails only on a stream that is over the limit. */
  lemma ExceedingIsSpoiled(cfg: Config, s: State, chunk: Bytes)
    requires TeeInv(s) && ChannelInv(s) && SizeInv(cfg, s.writer)
    requires s.writer.pc == Inspect(chunk) && ExceedsLimit(cfg, s.writer.size, chunk)
    ensures Spoiled(cfg, s.tee)
  {
    if !s.tee.full {
      var taken := s.writer.written + [chunk];
      ConcatSnoc(s.writer.written, chunk);
      ConcatGrows(taken, s.link.queue);
      assert s.tee.forwarded == taken + s.link.queue;
    }
  }

  lemma LoopKeepsDecision(cfg: Config, s: State, m: WriterMove)
    requires InLoop(s.writer.pc) && s.writer.renamed.None? && DecisionInv(cfg, s)
    requires s.writer.pc.Inspect? && ExceedsLimit(cfg, s.writer.size, s.writer.pc.chunk) ==> Spoiled(cfg, s.tee)
    ensures DecisionInv(cfg, LoopStep(cfg, s, m))
  {
  }

  lemma LoopKeepsInv(cfg: Config, s: State, m: WriterMove)
    requires InLoop(s.writer.pc) && WriterEnabled(s) && Inv(cfg, s)
    ensures Inv(cfg, LoopStep(cfg, s, m))
  {
    LoopKeepsTeeInv(cfg, s, m);
    LoopKeepsChannel(cfg, s, m);
    LoopKeepsFile(cfg, s, m);
    LoopKeepsSize(cfg, s, m);
    if s.writer.pc.Inspect? && ExceedsLimit(cfg, s.writer.size, s.writer.pc.chunk) {
      ExceedingIsSpoiled(cfg, s, s.writer.pc.chunk);
    }
    LoopKeepsDecision(cfg, s, m);
  }

  lemma CheckKeepsDecision(cfg: Config, s: State, m: WriterMove)
    requires InChecks(s.writer.pc) && WriterEnabled(s) && Inv(cfg, s)
    ensures DecisionInv(cfg, CheckStep(cfg, s, m))
  {
    if s.writer.pc.Decide? {
      DecideIsExact(cfg, s);
    }
  }

  lemma CheckKeepsInv(cfg: Config, s: State, m: WriterMove)
    requires InChecks(s.writer.pc) && WriterEnabled(s) && Inv(cfg, s)
    ensures Inv(cfg, CheckStep(cfg, s, m))
  {
    CheckKeepsDecision(cfg, s, m);
  }

  lemma CommitKeepsDecision(cfg: Config, s: State, m: WriterMove)
    requires !InLoop(s.writer.pc) && !InChecks(s.writer.pc) && FileInv(s.writer) && DecisionInv(cfg, s)
    ensures DecisionInv(cfg, CommitStep(s, m))
  {
  }

  lemma CommitKeepsTeeAndSize(cfg: Config, s: State, m: WriterMove)
    requires !InLoop(s.writer.pc) && !InChecks(s.writer.pc) && FileInv(s.writer)
    requires TeeInv(s) && SizeInv(cfg, s.writer)
    ensures TeeInv(CommitStep(s, m)) && SizeInv(cfg, CommitStep(s, m).writer)
  {
  }

  lemma CommitKeepsChannel(s: State, m: WriterMove)
    requires !InLoop(s.writer.pc) && !InChecks(s.writer.pc) && FileInv(s.writer) && ChannelInv(s)
    ensures ChannelInv(CommitStep(s, m))
  {
  }

  lemma CommitKeepsFile(s: State, m: WriterMove)
    requires !InLoop(s.writer.pc) && !InChecks(s.writer.pc) && FileInv(s.writer)
    ensures FileInv(CommitStep(s, m).writer)
  {
  }

  lemma CommitKeepsInv(cfg: Config, s: State, m: WriterMove)
    requires !InLoop(s.writer.pc) && !InChecks(s.writer.pc) && Inv(cfg, s)
    ensures Inv(cfg, CommitStep(s, m))
  {
    CommitKeepsTeeAndSize(cfg, s, m);
    CommitKeepsChannel(s, m);
    CommitKeepsFile(s, m);
    CommitKeepsDecision(cfg, s, m);
  }

  lemma WriterStepKeepsInv(cfg: Config, s: State, m: WriterMove)
    requires WriterEnabled(s) && Inv(cfg, s)
    ensures Inv(cfg, WriterStep(cfg, s, m))
  {
    if InLoop(s.writer.pc) {
      LoopKeepsInv(cfg, s, m);
    } else if InChecks(s.writer.pc) {
      CheckKeepsInv(cfg, s, m);
    } else {
      CommitKeepsInv(cfg, s, m);
    }
  }

  lemma TeeStepKeepsInv(cfg: Config, s: State, m: TeeMove)
    requires TeeEnabled(s, m) && Inv(cfg, s)
    ensures Inv(cfg, TeeStep(cfg, s, m))
  {
    TeeStepKeepsTeeInv(cfg, s, m);
    TeeStepKeepsChannelInv(cfg, s, m);
    TeeStepKeepsDecisionInv(cfg, s, m);
  }

  lemma StepKeepsInv(cfg: Config, s: State, e: Event)
    requires Inv(cfg, s)
    ensures Inv(cfg, Step(cfg, s, e))
  {
    if Enabled(s, e) {
      match e {
        case TeeEvent(m) => TeeStepKeepsInv(cfg, s, m);
        case WriterEvent(m) => WriterStepKeepsInv(cfg, s, m);
      }
    }
  }

  lemma {:induction false} RunKeepsInv(cfg: Config, schedule: seq<Event>)
    ensures Inv(cfg, Run(cfg, schedule))
  {
    if schedule != [] {
      var before := schedule[..|schedule| - 1];
      RunKeepsInv(cfg, before);
      StepKeepsInv(cfg, Run(cfg, before), schedule[|schedule| - 1]);
    }
  }

  // ---------- What every schedule guarantees ----------

  /** Commit soundness: whatever was moved onto the final path is exactly what the
      client was given; no send failed, upstream did not fail, and either the end
      was seen or the size is the declared one. */
  lemma RenamedFileIsForwardedBody(cfg: Config, schedule: seq<Event>)
    ensures
      var s := Run(cfg, schedule);
      s.writer.renamed.Some? ==>
        && s.writer.renamed.value == Concat(s.tee.forwarded)
        && !s.tee.refused && !s.tee.inner.Failed?
        && (s.tee.inner.Ended? || cfg.contentLength == Some(|s.writer.renamed.value| % U64_LIMIT))
        && s.writer.size == |s.writer.renamed.value| % U64_LIMIT
        && !s.link.txOpen
  {
    RunKeepsInv(cfg, schedule);
  }

  /** Exact outcome: a writer that met no I/O failure commits if and only if no
      send found the queue full, upstream gave no error, the stream kept to the
      limit, and it matched its declared length or, where none was declared and
      none is required, came to its end. */
  lemma WriterCommitsExactly(cfg: Config, schedule: seq<Event>)
    ensures
      var s := Run(cfg, schedule);
      s.writer.pc.Exited? && !s.writer.ioFailed ==>
        (s.writer.pc.committed <==> CommitCondition(cfg, s.tee))
    ensures
      var tee, sent := Run(cfg, schedule).tee, |Concat(Run(cfg, schedule).tee.forwarded)|;
      CommitCondition(cfg, tee) <==>
        && !tee.full && !tee.inner.Failed?
        && (0 < cfg.maxSize < 0xFFFF_FFFF_FFFF_FFFF ==> sent <= cfg.maxSize)
        && (if cfg.contentLength.Some? then cfg.contentLength.value == sent % 0x1_0000_0000_0000_0000
            else !cfg.requireLength && tee.inner.Ended?)
  {
    RunKeepsInv(cfg, schedule);
    var s := Run(cfg, schedule);
    if s.writer.pc == Exited(true) {
      DecideIsExact(cfg, s);
    }
  }

  /** The verdict is final: nothing the tee does later changes the condition. */
  lemma VerdictIsFinal(cfg: Config, schedule: seq<Event>, more: seq<Event>)
    requires Run(cfg, schedule).writer.pc.Exited? && !Run(cfg, schedule).writer.ioFailed
    ensures
      var s, t := Run(cfg, schedule), Run(cfg, schedule + more);
      t.writer == s.writer && (CommitCondition(cfg, t.tee) <==> CommitCondition(cfg, s.tee))
    decreases |more|
  {
    if more == [] {
      assert schedule + more == schedule;
    } else {
      var init := more[..|more| - 1];
      VerdictIsFinal(cfg, schedule, init);
      assert (schedule + more)[..|schedule + more| - 1] == schedule + init;
      WriterCommitsExactly(cfg, schedule);
      WriterCommitsExactly(cfg, schedule + more);
    }
  }

  /** No exit leaves the temporary file behind. */
  lemma NoTemporaryFileAfterExit(cfg: Config, schedule: seq<Event>)
    ensures
      var w := Run(cfg, schedule).writer;
      w.pc.Exited? ==> w.temp.None?
  {
    RunKeepsInv(cfg, schedule);
  }

  /** Size accounting: at the head of the receive loop and up to the store, `size`
      is what was handed to the file.  With a limit below u64::MAX it never wraps
      and never exceeds the limit, so the recheck after the loop cannot fire. */
  lemma SizeIsWhatWasWritten(cfg: Config, schedule: seq<Event>)
    ensures
      var w := Run(cfg, schedule).writer;
      w.pc.Receiving? || w.pc.Inspect? || InChecks(w.pc) || PastDecision(w.pc) ==>
        && w.size == |Concat(w.written)| % U64_LIMIT
        && (Bounded(cfg) ==> w.size == |Concat(w.written)| <= cfg.maxSize)
        && !(cfg.maxSize > 0 && w.size > cfg.maxSize)
  {
    RunKeepsInv(cfg, schedule);
    var w := Run(cfg, schedule).writer;
    if !w.pc.Writing? && !w.pc.Removing? && w.pc != Exited(false) {
      SizeInvGivesSize(cfg, w);
    }
  }

  lemma SizeInvGivesSize(cfg: Config, w: Writer)
    requires SizeInv(cfg, w) && !w.pc.Writing? && !w.pc.Removing? && w.pc != Exited(false)
    ensures w.size == |Concat(w.written)| % U64_LIMIT
    ensures Bounded(cfg) ==> w.size == |Concat(w.written)| <= cfg.maxSize
    ensures !(cfg.maxSize > 0 && w.size > cfg.maxSize)
  {
    var total := |Concat(w.written)|;
    assert total < U64_LIMIT ==> total % U64_LIMIT == total;
  }

  // ---------- Progress ----------

  /** Where the writer has to wait: only for a chunk on an open, empty channel. */
  lemma WriterNeverBlocksOnCompletion(cfg: Config, schedule: seq<Event>)
    ensures
      var s := Run(cfg, schedule);
      !WriterEnabled(s) <==> s.writer.pc.Exited? || (s.writer.pc.Receiving? && s.link.queue == [] && s.link.txOpen)
  {
    RunKeepsInv(cfg, schedule);
  }

  /** Steps the writer can still take once the channel is closed. */
  function Remaining(s: State): nat {
    3 * |s.link.queue| +
    match s.writer.pc
    case Start => 12
    case Receiving => 11
    case Inspect(_) => 13
    case Writing(_) => 12
    case AbortCheck => 10
    case RequireCheck => 9
    case AwaitCompletion => 8
    case Decide(_) => 7
    case Flushing => 6
    case Renaming => 5
    case Storing => 4
    case CleaningUp => 3
    case Removing => 2
    case Exited(_) => 0
  }

  lemma WriterStepLowersRemaining(cfg: Config, s: State, m: WriterMove)
    requires WriterEnabled(s)
    ensures Remaining(WriterStep(cfg, s, m)) < Remaining(s)
  {
    var s' := WriterStep(cfg, s, m);
    match s.writer.pc {
      case Receiving => assert s.link.queue != [] ==> |s'.link.queue| == |s.link.queue| - 1;
      case _ =>
    }
  }

  /** The sender is gone as soon as the tee has ended, failed, been dropped or
      been disabled and the call that did it has returned. */
  lemma FinishedTeeHasClosed(cfg: Config, schedule: seq<Event>)
    ensures
      var s := Run(cfg, schedule);
      s.tee.pc.Idle? ==>
        (s.link.txOpen <==> s.tee.alive && s.tee.inner.Streaming? && !s.tee.refused)
  {
    RunKeepsInv(cfg, schedule);
  }

  /** Once the sender is gone every event leaves the measure alone or, if it is a
      step of the writer, lowers it; and the writer is never blocked. */
  lemma WriterProgress(cfg: Config, schedule: seq<Event>, e: Event)
    requires !Run(cfg, schedule).link.txOpen && !Run(cfg, schedule).writer.pc.Exited?
    ensures
      var s := Run(cfg, schedule);
      var s' := Step(cfg, s, e);
      && WriterEnabled(s)
      && !s'.link.txOpen
      && (if e.WriterEvent? then Remaining(s') < Remaining(s) else Remaining(s') == Remaining(s))
  {
    var s := Run(cfg, schedule);
    WriterNeverBlocksOnCompletion(cfg, schedule);
    if e.WriterEvent? {
      WriterStepLowersRemaining(cfg, s, e.writer);
    }
  }

  function WriterEvents(schedule: seq<Event>): nat {
    if schedule == [] then 0
    else WriterEvents(schedule[..|schedule| - 1]) + if schedule[|schedule| - 1].WriterEvent? then 1 else 0
  }

  /** The bound over whole runs: after the sender is gone, any continuation in
      which the writer is scheduled often enough ends it. */
  lemma WriterFinishes(cfg: Config, schedule: seq<Event>, more: seq<Event>)
    requires !Run(cfg, schedule).link.txOpen
    ensures
      var s, t := Run(cfg, schedule), Run(cfg, schedule + more);
      && !t.link.txOpen
      && (t.writer.pc.Exited? || Remaining(t) + WriterEvents(more) <= Remaining(s))
    ensures
      WriterEvents(more) > 3 * |Run(cfg, schedule).link.queue| + 13 ==>
        Run(cfg, schedule + more).writer.pc.Exited?
  {
    WriterAdvances(cfg, schedule, more);
    hide Run;
  }

  lemma {:induction false} WriterAdvances(cfg: Config, schedule: seq<Event>, more: seq<Event>)
    requires !Run(cfg, schedule).link.txOpen
    ensures
      var s, t := Run(cfg, schedule), Run(cfg, schedule + more);
      && !t.link.txOpen
      && (t.writer.pc.Exited? || Remaining(t) + WriterEvents(more) <= Remaining(s))
    decreases |more|
  {
    hide Remaining;
    if more == [] {
      assert schedule + more == schedule;
    } else {
      var init, e := more[..|more| - 1], more[|more| - 1];
      WriterAdvances(cfg, schedule, init);
      assert (schedule + more)[..|schedule + more| - 1] == schedule + init;
      hide Step;
      var s := Run(cfg, schedule + init);
      if s.writer.pc.Exited? {
        ExitedStays(cfg, s, e);
      } else {
        WriterProgress(cfg, schedule + init, e);
      }
    }
  }

  lemma ExitedStays(cfg: Config, s: State, e: Event)
    requires s.writer.pc.Exited? && !s.link.txOpen
    ensures Step(cfg, s, e).writer.pc.Exited? && !Step(cfg, s, e).link.txOpen
  {
    hide WriterStep;
  }

  // ---------- The outcome is reached ----------

  predicate WriterSucceeds(e: Event) {
    e.WriterEvent? && e.writer.ok
  }

  lemma WriterOnly(cfg: Config, s: State, e: Event)
    requires WriterSucceeds(e)
    ensures Step(cfg, s, e).tee == s.tee
    ensures !s.writer.ioFailed && !s.writer.pc.CleaningUp? ==>
              !Step(cfg, s, e).writer.ioFailed && !Step(cfg, s, e).writer.pc.CleaningUp?
  {
  }

  lemma {:induction false} WriterAlone(cfg: Config, schedule: seq<Event>, more: seq<Event>)
    requires forall e :: e in more ==> WriterSucceeds(e)
    requires !Run(cfg, schedule).writer.ioFailed
    ensures
      var s, t := Run(cfg, schedule), Run(cfg, schedule + more);
      && WriterEvents(more) == |more|
      && t.tee == s.tee && !t.writer.ioFailed
    decreases |more|
  {
    if more == [] {
      assert schedule + more == schedule;
    } else {
      var init, e := more[..|more| - 1], more[|more| - 1];
      WriterAlone(cfg, schedule, init);
      assert (schedule + more)[..|schedule + more| - 1] == schedule + init;
      RunKeepsInv(cfg, schedule + init);
      assert !Run(cfg, schedule + init).writer.pc.CleaningUp?;
      assert e in more;
      hide Step;
      WriterOnly(cfg, Run(cfg, schedule + init), e);
    }
  }

  /** Liveness of the verdict: once the sender is gone and the disk does its work, the
      writer alone reaches its verdict within three steps a queued chunk and fourteen
      more, and the verdict is what the stream calls for. */
  lemma OutcomeIsReached(cfg: Config, schedule: seq<Event>, more: seq<Event>)
    requires !Run(cfg, schedule).link.txOpen && !Run(cfg, schedule).writer.ioFailed
    requires (forall e :: e in more ==> WriterSucceeds(e)) && |more| > 3 * |Run(cfg, schedule).link.queue| + 13
    ensures
      var s, w := Run(cfg, schedule), Run(cfg, schedule + more).writer;
      && w.pc == Exited(CommitCondition(cfg, s.tee))
      && (CommitCondition(cfg, s.tee) ==> w.renamed == Some(Concat(s.tee.forwarded)))
  {
    WriterAlone(cfg, schedule, more);
    WriterFinishes(cfg, schedule, more);
    WriterCommitsExactly(cfg, schedule + more);
    RenamedFileIsForwardedBody(cfg, schedule + more);
    RunKeepsInv(cfg, schedule + more);
  }

  const GO := WriterEvent(WriterMove(true, true, 0))

  /** A chunk is polled, and the writer takes it to the file. */
  function Passing(chunk: Bytes): seq<Event> {
    [TeeEvent(PollData(chunk)), GO, GO, GO]
  }

  function Polls(chunks: seq<Bytes>): seq<Event> {
    if chunks == [] then [GO] else Polls(chunks[..|chunks| - 1]) + Passing(chunks[|chunks| - 1])
  }

  /** All that has been polled has been written, and nothing is amiss. */
  ghost predicate CaughtUp(s: State, chunks: seq<Bytes>) {
    && s.tee == Tee(Streaming, true, Idle, chunks, chunks, false, false)
    && s.link == Link([], true, false, false, Waiting)
    && s.writer.pc.Receiving? && s.writer.written == chunks
    && !s.writer.known && !s.writer.ioFailed
  }

  lemma PassingSteps(cfg: Config, schedule: seq<Event>, chunk: Bytes)
    ensures
      var s1 := Step(cfg, Run(cfg, schedule), TeeEvent(PollData(chunk)));
      Run(cfg, schedule + Passing(chunk)) == Step(cfg, Step(cfg, Step(cfg, s1, GO), GO), GO)
  {
    hide Run, Step;
    var poll := TeeEvent(PollData(chunk));
    RunSnoc(cfg, schedule, poll);
    RunSnoc(cfg, schedule + [poll], GO);
    RunSnoc(cfg, schedule + [poll] + [GO], GO);
    RunSnoc(cfg, schedule + [poll] + [GO] + [GO], GO);
    assert schedule + [poll] + [GO] + [GO] + [GO] == schedule + Passing(chunk);
  }

  lemma ChunkFits(cfg: Config, w: Writer, chunk: Bytes)
    requires SizeInv(cfg, w) && w.pc.Receiving?
    requires Bounded(cfg) ==> |Concat(w.written)| + |chunk| <= cfg.maxSize
    ensures !ExceedsLimit(cfg, w.size, chunk)
  {
    SizeInvGivesSize(cfg, w);
  }

  lemma ChunkPasses(cfg: Config, s: State, chunks: seq<Bytes>, chunk: Bytes)
    requires CaughtUp(s, chunks) && cfg.capacity > 0 && !ExceedsLimit(cfg, s.writer.size, chunk)
    ensures
      var s1 := Step(cfg, s, TeeEvent(PollData(chunk)));
      CaughtUp(Step(cfg, Step(cfg, Step(cfg, s1, GO), GO), GO), chunks + [chunk])
  {
    hide CheckStep, CommitStep, ExceedsLimit;
    var s1 := Step(cfg, s, TeeEvent(PollData(chunk)));
    assert s1.link.queue == [chunk];
    var s2 := Step(cfg, s1, GO);
    assert s2.link.queue == [] && s2.writer.pc == Inspect(chunk);
    var s3 := Step(cfg, s2, GO);
    assert s3.writer.pc == Writing(chunk);
  }

  lemma {:induction false} PolledState(cfg: Config, chunks: seq<Bytes>)
    requires cfg.capacity > 0 && (Bounded(cfg) ==> |Concat(chunks)| <= cfg.maxSize)
    ensures CaughtUp(Run(cfg, Polls(chunks)), chunks)
  {
    if chunks == [] {
      assert [] + [GO] == Polls(chunks);
      RunSnoc(cfg, [], GO);
    } else {
      var init, last := chunks[..|chunks| - 1], chunks[|chunks| - 1];
      var s := Run(cfg, Polls(init));
      PolledState(cfg, init);
      RunKeepsInv(cfg, Polls(init));
      hide Run, Step, Passing, TeeInv, ChannelInv, FileInv, DecisionInv, SizeInv;
      ChunkFits(cfg, s.writer, last);
      hide ExceedsLimit;
      ChunkPasses(cfg, s, init, last);
      PassingSteps(cfg, Polls(init), last);
      assert init + [last] == chunks;
    }
  }

  function WholeStream(chunks: seq<Bytes>): seq<Event> {
    Polls(chunks) + [TeeEvent(PollEnd)] + [TeeEvent(Advance)] + [TeeEvent(Advance)]
  }

  lemma RunSnoc(cfg: Config, schedule: seq<Event>, e: Event)
    ensures Run(cfg, schedule + [e]) == Step(cfg, Run(cfg, schedule), e)
  {
    assert (schedule + [e])[..|schedule|] == schedule;
  }

  lemma WholeStreamState(cfg: Config, chunks: seq<Bytes>)
    requires cfg.capacity > 0 && (Bounded(cfg) ==> |Concat(chunks)| <= cfg.maxSize)
    ensures
      var s := Run(cfg, WholeStream(chunks));
      && s.tee.forwarded == chunks && s.tee.inner.Ended? && !s.tee.full
      && s.link.queue == [] && !s.link.txOpen && !s.writer.ioFailed
  {
    hide Run, Polls, WriterStep;
    var polls, end, next := Polls(chunks), TeeEvent(PollEnd), TeeEvent(Advance);
    PolledState(cfg, chunks);
    RunSnoc(cfg, polls, end);
    RunSnoc(cfg, polls + [end], next);
    RunSnoc(cfg, polls + [end] + [next], next);
  }

  /** The commit is no empty promise: every body within the limits is committed, byte
      for byte and whatever its size and the channel's, by a schedule that delivers it
      at the writer's pace and then lets the writer run. */
  lemma WholeBodyIsCommitted(cfg: Config, chunks: seq<Bytes>, more: seq<Event>)
    requires cfg.capacity > 0 && (Bounded(cfg) ==> |Concat(chunks)| <= cfg.maxSize)
    requires if cfg.contentLength.Some? then cfg.contentLength.value == |Concat(chunks)| % U64_LIMIT
             else !cfg.requireLength
    requires (forall e :: e in more ==> WriterSucceeds(e)) && |more| > 13
    ensures
      var w := Run(cfg, WholeStream(chunks) + more).writer;
      w.pc == Exited(true) && w.renamed == Some(Concat(chunks))
  {
    WholeStreamState(cfg, chunks);
    hide Run, Step, WholeStream, WriterSucceeds;
    OutcomeIsReached(cfg, WholeStream(chunks), more);
  }

  // ---------- The reach of the size limit ----------

  predicate KeepsLimit(cfg: Config, w: Writer) {
    w.renamed.Some? ==> |w.renamed.value| <= cfg.maxSize
  }

  /** Allocations are smaller than this, and a chunk is one. */
  const CHUNK_LIMIT: int := 0x8000_0000_0000_0000

  predicate IsReal(e: Event) {
    e.TeeEvent? && e.tee.PollData? ==> |e.tee.chunk| < CHUNK_LIMIT
  }

  predicate RealChunks(schedule: seq<Event>) {
    forall e :: e in schedule ==> IsReal(e)
  }

  lemma {:induction false} PollsAreReal(chunks: seq<Bytes>)
    requires forall c :: c in chunks ==> |c| < CHUNK_LIMIT
    ensures RealChunks(Polls(chunks))
  {
    if chunks != [] {
      var init, last := chunks[..|chunks| - 1], chunks[|chunks| - 1];
      PollsAreReal(init);
      assert last in chunks;
      assert forall e :: e in Polls(chunks) ==> e in Polls(init) || e == TeeEvent(PollData(last)) || e == GO;
    }
  }

  lemma BoundedCommitsKeepLimit(cfg: Config, schedule: seq<Event>)
    requires Bounded(cfg)
    ensures KeepsLimit(cfg, Run(cfg, schedule).writer)
  {
    RunKeepsInv(cfg, schedule);
  }

  /** Under a limit of u64::MAX the saturating check lets everything pass and the
      running size wraps: a body of any length, in chunks of any sizes, is committed
      with the size that is left of it, and a declared length is compared with that. */
  lemma LimitOfU64MaxWraps(cfg: Config, chunks: seq<Bytes>, more: seq<Event>)
    requires cfg.maxSize == U64_MAX && cfg.capacity > 0
    requires if cfg.contentLength.Some? then cfg.contentLength.value == |Concat(chunks)| % U64_LIMIT
             else !cfg.requireLength
    requires (forall e :: e in more ==> WriterSucceeds(e)) && |more| > 13
    ensures
      var w := Run(cfg, WholeStream(chunks) + more).writer;
      && w.pc == Exited(true) && w.renamed == Some(Concat(chunks))
      && w.size == |Concat(chunks)| % U64_LIMIT
      && (|Concat(chunks)| == U64_LIMIT ==> w.size == 0)
    ensures (forall c :: c in chunks ==> |c| < CHUNK_LIMIT) ==> RealChunks(WholeStream(chunks) + more)
  {
    WholeBodyIsCommitted(cfg, chunks, more);
    RenamedFileIsForwardedBody(cfg, WholeStream(chunks) + more);
    if forall c :: c in chunks ==> |c| < CHUNK_LIMIT {
      WholeStreamIsReal(chunks, more);
    }
  }

  /** `n` bytes, one to a chunk. */
  function Singles(n: nat): seq<Bytes> {
    if n == 0 then [] else Singles(n - 1) + [[0]]
  }

  lemma {:induction false} SinglesSize(n: nat)
    ensures |Concat(Singles(n))| == n
    ensures forall c :: c in Singles(n) ==> |c| == 1
  {
    if n > 0 {
      SinglesSize(n - 1);
      ConcatSnoc(Singles(n - 1), [0]);
    }
  }

  /** A length is required and not declared: such a body is never kept. */
  predicate KeepsNothing(cfg: Config) {
    cfg.requireLength && cfg.contentLength.None?
  }

  lemma NothingIsKept(cfg: Config, schedule: seq<Event>)
    requires KeepsNothing(cfg)
    ensures Run(cfg, schedule).writer.renamed.None?
  {
    RunKeepsInv(cfg, schedule);
  }

  function Going(n: nat): seq<Event> {
    if n == 0 then [] else Going(n - 1) + [GO]
  }

  lemma {:induction false} GoingGoes(n: nat)
    ensures |Going(n)| == n && forall e :: e in Going(n) ==> e == GO
  {
    if n > 0 {
      GoingGoes(n - 1);
    }
  }

  lemma WholeStreamIsReal(chunks: seq<Bytes>, more: seq<Event>)
    requires forall c :: c in chunks ==> |c| < CHUNK_LIMIT
    requires forall e :: e in more ==> WriterSucceeds(e)
    ensures RealChunks(WholeStream(chunks) + more)
  {
    PollsAreReal(chunks);
    hide Polls;
  }

  lemma WrappedOnce(n: u64)
    ensures (n + U64_LIMIT) % U64_LIMIT == n
  {
    ModOfMultiple(n, 1);
  }

  /** A body longer than any limit whose size, wrapped, is the declared one. */
  lemma OverlongBodyIsCommitted(cfg: Config) returns (schedule: seq<Event>)
    requires cfg.capacity > 0 && !Bounded(cfg) && !KeepsNothing(cfg)
    ensures RealChunks(schedule) && !KeepsLimit(cfg, Run(cfg, schedule).writer)
  {
    hide Run, Concat, Singles, Going, WholeStream, RealChunks;
    var declared: u64 := if cfg.contentLength.Some? then cfg.contentLength.value else 0;
    var chunks, more := Singles(declared + U64_LIMIT), Going(14);
    SinglesSize(declared + U64_LIMIT);
    WrappedOnce(declared);
    GoingGoes(14);
    schedule := WholeStream(chunks) + more;
    WholeBodyIsCommitted(cfg, chunks, more);
    WholeStreamIsReal(chunks, more);
  }

  /** The exact reach of the size limit: no schedule, of chunks that can exist, commits
      an object over the limit if and only if the limit is positive and below u64::MAX,
      or a length is required and none declared. */
  lemma LimitIsKeptExactlyWhenBounded(cfg: Config)
    requires cfg.capacity > 0
    ensures 0 < cfg.maxSize < 0xFFFF_FFFF_FFFF_FFFF || (cfg.requireLength && cfg.contentLength.None?) <==>
            forall schedule :: RealChunks(schedule) ==> KeepsLimit(cfg, Run(cfg, schedule).writer)
  {
    if Bounded(cfg) {
      forall schedule
        ensures KeepsLimit(cfg, Run(cfg, schedule).writer)
      {
        BoundedCommitsKeepLimit(cfg, schedule);
      }
    } else if KeepsNothing(cfg) {
      forall schedule
        ensures KeepsLimit(cfg, Run(cfg, schedule).writer)
      {
        NothingIsKept(cfg, schedule);
      }
    } else {
      var schedule := OverlongBodyIsCommitted(cfg);
    }
  }

  // ---------- The bounded channel ----------

  lemma {:induction false} QueueKeepsToCapacity(cfg: Config, schedule: seq<Event>)
    ensures |Run(cfg, schedule).link.queue| <= cfg.capacity
  {
    if schedule != [] {
      var before := schedule[..|schedule| - 1];
      QueueKeepsToCapacity(cfg, before);
      hide CheckStep, CommitStep;
    }
  }

  /** A poll never waits: the frame is always forwarded, and while the channel is open it
      is also sent if and only if the writer is there and the channel has room. */
  lemma PollSendsExactlyWhen(cfg: Config, schedule: seq<Event>, chunk: Bytes)
    requires TeeEnabled(Run(cfg, schedule), PollData(chunk))
    ensures
      var s := Run(cfg, schedule);
      var t := Step(cfg, s, TeeEvent(PollData(chunk)));
      var sends := s.link.txOpen && !s.writer.pc.Exited? && |s.link.queue| < cfg.capacity;
      && t.tee.forwarded == s.tee.forwarded + [chunk]
      && t.tee.sent == (if sends then s.tee.sent + [chunk] else s.tee.sent)
      && t.link.queue == (if sends then s.link.queue + [chunk] else s.link.queue)
      && (s.link.txOpen && !sends <==> t.tee.pc.DisableFlag?)
      && |t.link.queue| <= cfg.capacity
  {
    QueueKeepsToCapacity(cfg, schedule);
    hide Run, WriterStep;
  }
}
