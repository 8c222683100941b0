/** The objects of `cache_body`: the channel ends and flag the tee and the writer
    share, the tee as a body that is polled, and the writer task as the loop it is.
    Every method is shown to take steps of the machine in `Pipeline`. */
module CachePipeline {
  import opened Basics
  import P = Pipeline

  /** What `cache_body` creates for one response: the bounded channel, the completion
      channel and the abort flag.  The end of the channel carries the value the flag
      had when the sender was dropped, which whoever receives that end must then see. */
  class Link {
    const capacity: nat
    var queue: seq<Bytes>
    var txOpen: bool
    var rxOpen: bool
    var abortFlag: bool
    var completion: P.Completion
    var published: bool

    constructor (capacity: nat)
      ensures this.capacity == capacity && queue == [] && txOpen && rxOpen && !abortFlag
      ensures completion == P.Waiting && !published
    {
      this.capacity := capacity;
      queue, txOpen, rxOpen, abortFlag := [], true, true, false;
      completion, published := P.Waiting, false;
    }

    ghost function View(): P.Link
      reads this
    {
      P.Link(queue, txOpen, abortFlag, published, completion)
    }
  }

  // ---------- TeeBody ----------

  /** What the upstream body answers to a poll. */
  datatype Polled = Frame(data: Bytes) | Trailers | Error | End | Pending

  class TeeBody {
    const link: Link
    var tx: Link?            // the sender, until it is taken
    var completionTx: Link?  // the completion sender, until it is taken
    var tee: P.Tee           // what has been polled and passed on, for the record

    constructor (link: Link)
      requires link.View() == P.Init().link
      ensures this.link == link && tee == P.Init().tee && Valid()
    {
      this.link := link;
      tx, completionTx := link, link;
      tee := P.Init().tee;
    }

    ghost predicate Valid()
      reads this, link
    {
      && tx == (if link.txOpen then link else null)
      && completionTx == (if link.completion.Waiting? then link else null)
    }

    /** This tee, its link and a writer as a state of the machine. */
    ghost function State(w: P.Writer): P.State
      reads this, link
    {
      P.State(tee, link.View(), w)
    }

    method DropTx()
      requires Valid()
      modifies this`tx, link`txOpen, link`published
      ensures Valid() && link.View() == P.CloseTx(old(link.View()))
    {
      if tx != null {
        link.txOpen, link.published := false, link.abortFlag;
      }
      tx := null;
    }

    method DisableCache()
      requires Valid()
      modifies this`tx, this`completionTx, link
      ensures Valid() && link.rxOpen == old(link.rxOpen)
      ensures link.View() == Disabled(old(link.View()))
    {
      link.abortFlag := true;
      DropTx();
      if completionTx != null {
        link.completion := P.Dropped;
      }
      completionTx := null;
    }

    method Finish(clean: bool)
      requires Valid()
      modifies this`tx, this`completionTx, link
      ensures Valid() && link.rxOpen == old(link.rxOpen)
      ensures link.View() == Finished(old(link.View()), clean)
    {
      if completionTx != null {
        link.completion := P.Sent(clean);
      }
      completionTx := null;
      DropTx();
    }

    /** `poll_frame`: the client is given what the upstream answers, and the cache
        side takes the steps of that answer one after the other.  The upstream
        answers nothing but the end again after its end or an error. */
    method PollFrame(inner: Polled, ghost cfg: P.Config, ghost w: P.Writer) returns (answer: Polled)
      requires Valid() && P.TeeInv(State(w)) && tee.alive && tee.pc.Idle?
      requires tee.inner.Streaming? || inner.Pending? || inner.End?
      requires cfg.capacity == link.capacity && (link.rxOpen <==> !w.pc.Exited?)
      modifies this, link
      ensures Valid() && link.rxOpen == old(link.rxOpen)
      ensures answer == inner
      ensures State(w) == AfterPoll(cfg, old(State(w)), inner)
      ensures tee.pc.Idle?
    {
      answer := inner;
      PollIsSettled(cfg, State(w), inner);
      match inner {
        case Frame(data) =>
          tee := tee.(forwarded := tee.forwarded + [data]);
          if tx != null {
            if !link.rxOpen {
              tee := tee.(refused := true);
              DisableCache();
            } else if |link.queue| < link.capacity {
              link.queue := link.queue + [data];
              tee := tee.(sent := tee.sent + [data]);
            } else {
              tee := tee.(full := true, refused := true);
              DisableCache();
            }
          }
        case Error =>
          link.abortFlag := true;
          tee := tee.(inner := P.Failed);
          Finish(false);
        case End =>
          tee := tee.(inner := if tee.inner.Streaming? then P.Ended else tee.inner);
          Finish(true);
        case _ =>
      }
    }

    /** `drop`. */
    method Drop(ghost cfg: P.Config, ghost w: P.Writer)
      requires Valid() && P.TeeInv(State(w)) && tee.alive && tee.pc.Idle?
      modifies this, link
      ensures Valid() && link.rxOpen == old(link.rxOpen)
      ensures State(w) == Settled(cfg, P.Step(cfg, old(State(w)), P.TeeEvent(P.Drop)))
      ensures tee.pc.Idle?
    {
      DropIsSettled(cfg, State(w));
      tee := tee.(alive := false);
      if completionTx != null {
        Finish(false);
      }
    }
  }

  /** The effects of `disable_cache` and of `finish` on the shared state, in order. */
  function Disabled(l: P.Link): P.Link {
    P.Complete(P.CloseTx(l.(flag := true)), P.Dropped)
  }

  function Finished(l: P.Link, clean: bool): P.Link {
    P.CloseTx(P.Complete(l, P.Sent(clean)))
  }

  const ADVANCE := P.TeeEvent(P.Advance)

  /** The call in progress run to its end: three effects at most. */
  function Settled(cfg: P.Config, s: P.State): P.State {
    P.Step(cfg, P.Step(cfg, P.Step(cfg, s, ADVANCE), ADVANCE), ADVANCE)
  }

  function AfterPoll(cfg: P.Config, s: P.State, inner: Polled): P.State {
    match inner
    case Frame(data) => Settled(cfg, P.Step(cfg, s, P.TeeEvent(P.PollData(data))))
    case Error => Settled(cfg, P.Step(cfg, s, P.TeeEvent(P.PollError)))
    case End => Settled(cfg, P.Step(cfg, s, P.TeeEvent(P.PollEnd)))
    case _ => s
  }

  /** Run without interruption, the steps of the machine come to these effects. */
  lemma DisableIsSettled(cfg: P.Config, s: P.State)
    requires s.tee.pc.DisableFlag?
    ensures Settled(cfg, s) == s.(tee := s.tee.(pc := P.Idle), link := Disabled(s.link))
  {
  }

  lemma FinishIsSettled(cfg: P.Config, s: P.State)
    requires s.tee.pc.FinishCompletion?
    ensures Settled(cfg, s) == s.(tee := s.tee.(pc := P.Idle), link := Finished(s.link, s.tee.pc.clean))
  {
  }

  lemma ErrorIsSettled(cfg: P.Config, s: P.State)
    requires s.tee.pc.ErrorFlag?
    ensures Settled(cfg, s) == s.(tee := s.tee.(pc := P.Idle), link := Finished(s.link.(flag := true), false))
  {
  }

  lemma IdleIsSettled(cfg: P.Config, s: P.State)
    requires s.tee.pc.Idle?
    ensures Settled(cfg, s) == s
  {
  }

  lemma PollIsSettled(cfg: P.Config, s: P.State, inner: Polled)
    requires P.TeeInv(s) && s.tee.alive && s.tee.pc.Idle?
    ensures
      var t, l, exited := s.tee, s.link, s.writer.pc.Exited?;
      AfterPoll(cfg, s, inner) ==
      match inner
      case Frame(data) =>
        if !t.inner.Streaming? then s
        else
          var t := t.(forwarded := t.forwarded + [data]);
          if !l.txOpen then s.(tee := t)
          else if exited then s.(tee := t.(refused := true), link := Disabled(l))
          else if |l.queue| < cfg.capacity then
            s.(tee := t.(sent := t.sent + [data]), link := l.(queue := l.queue + [data]))
          else s.(tee := t.(full := true, refused := true), link := Disabled(l))
      case Error =>
        if !t.inner.Streaming? then s else s.(tee := t.(inner := P.Failed), link := Finished(l.(flag := true), false))
      case End =>
        s.(tee := t.(inner := if t.inner.Streaming? then P.Ended else t.inner), link := Finished(l, true))
      case _ => s
  {
    var s1 := match inner
              case Frame(data) => P.Step(cfg, s, P.TeeEvent(P.PollData(data)))
              case Error => P.Step(cfg, s, P.TeeEvent(P.PollError))
              case End => P.Step(cfg, s, P.TeeEvent(P.PollEnd))
              case _ => s;
    match s1.tee.pc {
      case DisableFlag => DisableIsSettled(cfg, s1);
      case FinishCompletion(_) => FinishIsSettled(cfg, s1);
      case ErrorFlag => ErrorIsSettled(cfg, s1);
      case _ => IdleIsSettled(cfg, s1);
    }
    hide Settled;
  }

  lemma DropIsSettled(cfg: P.Config, s: P.State)
    requires P.TeeInv(s) && s.tee.alive && s.tee.pc.Idle?
    ensures
      Settled(cfg, P.Step(cfg, s, P.TeeEvent(P.Drop))) ==
      s.(tee := s.tee.(alive := false), link := if s.link.completion.Waiting? then Finished(s.link, false) else s.link)
  {
    var s1 := P.Step(cfg, s, P.TeeEvent(P.Drop));
    if s.link.completion.Waiting? {
      FinishIsSettled(cfg, s1);
    } else {
      IdleIsSettled(cfg, s1);
    }
    hide Settled;
  }

  // ---------- The writer task ----------

  /** What the client side does while the writer awaits something. */
  datatype Act = Poll(answer: Polled) | DropBody

  /** One await of the writer: what happens meanwhile, whether the file or store
      operation awaited succeeds, and whether the next load of the flag is current. */
  datatype Tick = Tick(acts: seq<Act>, ok: bool, current: bool)

  /** How the receive loop ends: not at all, because the rest of the world has no more
      to do and the channel is open and empty; at the end of the channel or a `break`;
      or with a failed write. */
  datatype LoopEnd = StillOpen | Left | WriteFailed

  /** The disk and the table do all that is asked of them. */
  predicate AllOk(env: seq<Tick>) {
    forall tick :: tick in env ==> tick.ok
  }

  const BUFFER_CAPACITY := 8192

  /** How much the buffered writer passes on to the file when it is given a chunk. */
  function Spill(buf: Bytes, chunk: Bytes): (n: nat)
    ensures n <= |buf| + |chunk|
    ensures |buf| <= BUFFER_CAPACITY ==> |buf| + |chunk| - n <= BUFFER_CAPACITY
  {
    if |chunk| >= BUFFER_CAPACITY then |buf| + |chunk|
    else if |buf| + |chunk| > BUFFER_CAPACITY then |buf|
    else 0
  }

  class CacheWriter {
    const cfg: P.Config
    const link: Link
    const tee: TeeBody
    var env: seq<Tick>           // what the rest of the world is going to do
    var size: u64
    var temp: Option<Bytes>      // the temporary file
    var buf: Bytes               // the buffered writer in front of it
    var known: bool              // this writer can no longer read the flag as false
    var renamed: Option<Bytes>   // what it moved onto the final path
    ghost var pc: P.WriterPc
    ghost var written: seq<Bytes>
    ghost var ioFailed: bool
    ghost var schedule: seq<P.Event>

    constructor (cfg: P.Config, link: Link, tee: TeeBody, env: seq<Tick>)
      requires link.View() == P.Init().link && link.rxOpen && link.capacity == cfg.capacity
      requires tee.link == link && tee.Valid() && tee.tee == P.Init().tee
      ensures Valid() && pc.Start? && !ioFailed && schedule == []
      ensures this.cfg == cfg && this.link == link && this.tee == tee && this.env == env
    {
      this.cfg, this.link, this.tee, this.env := cfg, link, tee, env;
      size, temp, buf, known, renamed := 0, None, [], false, None;
      pc, written, ioFailed, schedule := P.Start, [], false, [];
    }

    ghost function W(): P.Writer
      reads this
    {
      P.Writer(pc, size, temp, buf, written, known, renamed, ioFailed)
    }

    ghost function State(): P.State
      reads this, tee, tee.link
    {
      tee.State(W())
    }

    ghost predicate Linked()
      reads this, tee, link
    {
      && tee.link == link && cfg.capacity == link.capacity
      && tee.Valid() && tee.tee.pc.Idle?
    }

    /** The objects are in a state that some schedule of the machine reaches. */
    ghost predicate Valid()
      reads this, tee, link
    {
      && Linked()
      && (link.rxOpen <==> !pc.Exited?)
      && State() == P.Run(cfg, schedule)
    }

    /** Between two statements: the client polls the body. */
    method ClientPolls(answer: Polled)
      requires Valid() && tee.tee.alive && P.TeeInv(State())
      requires tee.tee.inner.Streaming? || answer.Pending? || answer.End?
      modifies this`schedule, tee, link
      ensures Valid()
    {
      var _ := tee.PollFrame(answer, cfg, W());
      hide P.Step, P.Run, Settled, P.TeeInv;
      ghost var e := PollEvent(answer);
      if e.Some? {
        RunSettled(cfg, schedule, e.value);
        schedule := schedule + [e.value, ADVANCE, ADVANCE, ADVANCE];
      }
    }

    /** Between two statements: the client side drops the body. */
    method ClientDrops()
      requires Valid() && tee.tee.alive && P.TeeInv(State())
      modifies this`schedule, tee, link
      ensures Valid()
    {
      tee.Drop(cfg, W());
      hide P.Step, P.Run, Settled, P.TeeInv;
      RunSettled(cfg, schedule, P.TeeEvent(P.Drop));
      schedule := schedule + [P.TeeEvent(P.Drop), ADVANCE, ADVANCE, ADVANCE];
    }

    method Client(act: Act)
      requires Valid()
      modifies this`schedule, tee, link
      ensures Valid()
    {
      P.RunKeepsInv(cfg, schedule);
      if tee.tee.alive {
        match act {
          case Poll(answer) =>
            if tee.tee.inner.Streaming? || answer.Pending? || answer.End? {
              ClientPolls(answer);
            }
          case DropBody =>
            ClientDrops();
        }
      }
    }

    method Await() returns (tick: Tick)
      requires Valid()
      modifies this`env, this`schedule, tee, link
      ensures Valid()
      ensures if old(env) == [] then env == [] && link.queue == old(link.queue) else |env| < |old(env)|
      ensures AllOk(old(env)) ==> AllOk(env) && tick.ok
    {
      if env == [] {
        return Tick([], true, true);
      }
      tick := env[0];
      env := env[1..];
      var rest := env;
      for i := 0 to |tick.acts|
        invariant Valid() && env == rest
      {
        Client(tick.acts[i]);
      }
    }

    /** `File::create`. */
    method Create(ok: bool)
      requires Valid() && pc.Start?
      modifies this`temp, this`pc, this`ioFailed, this`schedule, link`rxOpen
      ensures Valid() && pc == if ok then P.Receiving else P.Exited(false)
      ensures ok ==> ioFailed == old(ioFailed)
    {
      Takes(ok, true, 0);
      if ok {
        temp := Some([]);
        pc := P.Receiving;
      } else {
        link.rxOpen := false;
        pc, ioFailed := P.Exited(false), true;
      }
    }

    /** `rx.recv()`, once it is ready. */
    method Recv() returns (chunk: Option<Bytes>)
      requires Valid() && pc.Receiving? && (link.queue != [] || !link.txOpen)
      modifies this`known, this`pc, this`schedule, link`queue
      ensures Valid()
      ensures if chunk.Some? then pc == P.Inspect(chunk.value) && |link.queue| == old(|link.queue|) - 1
              else pc.AbortCheck?
    {
      hide P.Run, P.CheckStep, P.CommitStep;
      Takes(true, true, 0);
      if link.queue != [] {
        chunk := Some(link.queue[0]);
        link.queue := link.queue[1..];
        pc := P.Inspect(chunk.value);
      } else {
        chunk := None;
        known := known || link.published;
        pc := P.AbortCheck;
      }
    }

    /** A load of the flag, the size check, and the running size. */
    method Admit(chunk: Bytes, current: bool) returns (go: bool)
      requires Valid() && pc == P.Inspect(chunk)
      modifies this`known, this`size, this`pc, this`schedule, link`abortFlag
      ensures Valid() && pc == if go then P.Writing(chunk) else P.AbortCheck
    {
      hide P.Run, P.CheckStep, P.CommitStep;
      Takes(true, current, 0);
      if known || (current && link.abortFlag) {
        known := true;
        pc := P.AbortCheck;
        return false;
      }
      if cfg.maxSize > 0 && SaturatingAdd(size, |chunk|) > cfg.maxSize {
        link.abortFlag := true;
        known := true;
        pc := P.AbortCheck;
        return false;
      }
      size := WrappingAdd(size, |chunk|);
      pc := P.Writing(chunk);
      return true;
    }

    /** `write_all` through the buffered writer, which empties its buffer first if the
        chunk does not fit behind it, and does not buffer a chunk of its own size. */
    method WriteAll(chunk: Bytes, ok: bool)
      requires Valid() && pc == P.Writing(chunk)
      modifies this`temp, this`buf, this`pc, this`written, this`ioFailed, this`schedule, link`abortFlag
      ensures Valid() && pc == if ok then P.Receiving else P.Removing
      ensures ok ==> ioFailed == old(ioFailed)
    {
      hide P.Run, P.WriterStep, P.Appended, Spill;
      var spill := Spill(buf, chunk);
      WritingStep(cfg, State(), P.WriterMove(ok, true, spill));
      Takes(ok, true, spill);
      if ok {
        var pending := buf + chunk;
        temp := P.Appended(temp, pending[..spill]);
        buf := pending[spill..];
        written := written + [chunk];
        pc := P.Receiving;
      } else {
        link.abortFlag := true;
        pc, ioFailed := P.Removing, true;
      }
    }

    method CheckAborted(current: bool) returns (aborted: bool)
      requires Valid() && pc.AbortCheck?
      modifies this`pc, this`schedule
      ensures Valid() && pc == if aborted then P.Removing else P.RequireCheck
    {
      Takes(true, current, 0);
      aborted := known || (current && link.abortFlag);
      pc := if aborted then P.Removing else P.RequireCheck;
    }

    method CheckRequired() returns (missing: bool)
      requires Valid() && pc.RequireCheck?
      modifies this`pc, this`schedule
      ensures Valid() && pc == if missing then P.Removing else P.AwaitCompletion
    {
      Takes(true, true, 0);
      missing := cfg.requireLength && cfg.contentLength.None?;
      pc := if missing then P.Removing else P.AwaitCompletion;
    }

    /** `completion_rx.await`: it is always ready by now. */
    method Completed() returns (clean: bool)
      requires Valid() && pc.AwaitCompletion?
      modifies this`pc, this`schedule
      ensures Valid() && pc == P.Decide(clean)
    {
      P.WriterNeverBlocksOnCompletion(cfg, schedule);
      Takes(true, true, 0);
      clean := link.completion == P.Sent(true);
      pc := P.Decide(clean);
    }

    method Accepts(clean: bool) returns (accepts: bool)
      requires Valid() && pc == P.Decide(clean)
      modifies this`pc, this`schedule
      ensures Valid() && pc == if accepts then P.Flushing else P.Removing
    {
      Takes(true, true, 0);
      accepts := true;
      if cfg.contentLength.Some? {
        accepts := size == cfg.contentLength.value;
      } else if !clean {
        accepts := false;
      }
      if cfg.maxSize > 0 && size > cfg.maxSize {
        accepts := false;
      }
      pc := if accepts then P.Flushing else P.Removing;
    }

    method Flush(ok: bool)
      requires Valid() && pc.Flushing?
      modifies this`temp, this`buf, this`pc, this`ioFailed, this`schedule
      ensures Valid() && pc == if ok then P.Renaming else P.Removing
      ensures ok ==> ioFailed == old(ioFailed)
    {
      hide P.Run, P.LoopStep, P.CheckStep;
      Takes(ok, true, 0);
      if ok {
        temp := P.Appended(temp, buf);
        buf := [];
        pc := P.Renaming;
      } else {
        pc, ioFailed := P.Removing, true;
      }
    }

    method Rename(ok: bool)
      requires Valid() && pc.Renaming?
      modifies this`temp, this`renamed, this`pc, this`ioFailed, this`schedule
      ensures Valid() && pc == if ok then P.Storing else P.Removing
      ensures ok ==> ioFailed == old(ioFailed)
    {
      hide P.Run, P.LoopStep, P.CheckStep;
      Takes(ok, true, 0);
      if ok {
        temp, renamed := None, temp;
        pc := P.Storing;
      } else {
        pc, ioFailed := P.Removing, true;
      }
    }

    /** `store`, and after a failed one the removal of the renamed file. */
    method Store(ok: bool)
      requires Valid() && pc.Storing?
      modifies this`pc, this`ioFailed, this`schedule, link`rxOpen
      ensures Valid() && pc == P.Exited(ok)
      ensures ok ==> ioFailed == old(ioFailed)
    {
      hide P.Run, P.WriterStep;
      StoringStep(cfg, State(), P.WriterMove(ok, true, 0));
      Takes(ok, true, 0);
      if ok {
        pc := P.Exited(true);
      } else {
        pc, ioFailed := P.CleaningUp, true;
        assert Linked() && State() == P.Run(cfg, schedule);
        StoringStep(cfg, State(), P.WriterMove(true, true, 0));
        Takes(true, true, 0);
        pc := P.Exited(false);
      }
      link.rxOpen := false;
    }

    method RemoveTemp()
      requires Valid() && pc.Removing?
      modifies this`temp, this`pc, this`schedule, link`rxOpen
      ensures Valid() && pc == P.Exited(false)
    {
      hide P.Run, P.LoopStep, P.CheckStep;
      Takes(true, true, 0);
      temp := None;
      link.rxOpen := false;
      pc := P.Exited(false);
    }

    /** The statement about to run is the next step of the schedule. */
    ghost method Takes(ok: bool, current: bool, spill: nat)
      requires Linked() && State() == P.Run(cfg, schedule) && P.WriterEnabled(State())
      modifies this`schedule
      ensures P.Run(cfg, schedule) == P.WriterStep(cfg, old(State()), P.WriterMove(ok, current, spill))
    {
      P.RunSnoc(cfg, schedule, P.WriterEvent(P.WriterMove(ok, current, spill)));
      schedule := schedule + [P.WriterEvent(P.WriterMove(ok, current, spill))];
    }

    /** The receive loop. */
    method ReceiveAll() returns (left: LoopEnd)
      requires Valid() && pc.Receiving?
      modifies this, tee, link
      ensures Valid()
      ensures match left
              case StillOpen => pc.Receiving? && link.queue == [] && link.txOpen && env == []
              case Left => pc.AbortCheck?
              case WriteFailed => pc.Removing?
      ensures AllOk(old(env)) ==> AllOk(env) && ioFailed == old(ioFailed)
    {
      hide *;
      while true
        invariant Valid() && pc.Receiving?
        invariant AllOk(old(env)) ==> AllOk(env) && ioFailed == old(ioFailed)
        decreases |env|, |link.queue|
      {
        var tick := Await();
        if link.queue == [] && link.txOpen {
          if env == [] {
            return StillOpen;
          }
        } else {
          var chunk := Recv();
          if chunk.None? {
            return Left;
          }
          tick := Await();
          var go := Admit(chunk.value, tick.current);
          if !go {
            return Left;
          }
          tick := Await();
          WriteAll(chunk.value, tick.ok);
          if !tick.ok {
            return WriteFailed;
          }
        }
      }
    }

    /** The whole writer, against every behaviour of client, upstream and disk: it ends,
        unless the world leaves it waiting on an open, empty channel; and what it
        leaves is decided by the stream alone. */
    method Run() returns (ended: bool)
      requires Valid() && pc.Start? && !ioFailed
      modifies this, tee, link
      ensures Valid() && ended == pc.Exited?
      ensures !ended ==> env == [] && link.queue == [] && link.txOpen
      ensures ended ==> temp == None
      ensures ended && AllOk(old(env)) ==> (renamed.Some? <==> P.CommitCondition(cfg, tee.tee))
      ensures renamed.Some? ==> renamed.value == Concat(tee.tee.forwarded) && !tee.tee.refused
    {
      hide *;
      var tick := Await();
      Create(tick.ok);
      if tick.ok {
        var left := ReceiveAll();
        if left.StillOpen? {
          Outcome();
          return false;
        }
        var keep := false;
        if left.Left? {
          keep := Decides();
        }
        if keep {
          tick := Await();
          Flush(tick.ok);
          keep := tick.ok;
        }
        if keep {
          tick := Await();
          Rename(tick.ok);
          keep := tick.ok;
        }
        if keep {
          tick := Await();
          Store(tick.ok);
        } else {
          RemoveTemp();
        }
      }
      Outcome();
      return true;
    }

    /** The checks between the loop and the flush. */
    method Decides() returns (keep: bool)
      requires Valid() && pc.AbortCheck?
      modifies this, tee, link
      ensures Valid() && pc == if keep then P.Flushing else P.Removing
      ensures AllOk(old(env)) ==> AllOk(env) && ioFailed == old(ioFailed)
    {
      hide *;
      var tick := Await();
      var aborted := CheckAborted(tick.current);
      if aborted {
        return false;
      }
      var missing := CheckRequired();
      if missing {
        return false;
      }
      tick := Await();
      var clean := Completed();
      keep := Accepts(clean);
    }

    /** What the machine's theorems say of the state the writer is left in. */
    lemma Outcome()
      requires Valid()
      ensures pc.Exited? ==> temp == None
      ensures pc.Exited? && !ioFailed ==> (renamed.Some? <==> P.CommitCondition(cfg, tee.tee))
      ensures renamed.Some? ==> renamed.value == Concat(tee.tee.forwarded) && !tee.tee.refused
    {
      P.RunKeepsInv(cfg, schedule);
      P.WriterCommitsExactly(cfg, schedule);
    }
  }

  /** The machine's steps of `write_all` and of a failed store, written out. */
  lemma WritingStep(cfg: P.Config, s: P.State, m: P.WriterMove)
    requires s.writer.pc.Writing? && m.spill <= |s.writer.buf + s.writer.pc.chunk|
    ensures
      var w := s.writer;
      var pending := w.buf + w.pc.chunk;
      P.WriterStep(cfg, s, m) ==
      if m.ok then
        s.(writer := w.(pc := P.Receiving, temp := P.Appended(w.temp, pending[..m.spill]), buf := pending[m.spill..],
                        written := w.written + [w.pc.chunk]))
      else s.(link := s.link.(flag := true), writer := w.(pc := P.Removing, ioFailed := true))
  {
  }

  lemma StoringStep(cfg: P.Config, s: P.State, m: P.WriterMove)
    requires s.writer.pc.Storing? || s.writer.pc.CleaningUp?
    ensures
      var w := s.writer;
      P.WriterStep(cfg, s, m) ==
      if w.pc.CleaningUp? then s.(writer := w.(pc := P.Exited(false)))
      else if m.ok then s.(writer := w.(pc := P.Exited(true)))
      else s.(writer := w.(pc := P.CleaningUp, ioFailed := true))
  {
  }

  /** The event of the machine that a poll begins with. */
  function PollEvent(answer: Polled): Option<P.Event> {
    match answer
    case Frame(data) => Some(P.TeeEvent(P.PollData(data)))
    case Error => Some(P.TeeEvent(P.PollError))
    case End => Some(P.TeeEvent(P.PollEnd))
    case _ => None
  }

  lemma RunSettled(cfg: P.Config, schedule: seq<P.Event>, e: P.Event)
    ensures
      P.Run(cfg, schedule + [e, ADVANCE, ADVANCE, ADVANCE]) == Settled(cfg, P.Step(cfg, P.Run(cfg, schedule), e))
  {
    hide P.Step, P.Run;
    P.RunSnoc(cfg, schedule, e);
    P.RunSnoc(cfg, schedule + [e], ADVANCE);
    P.RunSnoc(cfg, schedule + [e] + [ADVANCE], ADVANCE);
    P.RunSnoc(cfg, schedule + [e] + [ADVANCE] + [ADVANCE], ADVANCE);
    assert schedule + [e] + [ADVANCE] + [ADVANCE] + [ADVANCE] == schedule + [e, ADVANCE, ADVANCE, ADVANCE];
  }

  // ---------- Write permits ----------

  class CacheWritePermit {
    const key: string

    constructor (key: string)
      ensures this.key == key
    {
      this.key := key;
    }
  }

  /** The keys being written, behind their mutex, and the permits handed out and not
      yet dropped. */
  class CacheWriteLocks {
    var keys: set<string>
    ghost var live: set<CacheWritePermit>

    /** The key set is the keys of the live permits, and no two of them share one. */
    ghost predicate Valid()
      reads this
    {
      && keys == (set p | p in live :: p.key)
      && (forall p, q :: p in live && q in live && p.key == q.key ==> p == q)
    }

    constructor ()
      ensures Valid() && live == {}
    {
      keys, live := {}, {};
    }

    method TryAcquire(key: string) returns (permit: CacheWritePermit?)
      requires Valid()
      modifies this
      ensures Valid()
      ensures permit == null <==> exists p :: p in old(live) && p.key == key
      ensures permit == null ==> live == old(live) && keys == old(keys)
      ensures permit != null ==>
                fresh(permit) && permit.key == key && live == old(live) + {permit} && keys == old(keys) + {key}
    {
      if key in keys {
        return null;
      }
      keys := keys + {key};
      permit := new CacheWritePermit(key);
      live := live + {permit};
    }

    /** A permit goes out of scope: its key, and no other, is free again. */
    method Drop(permit: CacheWritePermit)
      requires Valid() && permit in live
      modifies this
      ensures Valid() && live == old(live) - {permit} && keys == old(keys) - {permit.key}
      ensures permit.key !in keys
    {
      keys := keys - {permit.key};
      live := live - {permit};
    }
  }
}
