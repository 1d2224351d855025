/**
 src/BodyPipe.cc and src/BodyPipe.h: the protocol between the producer and the consumer of a message body.

 `Pipe` is the state of one pipe with the log of the calls it has scheduled, and one function per
 operation gives the next state. The class `BodyPipe` performs the operations in place and is proved to
 take exactly these steps.
 */
module BodyPipes {
  import opened Basics

  /** A pointer to an asynchronous job; `Sink` is the job that discards data during auto-consumption. */
  datatype Job = Null | Named(id: nat) | Sink(k: nat)

  /**
   What a pipe does to others. Attachments of consumers are numbered from 1; notifications carry the
   number of the attachment they are sent to.
   */
  datatype Event =
    | Attached(k: nat, regular: bool)
    | Data(k: nat)
    | End(k: nat, whole: bool)
    | Space
    | ConsumerAborted

  const MAX_CAPACITY: nat := 64 * 1024

  datatype Pipe = Pipe(
    size: int,               // expected body size, -1 when unknown
    producer: Job,
    consumer: Job,
    put: nat,
    got: nat,
    buf: seq<Byte>,
    auto: bool,
    aborted: bool,
    out: bool,               // the buffer is checked out
    held: seq<Byte>,        // the buffer content when it was checked out
    dead: set<Job>,          // jobs that are gone; pointers to them are set but not valid
    attached: nat,           // number of attachments so far
    log: seq<Event>,
    accepted: seq<Byte>,    // every byte accepted so far
    consumed: seq<Byte>)    // every byte consumed so far
  {
    /** CbcPointer::valid. */
    predicate Live(j: Job) {
      j != Null && j !in dead
    }

    predicate SizeKnown() {
      size >= 0
    }

    /** Still unproduced bytes, an unsigned 64-bit difference. */
    function Unproduced(): int {
      if put <= size then size - put else size - put + 0x1_0000_0000_0000_0000
    }

    predicate MayNeedMore() {
      !SizeKnown() || Unproduced() > 0
    }

    predicate ExpectMoreAfter(offset: nat) {
      offset < put || (Live(producer) && MayNeedMore())
    }

    predicate Exhausted() {
      !ExpectMoreAfter(got)
    }

    function Room(): nat {
      if |buf| + 1 < MAX_CAPACITY then MAX_CAPACITY - (|buf| + 1) else 0
    }
  }

  function Fresh(producer: Job): Pipe {
    Pipe(-1, producer, Null, 0, 0, [], false, false, false, [], {}, 0, [], [], [])
  }

  // ---------- the operations ----------

  function ScheduleData(s: Pipe): Pipe {
    if s.Live(s.consumer) then s.(log := s.log + [Data(s.attached)]) else s
  }

  function ScheduleEnd(s: Pipe): Pipe {
    if s.Live(s.consumer) then s.(log := s.log + [End(s.attached, s.SizeKnown() && s.size == s.put)]) else s
  }

  function ClearProducer(s: Pipe, atEof: bool): Pipe {
    if s.producer == Null then s
    else ScheduleEnd(s.(producer := Null, size := if atEof && !s.SizeKnown() then s.put else s.size))
  }

  function StartAutoConsumption(s: Pipe): Pipe {
    if s.auto && !s.Live(s.consumer) && s.Live(s.producer) && s.buf != [] then
      var k := s.attached + 1;
      ScheduleData(s.(attached := k, consumer := Sink(k), log := s.log + [Attached(k, false)]))
    else s
  }

  /** The buffer has grown by `more`, whichever way it came in. */
  function PostAppend(s: Pipe, more: seq<Byte>): Pipe {
    var s1 := ScheduleData(s.(put := s.put + |more|, accepted := s.accepted + more));
    StartAutoConsumption(if s1.MayNeedMore() then s1 else ClearProducer(s1, true))
  }

  function PutSize(s: Pipe, n: nat): nat {
    Min(if s.SizeKnown() && s.Unproduced() < n then (if s.Unproduced() < 0 then 0 else s.Unproduced()) else n, s.Room())
  }

  function PutMore(s: Pipe, bytes: seq<Byte>): Pipe {
    var n := PutSize(s, |bytes|);
    if n > 0 then PostAppend(s.(buf := s.buf + bytes[..n]), bytes[..n]) else s
  }

  /** The buffer has lost `less` at its front. */
  function PostConsume(s: Pipe, less: seq<Byte>): Pipe {
    var s1 := s.(got := s.got + |less|, consumed := s.consumed + less);
    if s1.MayNeedMore() then s1.(log := s1.log + [Space]) else s1
  }

  function Consume(s: Pipe, n: nat): Pipe
    requires n <= |s.buf|
  {
    PostConsume(s.(buf := s.buf[n..]), s.buf[..n])
  }

  /** A regular consumer attaches unless something was consumed already or consumption was given up. */
  function SetConsumer(s: Pipe, c: Job): Pipe {
    if s.got > 0 || s.aborted then s
    else
      var k := s.attached + 1;
      var s1 := s.(attached := k, consumer := c, log := s.log + [Attached(k, true)]);
      var s2 := if s1.buf != [] then ScheduleData(s1) else s1;
      if s2.Live(s2.producer) then s2 else ScheduleEnd(s2)
  }

  /** Give up consumption, once; an exception leaves everything as it was while a consumer is attached. */
  function ExpectNoConsumption(s: Pipe): Pipe {
    if s.aborted || s.Exhausted() || s.Live(s.consumer) then s
    else StartAutoConsumption(s.(log := s.log + [ConsumerAborted], aborted := true))
  }

  function ClearConsumer(s: Pipe): Pipe {
    if s.consumer == Null then s
    else
      var s1 := s.(consumer := Null);
      if s1.got > 0 then ExpectNoConsumption(s1) else s1
  }

  function ExpectEndAfter(s: Pipe, n: nat): Pipe {
    if s.SizeKnown() then s else s.(size := s.put + n)
  }

  /** The raw buffer comes back: what it lost was consumed, what it gained was appended. */
  function CheckIn(s: Pipe): Pipe {
    var s1 := s.(out := false, held := []);
    if |s.held| > |s.buf| then PostConsume(s1, s.held[..|s.held| - |s.buf|])
    else if |s.held| < |s.buf| then PostAppend(s1, s.buf[|s.held|..])
    else s1
  }

  // ---------- runs ----------

  datatype Action =
    | DoSetBodySize(n: nat)
    | DoExpectEndAfter(n: nat)
    | DoClearProducer(atEof: bool)
    | DoPut(bytes: seq<Byte>)
    | DoSetConsumer(c: Job)
    | DoClearConsumer
    | DoExpectNoConsumption
    | DoGet(space: nat)
    | DoConsume(n: nat)
    | DoEnableAuto
    | DoCheckOut
    | DoRawAppend(bytes: seq<Byte>)
    | DoRawConsume(n: nat)
    | DoCheckIn
    | DoDie(j: Job)

  /** The assertions of the code: a run that breaks one stops there. */
  predicate Enabled(s: Pipe, a: Action) {
    match a
    case DoSetBodySize(n) => !s.SizeKnown() && s.put <= n && !s.Live(s.consumer)
    case DoClearProducer(atEof) => s.producer == Null || atEof || !s.SizeKnown() || s.size != s.put
    case DoPut(bytes) => PutSize(s, |bytes|) == 0 || !s.out
    case DoSetConsumer(c) => !s.Live(s.consumer) && c.Named? && (s.got > 0 ==> s.auto)
    case DoGet(space) => s.buf == [] || !s.out
    case DoConsume(n) => n <= |s.buf| && !s.out
    case DoCheckOut => !s.out
    case DoRawAppend(_) => s.out
    case DoRawConsume(n) => s.out && n <= |s.buf|
    case DoCheckIn => s.out
    case DoDie(j) => j != Null && (j.Sink? ==> j.k <= s.attached)
    case _ => true
  }

  /**
   What the interface asks of the callers: producer calls come from the live producer, and a checked
   out buffer is only appended to, within a known body size, or only consumed from.
   */
  predicate Orderly(s: Pipe, a: Action) {
    match a
    case DoSetBodySize(_) => s.Live(s.producer)
    case DoExpectEndAfter(_) => s.Live(s.producer)
    case DoPut(_) => s.Live(s.producer)
    case DoClearProducer(_) => s.producer == Null || s.Live(s.producer)
    case DoRawAppend(_) => s.held <= s.buf
    case DoRawConsume(_) => |s.buf| <= |s.held| && s.buf == s.held[|s.held| - |s.buf|..]
    case DoCheckIn =>
      |s.held| < |s.buf| ==>
        s.Live(s.producer) && (s.SizeKnown() ==> s.put + |s.buf| - |s.held| <= s.size)
    case _ => true
  }

  function Step(s: Pipe, a: Action): Pipe
    requires Enabled(s, a)
  {
    match a
    case DoSetBodySize(n) => s.(size := n)
    case DoExpectEndAfter(n) => ExpectEndAfter(s, n)
    case DoClearProducer(atEof) => ClearProducer(s, atEof)
    case DoPut(bytes) => PutMore(s, bytes)
    case DoSetConsumer(c) => SetConsumer(s, c)
    case DoClearConsumer => ClearConsumer(s)
    case DoExpectNoConsumption => ExpectNoConsumption(s)
    case DoGet(space) => if s.buf == [] then s else Consume(s, Min(|s.buf|, space))
    case DoConsume(n) => Consume(s, n)
    case DoEnableAuto => StartAutoConsumption(s.(auto := true))
    case DoCheckOut => s.(out := true, held := s.buf)
    case DoRawAppend(bytes) => s.(buf := s.buf + bytes)
    case DoRawConsume(n) => s.(buf := s.buf[n..])
    case DoCheckIn => CheckIn(s)
    case DoDie(j) => s.(dead := s.dead + {j})
  }

  /** Every action of the run is enabled and orderly where it happens. */
  predicate Allowed(s: Pipe, run: seq<Action>)
    decreases |run|
  {
    run == [] || (Enabled(s, run[0]) && Orderly(s, run[0]) && Allowed(Step(s, run[0]), run[1..]))
  }

  /** The state after a run, which stops at the first assertion it breaks. */
  function Run(s: Pipe, run: seq<Action>): Pipe
    decreases |run|
  {
    if run == [] || !Enabled(s, run[0]) then s else Run(Step(s, run[0]), run[1..])
  }

  // ---------- what every run keeps ----------

  /** After the end notification of an attachment, it is sent neither data nor a second end. */
  ghost predicate Quiet(log: seq<Event>) {
    forall i, j :: 0 <= i < j < |log| && log[i].End? ==>
                     log[j] != Data(log[i].k) && !(log[j].End? && log[j].k == log[i].k)
  }

  /** The producer hears at most once that consumption was given up, and no regular consumer attaches after that. */
  ghost predicate GivenUpOnce(log: seq<Event>) {
    forall i, j :: 0 <= i < j < |log| && log[i].ConsumerAborted? ==>
                     !log[j].ConsumerAborted? && !(log[j].Attached? && log[j].regular)
  }

  /** Notifications go to attachments made so far. */
  ghost predicate Numbered(log: seq<Event>, n: nat) {
    forall e :: e in log && (e.Attached? || e.Data? || e.End?) ==> 1 <= e.k <= n
  }

  ghost predicate HasEnd(log: seq<Event>, k: nat) {
    exists e :: e in log && e.End? && e.k == k
  }

  ghost predicate LogOK(s: Pipe) {
    && Quiet(s.log) && GivenUpOnce(s.log) && Numbered(s.log, s.attached)
    && (ConsumerAborted in s.log ==> s.aborted)
    && (forall e :: e in s.log && e.End? ==> !s.Live(s.producer) && (e.whole <==> s.SizeKnown() && s.put == s.size))
    && (s.consumer != Null ==> s.attached >= 1)
    && (forall j :: j in s.dead && j.Sink? ==> j.k <= s.attached)
  }

  /** A live consumer of a pipe whose producer has left has been told so. */
  ghost predicate Told(s: Pipe) {
    s.producer == Null && s.Live(s.consumer) ==> HasEnd(s.log, s.attached)
  }

  ghost predicate Notices(s: Pipe) {
    LogOK(s) && Told(s)
  }

  /** No byte is lost, duplicated or reordered, and no more is accepted than a known size allows. */
  ghost predicate Conserved(s: Pipe) {
    && s.got == |s.consumed| && s.put == |s.accepted| && (s.SizeKnown() ==> s.put <= s.size)
    && s.accepted == s.consumed + (if s.out then s.held else s.buf)
    && (s.out ==> s.held <= s.buf || (|s.buf| <= |s.held| && s.buf == s.held[|s.held| - |s.buf|..]))
  }

  ghost predicate Inv(s: Pipe) {
    Notices(s) && Conserved(s)
  }

  // ---------- one event more ----------

  lemma QuietMore(log: seq<Event>, e: Event)
    requires Quiet(log) && (e.Data? || e.End? ==> !HasEnd(log, e.k))
    ensures Quiet(log + [e])
  {
    forall i, j | 0 <= i < j < |log + [e]| && (log + [e])[i].End?
      ensures (log + [e])[j] != Data((log + [e])[i].k) && !((log + [e])[j].End? && (log + [e])[j].k == (log + [e])[i].k)
    {
      assert log[i] in log;
    }
  }

  lemma GivenUpMore(log: seq<Event>, e: Event)
    requires GivenUpOnce(log) && (e.ConsumerAborted? || (e.Attached? && e.regular) ==> ConsumerAborted !in log)
    ensures GivenUpOnce(log + [e])
  {
    forall i, j | 0 <= i < j < |log + [e]| && (log + [e])[i].ConsumerAborted?
      ensures !(log + [e])[j].ConsumerAborted? && !((log + [e])[j].Attached? && (log + [e])[j].regular)
    {
      assert log[i] in log;
    }
  }

  lemma NumberedMore(log: seq<Event>, e: Event, n: nat, n': nat)
    requires Numbered(log, n) && n <= n' && (e.Attached? || e.Data? || e.End? ==> 1 <= e.k <= n')
    ensures Numbered(log + [e], n')
  {
  }

  lemma HasEndMore(log: seq<Event>, e: Event, k: nat)
    ensures HasEnd(log + [e], k) <==> HasEnd(log, k) || (e.End? && e.k == k)
  {
    if HasEnd(log, k) {
      var d :| d in log && d.End? && d.k == k;
      assert d in log + [e];
    }
    if e.End? && e.k == k { assert e in log + [e]; }
  }

  /** No notification is addressed to an attachment that was not made yet. */
  lemma NoEndYet(log: seq<Event>, n: nat, k: nat)
    requires Numbered(log, n) && n < k
    ensures !HasEnd(log, k)
  {
  }

  // ---------- the notices ----------

  /** When an event may be added. */
  ghost predicate Fitting(s: Pipe, e: Event) {
    match e
    case Attached(k, regular) => 1 <= k <= s.attached && (regular ==> !s.aborted)
    case Data(k) => k == s.attached && 1 <= k && !HasEnd(s.log, k)
    case End(k, whole) =>
      && k == s.attached && 1 <= k && !HasEnd(s.log, k)
      && !s.Live(s.producer) && (whole <==> s.SizeKnown() && s.put == s.size)
    case Space => true
    case ConsumerAborted => s.aborted && ConsumerAborted !in s.log
  }

  lemma {:induction false} LogMore(s: Pipe, e: Event)
    requires LogOK(s) && Fitting(s, e)
    ensures LogOK(s.(log := s.log + [e]))
    ensures HasEnd(s.log + [e], s.attached) <==> HasEnd(s.log, s.attached) || (e.End? && e.k == s.attached)
  {
    hide Quiet, GivenUpOnce, Numbered, HasEnd;
    QuietMore(s.log, e);
    GivenUpMore(s.log, e);
    NumberedMore(s.log, e, s.attached, s.attached);
    HasEndMore(s.log, e, s.attached);
  }

  /** The notices depend on these parts of the state only. */
  lemma NoticesFrame(s: Pipe, s': Pipe)
    requires Notices(s) && s'.log == s.log && s'.attached == s.attached && s'.aborted == s.aborted
    requires s'.producer == s.producer && s'.consumer == s.consumer && s'.dead == s.dead
    requires s.Live(s.producer) || (s'.size == s.size && s'.put == s.put)
    ensures Notices(s')
  {
  }

  /** As long as the producer lives, no attachment has been sent an end. */
  lemma NoEndWhileLive(s: Pipe, k: nat)
    requires LogOK(s) && s.Live(s.producer)
    ensures !HasEnd(s.log, k)
  {
  }

  lemma {:induction false} DataKeeps(s: Pipe)
    requires Notices(s) && s.Live(s.producer)
    ensures Notices(ScheduleData(s))
  {
    hide LogOK, HasEnd;
    LogMeans(s);
    NoEndWhileLive(s, s.attached);
    if s.Live(s.consumer) { LogMore(s, Data(s.attached)); }
  }

  lemma LogMeans(s: Pipe)
    requires LogOK(s)
    ensures s.consumer != Null ==> s.attached >= 1
    ensures ConsumerAborted in s.log ==> s.aborted
  {
  }

  lemma NoProducer(s: Pipe, size: int)
    requires Notices(s) && s.Live(s.producer)
    ensures LogOK(s.(producer := Null, size := size))
  {
  }

  /** Clearing a live producer sends the current attachment its end. */
  lemma {:induction false} ClearProducerKeeps(s: Pipe, atEof: bool)
    requires Notices(s) && (s.producer == Null || s.Live(s.producer))
    ensures Notices(ClearProducer(s, atEof))
  {
    hide LogOK, HasEnd;
    if s.producer != Null {
      var s1 := s.(producer := Null, size := if atEof && !s.SizeKnown() then s.put else s.size);
      NoProducer(s, s1.size);
      LogMeans(s);
      NoEndWhileLive(s, s.attached);
      if s.Live(s.consumer) { LogMore(s1, End(s1.attached, s1.SizeKnown() && s1.size == s1.put)); }
    }
  }

  lemma {:induction false} NextAttachment(s: Pipe, c: Job)
    requires Notices(s) && c != Null
    ensures LogOK(s.(attached := s.attached + 1, consumer := c)) && !HasEnd(s.log, s.attached + 1)
  {
    NoEndYet(s.log, s.attached, s.attached + 1);
  }

  lemma {:induction false} StartAutoKeeps(s: Pipe)
    requires Notices(s)
    ensures Notices(StartAutoConsumption(s))
  {
    hide LogOK, HasEnd;
    if s.auto && !s.Live(s.consumer) && s.Live(s.producer) && s.buf != [] {
      var s1 := s.(attached := s.attached + 1, consumer := Sink(s.attached + 1));
      NextAttachment(s, Sink(s.attached + 1));
      var e := Attached(s1.attached, false);
      LogMore(s1, e);
      DataKeeps(s1.(log := s1.log + [e]));
    }
  }

  lemma {:induction false} PostAppendKeeps(s: Pipe, more: seq<Byte>)
    requires Notices(s) && s.Live(s.producer)
    ensures Notices(PostAppend(s, more))
  {
    hide Notices;
    var s0 := s.(put := s.put + |more|, accepted := s.accepted + more);
    NoticesFrame(s, s0);
    DataKeeps(s0);
    var s1 := ScheduleData(s0);
    if !s1.MayNeedMore() { ClearProducerKeeps(s1, true); }
    StartAutoKeeps(if s1.MayNeedMore() then s1 else ClearProducer(s1, true));
  }

  lemma {:induction false} PostConsumeKeeps(s: Pipe, less: seq<Byte>)
    requires Notices(s)
    ensures Notices(PostConsume(s, less))
  {
    hide LogOK, HasEnd;
    var s1 := s.(got := s.got + |less|, consumed := s.consumed + less);
    NoticesFrame(s, s1);
    if s1.MayNeedMore() { LogMore(s1, Space); }
  }

  lemma {:induction false} SetConsumerKeeps(s: Pipe, c: Job)
    requires Notices(s) && c.Named?
    ensures Notices(SetConsumer(s, c))
  {
    hide LogOK, HasEnd;
    if s.got == 0 && !s.aborted {
      var k := s.attached + 1;
      var s0 := s.(attached := k, consumer := c);
      NextAttachment(s, c);
      LogMore(s0, Attached(k, true));
      var s1 := s0.(log := s0.log + [Attached(k, true)]);
      var s2 := if s1.buf != [] then ScheduleData(s1) else s1;
      if s1.buf != [] && s1.Live(c) { LogMore(s1, Data(k)); }
      if !s2.Live(s2.producer) && s2.Live(c) { LogMore(s2, End(k, s2.SizeKnown() && s2.size == s2.put)); }
    }
  }

  /** What a live consumer hears when it attaches: of data in the buffer, then that no more will come. */
  function Welcome(s: Pipe): seq<Event> {
    var k := s.attached + 1;
    [Attached(k, true)] + (if s.buf != [] then [Data(k)] else [])
    + (if s.Live(s.producer) then [] else [End(k, s.SizeKnown() && s.size == s.put)])
  }

  /** A consumer that attaches after the producer left gets the data notice, then its end. */
  lemma {:induction false} SetConsumerHears(s: Pipe, c: Job)
    requires s.got == 0 && !s.aborted && s.Live(c)
    ensures SetConsumer(s, c).log == s.log + Welcome(s) && SetConsumer(s, c).consumer == c
  {
    var k := s.attached + 1;
    var d := if s.buf != [] then [Data(k)] else [];
    var e := if s.Live(s.producer) then [] else [End(k, s.SizeKnown() && s.size == s.put)];
    assert s.log + Welcome(s) == s.log + [Attached(k, true)] + d + e;
  }

  lemma GivenUp(s: Pipe)
    requires Notices(s)
    ensures Notices(s.(aborted := true))
  {
  }

  lemma {:induction false} GiveUpKeeps(s: Pipe)
    requires Notices(s)
    ensures Notices(ExpectNoConsumption(s))
  {
    hide LogOK, HasEnd;
    if !(s.aborted || s.Exhausted() || s.Live(s.consumer)) {
      LogMeans(s);
      GivenUp(s);
      var s0 := s.(aborted := true);
      LogMore(s0, ConsumerAborted);
      StartAutoKeeps(s0.(log := s0.log + [ConsumerAborted]));
    }
  }

  lemma {:induction false} ClearConsumerKeeps(s: Pipe)
    requires Notices(s)
    ensures Notices(ClearConsumer(s))
  {
    if s.consumer != Null {
      assert Notices(s.(consumer := Null));
      GiveUpKeeps(s.(consumer := Null));
    }
  }

  lemma {:induction false} CheckInKeeps(s: Pipe)
    requires Notices(s) && (|s.held| < |s.buf| ==> s.Live(s.producer))
    ensures Notices(CheckIn(s))
  {
    hide Notices, PostConsume, PostAppend;
    var s1 := s.(out := false, held := []);
    NoticesFrame(s, s1);
    if |s.held| > |s.buf| { PostConsumeKeeps(s1, s.held[..|s.held| - |s.buf|]); }
    if |s.held| < |s.buf| { PostAppendKeeps(s1, s.buf[|s.held|..]); }
  }

  lemma {:induction false} PutKeeps(s: Pipe, bytes: seq<Byte>)
    requires Notices(s) && s.Live(s.producer)
    ensures Notices(PutMore(s, bytes))
  {
    hide Notices, PostAppend;
    var n := PutSize(s, |bytes|);
    if n > 0 {
      NoticesFrame(s, s.(buf := s.buf + bytes[..n]));
      PostAppendKeeps(s.(buf := s.buf + bytes[..n]), bytes[..n]);
    }
  }

  lemma {:induction false} ConsumeKeeps(s: Pipe, n: nat)
    requires Notices(s) && n <= |s.buf|
    ensures Notices(Consume(s, n))
  {
    hide Notices, PostConsume;
    NoticesFrame(s, s.(buf := s.buf[n..]));
    PostConsumeKeeps(s.(buf := s.buf[n..]), s.buf[..n]);
  }

  lemma DieKeeps(s: Pipe, j: Job)
    requires Notices(s) && Enabled(s, DoDie(j))
    ensures Notices(s.(dead := s.dead + {j}))
  {
  }

  lemma {:induction false} NoticesStep(s: Pipe, a: Action)
    requires Notices(s) && Enabled(s, a) && Orderly(s, a)
    ensures Notices(Step(s, a))
  {
    hide Notices, ClearProducer, PutMore, SetConsumer, ClearConsumer, ExpectNoConsumption, Consume, StartAutoConsumption, CheckIn;
    match a
    case DoSetBodySize(n) => NoticesFrame(s, s.(size := n));
    case DoExpectEndAfter(n) => NoticesFrame(s, ExpectEndAfter(s, n));
    case DoClearProducer(atEof) => ClearProducerKeeps(s, atEof);
    case DoPut(bytes) => PutKeeps(s, bytes);
    case DoSetConsumer(c) => SetConsumerKeeps(s, c);
    case DoClearConsumer => ClearConsumerKeeps(s);
    case DoExpectNoConsumption => GiveUpKeeps(s);
    case DoGet(space) => if s.buf != [] { ConsumeKeeps(s, Min(|s.buf|, space)); }
    case DoConsume(n) => ConsumeKeeps(s, n);
    case DoEnableAuto =>
      NoticesFrame(s, s.(auto := true));
      StartAutoKeeps(s.(auto := true));
    case DoCheckOut => NoticesFrame(s, s.(out := true, held := s.buf));
    case DoRawAppend(bytes) => NoticesFrame(s, s.(buf := s.buf + bytes));
    case DoRawConsume(n) => NoticesFrame(s, s.(buf := s.buf[n..]));
    case DoCheckIn => CheckInKeeps(s);
    case DoDie(j) => DieKeeps(s, j);
  }

  // ---------- the bytes ----------

  /** The parts of the state that the byte accounts read. */
  ghost predicate SameBytes(s: Pipe, s': Pipe) {
    && s'.got == s.got && s'.put == s.put && s'.buf == s.buf && s'.out == s.out && s'.held == s.held
    && s'.accepted == s.accepted && s'.consumed == s.consumed
    && (s'.size == s.size || (!s.SizeKnown() && s'.size >= s.put))
  }

  lemma BytesFrame(s: Pipe, s': Pipe)
    requires Conserved(s) && SameBytes(s, s')
    ensures Conserved(s')
  {
  }

  /** Notifications and attachments move no byte. */
  lemma DataMovesNone(s: Pipe)
    ensures SameBytes(s, ScheduleData(s)) && SameBytes(s, ScheduleEnd(s))
  {
  }

  lemma ClearProducerMovesNone(s: Pipe, atEof: bool)
    ensures SameBytes(s, ClearProducer(s, atEof))
  {
    hide ScheduleEnd;
    if s.producer != Null {
      DataMovesNone(s.(producer := Null, size := if atEof && !s.SizeKnown() then s.put else s.size));
    }
  }

  lemma StartAutoMovesNone(s: Pipe)
    ensures SameBytes(s, StartAutoConsumption(s))
  {
    hide ScheduleData;
    var k := s.attached + 1;
    DataMovesNone(s.(attached := k, consumer := Sink(k), log := s.log + [Attached(k, false)]));
  }

  lemma {:induction false} SetConsumerMovesNone(s: Pipe, c: Job)
    ensures SameBytes(s, SetConsumer(s, c))
  {
    hide ScheduleData, ScheduleEnd;
    var k := s.attached + 1;
    var s1 := s.(attached := k, consumer := c, log := s.log + [Attached(k, true)]);
    DataMovesNone(s1);
    DataMovesNone(if s1.buf != [] then ScheduleData(s1) else s1);
  }

  lemma {:induction false} GiveUpMovesNone(s: Pipe)
    ensures SameBytes(s, ExpectNoConsumption(s))
  {
    hide StartAutoConsumption;
    StartAutoMovesNone(s.(log := s.log + [ConsumerAborted], aborted := true));
  }

  lemma {:induction false} ClearConsumerMovesNone(s: Pipe)
    ensures SameBytes(s, ClearConsumer(s))
  {
    hide ExpectNoConsumption;
    GiveUpMovesNone(s.(consumer := Null));
  }

  lemma SameBytesChain(s: Pipe, s1: Pipe, s2: Pipe)
    requires SameBytes(s, s1) && SameBytes(s1, s2)
    ensures SameBytes(s, s2)
  {
  }

  lemma {:induction false} PostAppendBytes(s: Pipe, more: seq<Byte>)
    ensures SameBytes(s.(put := s.put + |more|, accepted := s.accepted + more), PostAppend(s, more))
  {
    hide SameBytes, StartAutoConsumption, ClearProducer, ScheduleData;
    var s0 := s.(put := s.put + |more|, accepted := s.accepted + more);
    var s1 := ScheduleData(s0);
    var s2 := if s1.MayNeedMore() then s1 else ClearProducer(s1, true);
    DataMovesNone(s0);
    ClearProducerMovesNone(s1, true);
    StartAutoMovesNone(s2);
    if !s1.MayNeedMore() { SameBytesChain(s0, s1, s2); }
    SameBytesChain(s0, s2, StartAutoConsumption(s2));
  }

  lemma {:induction false} PutBytes(s: Pipe, bytes: seq<Byte>)
    requires Conserved(s) && (PutSize(s, |bytes|) == 0 || !s.out)
    ensures Conserved(PutMore(s, bytes))
  {
    hide SameBytes, PostAppend;
    var n := PutSize(s, |bytes|);
    if n > 0 {
      var s1 := s.(buf := s.buf + bytes[..n]);
      PostAppendBytes(s1, bytes[..n]);
      BytesFrame(s1.(put := s1.put + n, accepted := s1.accepted + bytes[..n]), PutMore(s, bytes));
    }
  }

  lemma PostConsumeBytes(s: Pipe, less: seq<Byte>)
    ensures SameBytes(s.(got := s.got + |less|, consumed := s.consumed + less), PostConsume(s, less))
  {
  }

  lemma {:induction false} ConsumeBytes(s: Pipe, n: nat)
    requires Conserved(s) && n <= |s.buf| && !s.out
    ensures Conserved(Consume(s, n))
  {
    hide SameBytes, PostConsume;
    var less := s.buf[..n];
    var s1 := s.(buf := s.buf[n..]);
    assert s.buf == less + s1.buf;
    PostConsumeBytes(s1, less);
    BytesFrame(s1.(got := s1.got + |less|, consumed := s1.consumed + less), Consume(s, n));
  }

  lemma {:induction false} CheckInLess(s: Pipe)
    requires Conserved(s) && s.out && |s.held| > |s.buf|
    ensures Conserved(CheckIn(s))
  {
    hide SameBytes, PostConsume, PostAppend;
    var n := |s.held| - |s.buf|;
    var (s1, less) := (s.(out := false, held := []), s.held[..n]);
    assert s.held == less + s.buf;
    PostConsumeBytes(s1, less);
    BytesFrame(s1.(got := s1.got + |less|, consumed := s1.consumed + less), CheckIn(s));
  }

  lemma HeldFirst(s: Pipe)
    requires Conserved(s) && s.out && |s.held| < |s.buf|
    ensures s.buf == s.held + s.buf[|s.held|..]
  {
  }

  lemma {:induction false} GrownBytes(s: Pipe, more: seq<Byte>)
    requires Conserved(s) && s.out && s.buf == s.held + more && (s.SizeKnown() ==> s.put + |more| <= s.size)
    ensures Conserved(s.(out := false, held := [], put := s.put + |more|, accepted := s.accepted + more))
  {
    assert s.accepted + more == s.consumed + (s.held + more);
  }

  lemma {:induction false} CheckInMore(s: Pipe)
    requires Conserved(s) && s.out && |s.held| < |s.buf| && Orderly(s, DoCheckIn)
    ensures Conserved(CheckIn(s))
  {
    hide SameBytes, PostConsume, PostAppend, Conserved;
    var (s1, more) := (s.(out := false, held := []), s.buf[|s.held|..]);
    HeldFirst(s);
    GrownBytes(s, more);
    PostAppendBytes(s1, more);
    BytesFrame(s1.(put := s1.put + |more|, accepted := s1.accepted + more), CheckIn(s));
  }

  lemma CheckInSame(s: Pipe)
    requires Conserved(s) && s.out && |s.held| == |s.buf|
    ensures Conserved(CheckIn(s))
  {
    hide PostConsume, PostAppend;
    assert s.buf == s.held;
  }

  lemma {:induction false} CheckInBytes(s: Pipe)
    requires Conserved(s) && s.out && Orderly(s, DoCheckIn)
    ensures Conserved(CheckIn(s))
  {
    hide Conserved, CheckIn;
    if |s.held| > |s.buf| {
      CheckInLess(s);
    } else if |s.held| < |s.buf| {
      CheckInMore(s);
    } else {
      CheckInSame(s);
    }
  }

  lemma RawConsumeBytes(s: Pipe, n: nat)
    requires Conserved(s) && s.out && n <= |s.buf| && |s.buf| <= |s.held| && s.buf == s.held[|s.held| - |s.buf|..]
    ensures Conserved(s.(buf := s.buf[n..]))
  {
  }

  lemma {:induction false} ConservedStep(s: Pipe, a: Action)
    requires Conserved(s) && Enabled(s, a) && Orderly(s, a)
    ensures Conserved(Step(s, a))
  {
    hide ClearProducer, PutMore, SetConsumer, ClearConsumer, ExpectNoConsumption, Consume, StartAutoConsumption, CheckIn;
    hide SameBytes;
    match a
    case DoClearProducer(atEof) =>
      ClearProducerMovesNone(s, atEof);
      BytesFrame(s, Step(s, a));
    case DoPut(bytes) => PutBytes(s, bytes);
    case DoSetConsumer(c) =>
      SetConsumerMovesNone(s, c);
      BytesFrame(s, Step(s, a));
    case DoClearConsumer =>
      ClearConsumerMovesNone(s);
      BytesFrame(s, Step(s, a));
    case DoExpectNoConsumption =>
      GiveUpMovesNone(s);
      BytesFrame(s, Step(s, a));
    case DoGet(space) => if s.buf != [] { ConsumeBytes(s, Min(|s.buf|, space)); }
    case DoConsume(n) => ConsumeBytes(s, n);
    case DoEnableAuto =>
      StartAutoMovesNone(s.(auto := true));
      BytesFrame(s.(auto := true), Step(s, a));
    case DoRawConsume(n) => RawConsumeBytes(s, n);
    case DoCheckIn => CheckInBytes(s);
    case _ =>
  }

  // ---------- the end of the body ----------

  lemma ExhaustedIs(s: Pipe)
    requires Conserved(s)
    ensures s.Exhausted() <==> s.got == s.put && (s.Live(s.producer) ==> s.SizeKnown() && s.put == s.size)
  {
  }

  /** What decides exhaustion: bytes moved none, and no producer comes to life. */
  lemma ExhaustedFrame(s: Pipe, s': Pipe)
    requires s.Exhausted() && SameBytes(s, s') && (s'.Live(s'.producer) ==> s.Live(s.producer))
    ensures s'.Exhausted()
  {
  }

  /** Attachments and notices leave the producer and the dead alone. */
  ghost predicate SameProducer(s: Pipe, s': Pipe) {
    s'.producer == s.producer && s'.dead == s.dead
  }

  lemma AutoProducer(s: Pipe)
    ensures SameProducer(s, StartAutoConsumption(s))
  {
  }

  lemma SetConsumerProducer(s: Pipe, c: Job)
    ensures SameProducer(s, SetConsumer(s, c))
  {
  }

  lemma {:induction false} GiveUpProducer(s: Pipe)
    ensures SameProducer(s, ExpectNoConsumption(s))
  {
    hide StartAutoConsumption;
    AutoProducer(s.(log := s.log + [ConsumerAborted], aborted := true));
  }

  lemma {:induction false} ClearConsumerProducer(s: Pipe)
    ensures SameProducer(s, ClearConsumer(s))
  {
    hide ExpectNoConsumption;
    GiveUpProducer(s.(consumer := Null));
  }

  lemma NoProducerLeft(s: Pipe, atEof: bool)
    ensures ClearProducer(s, atEof).producer == Null
  {
  }

  lemma {:induction false} NothingToPut(s: Pipe, bytes: seq<Byte>)
    requires Conserved(s) && s.Exhausted() && s.Live(s.producer)
    ensures PutMore(s, bytes) == s
  {
    ExhaustedIs(s);
  }

  lemma {:induction false} NothingToConsume(s: Pipe, n: nat)
    requires Conserved(s) && s.Exhausted() && n <= |s.buf| && !s.out
    ensures n == 0 && Consume(s, n).Exhausted()
  {
    ExhaustedIs(s);
  }

  lemma {:induction false} NothingCheckedIn(s: Pipe)
    requires Conserved(s) && s.Exhausted() && s.out && Orderly(s, DoCheckIn)
    ensures CheckIn(s) == s.(out := false, held := [])
  {
    ExhaustedIs(s);
  }

  /** Once exhausted, a pipe stays exhausted. */
  lemma {:induction false} ExhaustedStep(s: Pipe, a: Action)
    requires Conserved(s) && Enabled(s, a) && Orderly(s, a) && s.Exhausted()
    ensures Step(s, a).Exhausted()
  {
    hide ClearProducer, PutMore, SetConsumer, ClearConsumer, ExpectNoConsumption, Consume, StartAutoConsumption, CheckIn;
    hide SameBytes, Conserved;
    var s' := Step(s, a);
    match a
    case DoClearProducer(atEof) =>
      ClearProducerMovesNone(s, atEof);
      NoProducerLeft(s, atEof);
      ExhaustedFrame(s, s');
    case DoPut(bytes) => NothingToPut(s, bytes);
    case DoSetConsumer(c) =>
      SetConsumerMovesNone(s, c);
      SetConsumerProducer(s, c);
      ExhaustedFrame(s, s');
    case DoClearConsumer =>
      ClearConsumerMovesNone(s);
      ClearConsumerProducer(s);
      ExhaustedFrame(s, s');
    case DoExpectNoConsumption =>
      GiveUpMovesNone(s);
      GiveUpProducer(s);
      ExhaustedFrame(s, s');
    case DoGet(space) => if s.buf != [] { NothingToConsume(s, Min(|s.buf|, space)); }
    case DoConsume(n) => NothingToConsume(s, n);
    case DoEnableAuto =>
      StartAutoMovesNone(s.(auto := true));
      AutoProducer(s.(auto := true));
      ExhaustedFrame(s.(auto := true), s');
    case DoCheckIn => NothingCheckedIn(s);
    case _ =>
  }

  // ---------- the whole invariant ----------

  lemma {:induction false} InvStep(s: Pipe, a: Action)
    requires Inv(s) && Enabled(s, a) && Orderly(s, a)
    ensures Inv(Step(s, a))
  {
    hide Notices, Conserved, Step;
    NoticesStep(s, a);
    ConservedStep(s, a);
  }

  function Appended(s: Pipe, more: seq<Byte>): Pipe {
    s.(put := s.put + |more|, accepted := s.accepted + more)
  }

  function Consumed(s: Pipe, less: seq<Byte>): Pipe {
    s.(got := s.got + |less|, consumed := s.consumed + less)
  }

  lemma {:induction false} AutoInv(s: Pipe)
    requires Inv(s)
    ensures Inv(StartAutoConsumption(s))
  {
    hide Notices, Conserved, StartAutoConsumption, SameBytes;
    StartAutoKeeps(s);
    StartAutoMovesNone(s);
    BytesFrame(s, StartAutoConsumption(s));
  }

  lemma {:induction false} DataInv(s: Pipe)
    requires Inv(s) && s.Live(s.producer)
    ensures Inv(ScheduleData(s))
  {
    hide Notices, Conserved, ScheduleData, SameBytes;
    DataKeeps(s);
    DataMovesNone(s);
    BytesFrame(s, ScheduleData(s));
  }

  lemma {:induction false} DetachInv(s: Pipe)
    requires Inv(s)
    ensures Inv(s.(consumer := Null))
  {
    hide Conserved, SameBytes;
    BytesFrame(s, s.(consumer := Null)) by { assert SameBytes(s, s.(consumer := Null)) by { Detached(s); } }
  }

  lemma Detached(s: Pipe)
    ensures SameBytes(s, s.(consumer := Null))
  {
  }

  lemma {:induction false} PutInv(s: Pipe, bytes: seq<Byte>)
    requires Inv(s) && s.Live(s.producer) && !s.out && |bytes| <= PutSize(s, |bytes|)
    ensures Inv(Appended(s.(buf := s.buf + bytes), bytes))
  {
    hide Notices;
    NoticesFrame(s, Appended(s.(buf := s.buf + bytes), bytes));
    assert s.accepted + bytes == s.consumed + (s.buf + bytes);
  }

  lemma {:induction false} GetInv(s: Pipe, n: nat)
    requires Inv(s) && !s.out && n <= |s.buf|
    ensures Inv(Consumed(s.(buf := s.buf[n..]), s.buf[..n]))
  {
    hide Notices;
    var (less, rest) := (s.buf[..n], s.buf[n..]);
    NoticesFrame(s, Consumed(s.(buf := rest), less));
    assert s.buf == less + rest;
    assert s.consumed + less + rest == s.consumed + (less + rest);
  }

  lemma {:induction false} ReturnedLess(s: Pipe)
    requires Inv(s) && s.out && |s.held| > |s.buf|
    ensures Inv(Consumed(s.(out := false, held := []), s.held[..|s.held| - |s.buf|]))
  {
    hide Notices;
    var less := s.held[..|s.held| - |s.buf|];
    NoticesFrame(s, Consumed(s.(out := false, held := []), less));
    assert s.held == less + s.buf;
    assert s.consumed + less + s.buf == s.consumed + (less + s.buf);
  }

  lemma {:induction false} ReturnedMore(s: Pipe)
    requires Inv(s) && s.out && |s.held| < |s.buf| && Orderly(s, DoCheckIn)
    ensures Inv(Appended(s.(out := false, held := []), s.buf[|s.held|..]))
  {
    hide Notices, Conserved;
    var more := s.buf[|s.held|..];
    NoticesFrame(s, Appended(s.(out := false, held := []), more));
    HeldFirst(s);
    GrownBytes(s, more);
  }

  lemma {:induction false} SpaceInv(s: Pipe, less: seq<Byte>)
    requires Inv(Consumed(s, less))
    ensures Inv(PostConsume(s, less))
  {
    hide Conserved, LogOK, HasEnd, SameBytes;
    var s1 := Consumed(s, less);
    if s1.MayNeedMore() { LogMore(s1, Space); }
    PostConsumeBytes(s, less);
    BytesFrame(s1, PostConsume(s, less));
  }

  /** Consumption is given up while the pipe is not exhausted. */
  lemma {:induction false} GivenUpInv(s: Pipe)
    requires Inv(s) && !s.aborted
    ensures Inv(s.(log := s.log + [ConsumerAborted], aborted := true))
  {
    hide LogOK, HasEnd;
    LogMeans(s);
    GivenUp(s);
    LogMore(s.(aborted := true), ConsumerAborted);
  }

  lemma GaveUp(s: Pipe)
    ensures var s1 := s.(log := s.log + [ConsumerAborted], aborted := true); StartAutoConsumption(s1).aborted
  {
  }

  lemma {:induction false} EnabledInv(s: Pipe)
    requires Inv(s)
    ensures Inv(s.(auto := true))
  {
    NoticesFrame(s, s.(auto := true));
  }

  lemma {:induction false} CheckInCloses(s: Pipe)
    ensures !CheckIn(s).out && (Inv(CheckIn(s)) ==> CheckIn(s).accepted == CheckIn(s).consumed + CheckIn(s).buf)
  {
    hide PostAppend, Notices;
    if |s.held| < |s.buf| { PostAppendBytes(s.(out := false, held := []), s.buf[|s.held|..]); }
  }

  /** What a put or a check-in does to the bytes accepted and consumed. */
  lemma {:induction false} PutAccepts(s: Pipe, bytes: seq<Byte>)
    ensures var s' := PutMore(s, bytes);
            s'.accepted == s.accepted + bytes[..PutSize(s, |bytes|)] && s'.consumed == s.consumed && s'.out == s.out
  {
    hide PostAppend;
    var n := PutSize(s, |bytes|);
    if n > 0 { PostAppendBytes(s.(buf := s.buf + bytes[..n]), bytes[..n]); }
  }

  // ---------- whole runs ----------

  /** Every state of every orderly run keeps the notices and the bytes. */
  lemma {:induction false} RunKeeps(s: Pipe, run: seq<Action>)
    requires Inv(s) && Allowed(s, run)
    ensures Inv(Run(s, run))
    ensures s.Exhausted() ==> Run(s, run).Exhausted()
    decreases |run|
  {
    hide Notices, Conserved, Step;
    if run != [] {
      InvStep(s, run[0]);
      if s.Exhausted() { ExhaustedStep(s, run[0]); }
      RunKeeps(Step(s, run[0]), run[1..]);
    }
  }

  lemma FreshKeeps(producer: Job)
    ensures Inv(Fresh(producer))
  {
  }

  ghost function CountEnds(log: seq<Event>, k: nat): nat {
    if log == [] then 0 else CountEnds(log[..|log| - 1], k) + (if log[|log| - 1].End? && log[|log| - 1].k == k then 1 else 0)
  }

  ghost function CountGivenUp(log: seq<Event>): nat {
    if log == [] then 0 else CountGivenUp(log[..|log| - 1]) + (if log[|log| - 1].ConsumerAborted? then 1 else 0)
  }

  lemma {:induction false} QuietCounts(log: seq<Event>, k: nat)
    requires Quiet(log)
    ensures CountEnds(log, k) == if HasEnd(log, k) then 1 else 0
  {
    if log != [] {
      var (front, e) := (log[..|log| - 1], log[|log| - 1]);
      assert log == front + [e];
      QuietCounts(front, k);
      HasEndMore(front, e, k);
      if HasEnd(front, k) {
        var d :| d in front && d.End? && d.k == k;
        var i :| 0 <= i < |front| && front[i] == d;
        assert log[i] == d;
      }
    }
  }

  lemma {:induction false} GivenUpCounts(log: seq<Event>)
    requires GivenUpOnce(log)
    ensures CountGivenUp(log) == if ConsumerAborted in log then 1 else 0
  {
    if log != [] {
      var (front, e) := (log[..|log| - 1], log[|log| - 1]);
      assert log == front + [e];
      GivenUpCounts(front);
      if ConsumerAborted in front {
        var i :| 0 <= i < |front| && front[i] == ConsumerAborted;
        assert log[i] == ConsumerAborted;
      }
    }
  }

  /**
   The promises about notifications, for any run of a new pipe: one end at most per attachment, exactly
   one for a live consumer once the producer has left, "production ended" exactly when the size is known
   and fully put, and consumption given up at most once.
   */
  lemma {:induction false} RunNotices(producer: Job, run: seq<Action>, k: nat)
    requires Allowed(Fresh(producer), run)
    ensures var s := Run(Fresh(producer), run);
            && CountEnds(s.log, k) <= 1 && CountGivenUp(s.log) <= 1 && Quiet(s.log) && GivenUpOnce(s.log)
            && (s.producer == Null && s.Live(s.consumer) ==> CountEnds(s.log, s.attached) == 1)
            && (forall e :: e in s.log && e.End? ==> (e.whole <==> s.SizeKnown() && s.put == s.size))
  {
    var s := Run(Fresh(producer), run);
    FreshKeeps(producer);
    RunKeeps(Fresh(producer), run);
    QuietCounts(s.log, k);
    QuietCounts(s.log, s.attached);
    GivenUpCounts(s.log);
  }

  /** The promises about bytes, for any run of a new pipe. */
  lemma {:induction false} RunBytes(producer: Job, run: seq<Action>)
    requires Allowed(Fresh(producer), run)
    ensures var s := Run(Fresh(producer), run);
            && s.got <= s.put && (s.SizeKnown() ==> s.put <= s.size)
            && s.got == |s.consumed| && s.put == |s.accepted|
            && (!s.out ==> s.consumed + s.buf == s.accepted)
  {
    FreshKeeps(producer);
    RunKeeps(Fresh(producer), run);
  }

  // ---------- who is told what ----------

  /** No sink is dead before it is made. */
  ghost predicate SinksKnown(s: Pipe) {
    forall j :: j in s.dead && j.Sink? ==> j.k <= s.attached
  }

  lemma InvSinks(s: Pipe)
    requires Notices(s)
    ensures SinksKnown(s)
  {
  }

  /** Auto-consumption starts exactly under its four conditions: a sink attaches and is told of the data. */
  lemma {:induction false} AutoStarts(s: Pipe)
    requires SinksKnown(s)
    ensures var (s', k) := (StartAutoConsumption(s), s.attached + 1);
            && (s'.auto && s'.Live(s'.producer) && s'.buf != [] ==> s'.Live(s'.consumer))
            && (if s.auto && !s.Live(s.consumer) && s.Live(s.producer) && s.buf != []
                then s' == s.(attached := k, consumer := Sink(k), log := s.log + [Attached(k, false), Data(k)])
                else s' == s)
  {
    var k := s.attached + 1;
    assert s.Live(Sink(k));
    assert s.log + [Attached(k, false)] + [Data(k)] == s.log + [Attached(k, false), Data(k)];
  }

  /** The calls an accepted put schedules: for the consumer there is, or for a sink that takes its place. */
  function PutCalls(s: Pipe, n: nat): seq<Event> {
    var (k, last) := (s.attached, s.size >= 0 && s.put + n == s.size);
    if s.Live(s.consumer) then [Data(k)] + (if last then [End(k, true)] else [])
    else if s.auto && !last then [Attached(k + 1, false), Data(k + 1)]
    else []
  }

  lemma {:induction false} AppendHears(s: Pipe, more: seq<Byte>)
    requires SinksKnown(s) && s.Live(s.producer) && s.buf != [] && (s.SizeKnown() ==> s.put + |more| <= s.size)
    ensures PostAppend(s, more).log == s.log + PutCalls(s, |more|)
  {
    hide StartAutoConsumption, ScheduleData, ClearProducer, SinksKnown;
    var s0 := s.(put := s.put + |more|, accepted := s.accepted + more);
    var s1 := ScheduleData(s0);
    var s2 := if s1.MayNeedMore() then s1 else ClearProducer(s1, true);
    DataIs(s0);
    if !s1.MayNeedMore() { EofIs(s1); }
    SameSinks(s, s2);
    AutoStarts(s2);
    JoinCalls(s.log, s.attached);
  }

  lemma DataIs(s: Pipe)
    ensures ScheduleData(s) == if s.Live(s.consumer) then s.(log := s.log + [Data(s.attached)]) else s
  {
  }

  lemma EofIs(s: Pipe)
    requires s.producer != Null && s.SizeKnown()
    ensures ClearProducer(s, true) ==
            var log := if s.Live(s.consumer) then s.log + [End(s.attached, s.size == s.put)] else s.log;
            s.(producer := Null, log := log)
  {
  }

  lemma SameSinks(s: Pipe, s': Pipe)
    requires SinksKnown(s) && s'.dead == s.dead && s'.attached == s.attached
    ensures SinksKnown(s')
  {
  }

  lemma JoinCalls(log: seq<Event>, k: nat)
    ensures log + [Data(k)] + [End(k, true)] == log + ([Data(k)] + [End(k, true)])
    ensures [Data(k)] + [] == [Data(k)] && log + [] == log
  {
  }

  /** How much a put accepts: all, or as much as a known size or the capacity of the buffer leaves. */
  lemma {:induction false} PutTakes(s: Pipe, bytes: seq<Byte>)
    requires Inv(s) && s.Live(s.producer) && (PutSize(s, |bytes|) > 0 ==> !s.out)
    ensures var (s', n) := (PutMore(s, bytes), PutSize(s, |bytes|));
            && n <= |bytes| && s'.buf == s.buf + bytes[..n] && s'.put == s.put + n
            && (n > 0 ==> |s'.buf| + 1 <= 65536)
            && (n < |bytes| ==> (s'.size >= 0 && s'.put == s'.size) || 65536 <= |s'.buf| + 1)
            && s'.log == s.log + (if n > 0 then PutCalls(s, n) else [])
  {
    hide PostAppend, Notices;
    var n := PutSize(s, |bytes|);
    InvSinks(s);
    assert s.log + [] == s.log;
    if n > 0 {
      var s1 := s.(buf := s.buf + bytes[..n]);
      PostAppendBytes(s1, bytes[..n]);
      AppendHears(s1, bytes[..n]);
    }
  }

  lemma {:induction false} PutDrains(s: Pipe, bytes: seq<Byte>)
    requires Inv(s) && (PutSize(s, |bytes|) > 0 ==> !s.out)
    ensures var s' := PutMore(s, bytes);
            PutSize(s, |bytes|) > 0 && s'.auto && s'.Live(s'.producer) && s'.buf != [] ==> s'.Live(s'.consumer)
  {
    hide PostAppend, Notices;
    InvSinks(s);
    var n := PutSize(s, |bytes|);
    if n > 0 {
      AppendDrains(s.(buf := s.buf + bytes[..n]), bytes[..n]);
      PostAppendBytes(s.(buf := s.buf + bytes[..n]), bytes[..n]);
    }
  }

  lemma AppendBound(s: Pipe, more: seq<Byte>)
    requires Inv(Appended(s, more))
    ensures SinksKnown(s) && (s.SizeKnown() ==> s.put + |more| <= s.size)
  {
  }

  lemma SamePutCalls(s: Pipe, n: nat)
    ensures PutCalls(s.(out := false, held := []), n) == PutCalls(s, n)
  {
  }

  lemma {:induction false} CheckInBuffer(s: Pipe)
    ensures CheckIn(s).buf == s.buf
  {
    hide PostAppend;
    if |s.held| < |s.buf| { PostAppendBytes(s.(out := false, held := []), s.buf[|s.held|..]); }
  }

  lemma Accounts(s: Pipe, less: seq<Byte>)
    requires Inv(Consumed(s, less))
    ensures s.size < 0 || s.put <= s.size
  {
  }

  /** The producer is offered space exactly while more may be needed. */
  lemma {:induction false} ConsumeOffers(s: Pipe, n: nat)
    requires Conserved(s) && n <= |s.buf|
    ensures Consume(s, n).log == s.log + (if s.size < 0 || s.put < s.size then [Space] else [])
  {
    assert s.log + [] == s.log;
  }

  /** Giving up: the producer is told, once, and a sink takes over if one is wanted. */
  lemma {:induction false} GiveUpTells(s: Pipe)
    requires Inv(s)
    ensures var (s', k) := (ExpectNoConsumption(s), s.attached + 1);
            if s.aborted || s.Exhausted() || s.Live(s.consumer) then s' == s
            else
              && s'.aborted
              && s'.log == s.log + [ConsumerAborted]
                           + (if s.auto && s.Live(s.producer) && s.buf != [] then [Attached(k, false), Data(k)] else [])
  {
    hide StartAutoConsumption, Notices;
    InvSinks(s);
    var s1 := s.(log := s.log + [ConsumerAborted], aborted := true);
    AutoStarts(s1);
    assert s1.log + [] == s1.log;
  }

  /** Data waits to be consumed by the pipe itself; bytes appended to a buffer that is still checked out do not. */
  ghost predicate Waits(s: Pipe) {
    s.auto && s.Live(s.producer) && s.buf != [] && (s.out ==> |s.buf| <= |s.held|)
  }

  /** Such a pipe has a live consumer. */
  ghost predicate Drains(s: Pipe) {
    Waits(s) ==> s.Live(s.consumer)
  }

  /** The consumer dies, leaves before it has consumed or after consumption was given up, or was dead when it came. */
  ghost predicate Abandons(s: Pipe, a: Action) {
    match a
    case DoDie(j) => j == s.consumer
    case DoClearConsumer => s.consumer != Null && (s.got == 0 || s.aborted)
    case DoSetConsumer(c) => !s.Live(c)
    case _ => false
  }

  lemma {:induction false} AppendDrains(s: Pipe, more: seq<Byte>)
    requires SinksKnown(s)
    ensures Drains(PostAppend(s, more))
  {
    hide StartAutoConsumption;
    var s1 := ScheduleData(s.(put := s.put + |more|, accepted := s.accepted + more));
    var s2 := if s1.MayNeedMore() then s1 else ClearProducer(s1, true);
    assert SinksKnown(s2);
    AutoStarts(s2);
  }

  lemma {:induction false} LeaveDrains(s: Pipe)
    requires Inv(s) && Drains(s) && !Abandons(s, DoClearConsumer)
    ensures Drains(ClearConsumer(s))
  {
    hide StartAutoConsumption, Notices;
    if s.consumer != Null {
      var s1 := s.(consumer := Null);
      ExhaustedIs(s1);
      InvSinks(s);
      AutoStarts(s1.(log := s1.log + [ConsumerAborted], aborted := true));
    }
  }

  lemma {:induction false} GiveUpDrains(s: Pipe)
    requires Inv(s) && Drains(s)
    ensures Drains(ExpectNoConsumption(s))
  {
    hide StartAutoConsumption, Notices;
    InvSinks(s);
    AutoStarts(s.(log := s.log + [ConsumerAborted], aborted := true));
  }

  lemma {:induction false} CheckInDrains(s: Pipe)
    requires Inv(s) && Drains(s) && s.out
    ensures Drains(CheckIn(s))
  {
    hide PostAppend, Notices;
    InvSinks(s);
    if |s.held| < |s.buf| { AppendDrains(s.(out := false, held := []), s.buf[|s.held|..]); }
  }

  /** Every other action keeps it so; enabling auto-consumption and accepting bytes make it so. */
  lemma {:induction false} DrainsStep(s: Pipe, a: Action)
    requires Inv(s) && Enabled(s, a) && Orderly(s, a) && !Abandons(s, a)
    requires Drains(s) || a.DoEnableAuto? || (a.DoPut? && PutSize(s, |a.bytes|) > 0)
    ensures Drains(Step(s, a))
  {
    hide PostAppend, ExpectNoConsumption, ClearConsumer, StartAutoConsumption, CheckIn, Notices, ClearProducer, Conserved;
    InvSinks(s);
    match a
    case DoClearProducer(atEof) => NoProducerLeft(s, atEof);
    case DoPut(bytes) =>
      var n := PutSize(s, |bytes|);
      if n > 0 { AppendDrains(s.(buf := s.buf + bytes[..n]), bytes[..n]); }
    case DoClearConsumer => LeaveDrains(s);
    case DoExpectNoConsumption => GiveUpDrains(s);
    case DoEnableAuto => AutoStarts(s.(auto := true));
    case DoCheckIn => CheckInDrains(s);
    case _ =>
  }

  /** While data waits the consumer dies, or leaves before it has consumed or after consumption was given up. */
  ghost predicate Strands(s: Pipe, a: Action) {
    Waits(s) &&
    match a
    case DoDie(j) => j == s.consumer && j != s.producer
    case DoClearConsumer => s.got == 0 || s.aborted
    case _ => false
  }

  lemma {:induction false} AbandonDrains(s: Pipe, a: Action)
    requires Inv(s) && Enabled(s, a) && Drains(s) && Abandons(s, a)
    ensures Drains(Step(s, a)) <==> !Strands(s, a)
  {
    hide StartAutoConsumption, Inv;
    match a
    case DoDie(j) =>
    case DoClearConsumer =>
    case DoSetConsumer(c) =>
  }

  /** An orderly action leaves waiting data without a live consumer exactly in these cases. */
  lemma {:induction false} DrainsIff(s: Pipe, a: Action)
    requires Inv(s) && Enabled(s, a) && Orderly(s, a) && Drains(s)
    ensures Drains(Step(s, a)) <==> !Strands(s, a)
  {
    hide Step, Inv;
    if Abandons(s, a) {
      AbandonDrains(s, a);
    } else {
      DrainsStep(s, a);
    }
  }

  /** No action of the run does that. */
  ghost predicate Loyal(s: Pipe, run: seq<Action>)
    decreases |run|
  {
    run == [] || !Enabled(s, run[0]) || (!Strands(s, run[0]) && Loyal(Step(s, run[0]), run[1..]))
  }

  lemma {:induction false} DrainsRun(s: Pipe, run: seq<Action>)
    requires Inv(s) && Drains(s) && Allowed(s, run)
    ensures Loyal(s, run) <==> forall n :: 0 <= n <= |run| ==> Drains(Run(s, run[..n]))
    decreases |run|
  {
    hide Inv, Step, Drains, Strands;
    assert run[..0] == [];
    if run != [] {
      var s1 := Step(s, run[0]);
      InvStep(s, run[0]);
      DrainsIff(s, run[0]);
      forall n | 1 <= n <= |run| ensures Run(s, run[..n]) == Run(s1, run[1..][..n - 1]) {
        assert run[..n][1..] == run[1..][..n - 1];
      }
      assert Run(s, run[..1]) == s1 by { assert run[1..][..0] == []; }
      if Drains(s1) {
        DrainsRun(s1, run[1..]);
        forall n | 0 <= n <= |run| - 1 ensures Run(s1, run[1..][..n]) == Run(s, run[..n + 1]) {}
      }
    }
  }

  /**
   In an orderly run of a new pipe, one told to consume by itself sits on data of a live producer without a live
   consumer at some point exactly when the consumer is lost in one of these ways while data waits.
   */
  lemma {:induction false} RunDrains(producer: Job, run: seq<Action>)
    requires Allowed(Fresh(producer), run)
    ensures Loyal(Fresh(producer), run) <==>
            forall n :: 0 <= n <= |run| ==>
              var s := Run(Fresh(producer), run[..n]);
              Waits(s) ==> s.Live(s.consumer)
  {
    hide Run, Allowed, Loyal;
    FreshKeeps(producer);
    DrainsRun(Fresh(producer), run);
    assert forall n :: 0 <= n <= |run| ==> (Drains(Run(Fresh(producer), run[..n])) <==>
      var s := Run(Fresh(producer), run[..n]); Waits(s) ==> s.Live(s.consumer));
  }

  /** A consumer that leaves before it has consumed strands the data, until more is put. */
  lemma Stranded()
    ensures var s1 := Step(Step(Fresh(Named(0)), DoEnableAuto), DoSetConsumer(Named(1)));
            Enabled(s1, DoPut([1])) &&
            var s2 := Step(Step(s1, DoPut([1])), DoClearConsumer);
            s2.auto && s2.Live(s2.producer) && s2.buf == [1] && s2.consumer == Null
  {
  }

  // ---------- which attachments hear of the end ----------

  /** The attachment that is there when the producer leaves. */
  ghost function AtLeave(s: Pipe, s': Pipe): set<nat> {
    if s.producer != Null && s'.producer == Null && s.Live(s.consumer) then {s.attached} else {}
  }

  /** An attachment made when the producer has left or is gone. */
  ghost function TooLate(s: Pipe, s': Pipe): set<nat> {
    if s.attached < s'.attached && s'.Live(s'.consumer) && !s'.Live(s'.producer) then {s'.attached} else {}
  }

  /** All that happens in a run, of one of the two kinds. */
  ghost function Leaving(s: Pipe, run: seq<Action>): set<nat>
    decreases |run|
  {
    if run == [] || !Enabled(s, run[0]) then {}
    else AtLeave(s, Step(s, run[0])) + Leaving(Step(s, run[0]), run[1..])
  }

  ghost function Late(s: Pipe, run: seq<Action>): set<nat>
    decreases |run|
  {
    if run == [] || !Enabled(s, run[0]) then {}
    else TooLate(s, Step(s, run[0])) + Late(Step(s, run[0]), run[1..])
  }

  /** The ends sent on the way from one state to the next. */
  ghost predicate EndsBy(s: Pipe, s': Pipe, k: nat) {
    HasEnd(s'.log, k) <==> HasEnd(s.log, k) || k in AtLeave(s, s') + TooLate(s, s')
  }

  /** Nothing that decides about ends has changed, but for a new consumer of a live producer. */
  ghost predicate NoEnd(s: Pipe, s': Pipe, k: nat) {
    && (HasEnd(s'.log, k) <==> HasEnd(s.log, k)) && SameProducer(s, s')
    && (s'.attached == s.attached || s.Live(s.producer))
  }

  lemma NoEndMeans(s: Pipe, s': Pipe, k: nat)
    requires NoEnd(s, s', k)
    ensures EndsBy(s, s', k)
  {
    hide HasEnd;
  }

  lemma NoEndChain(s: Pipe, s1: Pipe, s2: Pipe, k: nat)
    requires NoEnd(s, s1, k) && NoEnd(s1, s2, k)
    ensures NoEnd(s, s2, k)
  {
    hide HasEnd;
  }

  lemma NoEndFrame(s: Pipe, s': Pipe, k: nat)
    requires s'.log == s.log && SameProducer(s, s') && s'.attached == s.attached
    ensures NoEnd(s, s', k)
  {
    hide HasEnd;
  }

  lemma NoEndEvent(s: Pipe, e: Event, k: nat)
    requires !e.End?
    ensures NoEnd(s, s.(log := s.log + [e]), k)
  {
    hide HasEnd;
    HasEndMore(s.log, e, k);
  }

  lemma DataNoEnd(s: Pipe, k: nat)
    ensures NoEnd(s, ScheduleData(s), k) && ScheduleData(s).consumer == s.consumer && ScheduleData(s).attached == s.attached
  {
    hide NoEnd;
    NoEndEvent(s, Data(s.attached), k);
    NoEndFrame(s, s, k);
  }

  lemma {:induction false} AutoNoEnd(s: Pipe, k: nat)
    ensures NoEnd(s, StartAutoConsumption(s), k)
  {
    hide HasEnd, ScheduleData;
    if s.auto && !s.Live(s.consumer) && s.Live(s.producer) && s.buf != [] {
      var n := s.attached + 1;
      HasEndMore(s.log, Attached(n, false), k);
      DataNoEnd(s.(attached := n, consumer := Sink(n), log := s.log + [Attached(n, false)]), k);
    }
  }

  lemma {:induction false} EndSent(s: Pipe, k: nat)
    ensures HasEnd(ScheduleEnd(s).log, k) <==> HasEnd(s.log, k) || (s.Live(s.consumer) && k == s.attached)
    ensures SameProducer(s, ScheduleEnd(s)) && ScheduleEnd(s).attached == s.attached && ScheduleEnd(s).consumer == s.consumer
  {
    hide HasEnd;
    HasEndMore(s.log, End(s.attached, s.SizeKnown() && s.size == s.put), k);
  }

  lemma {:induction false} ClearProducerEnds(s: Pipe, atEof: bool, k: nat)
    ensures EndsBy(s, ClearProducer(s, atEof), k) && ClearProducer(s, atEof).producer == Null
  {
    hide HasEnd, ScheduleEnd;
    if s.producer != Null {
      EndSent(s.(producer := Null, size := if atEof && !s.SizeKnown() then s.put else s.size), k);
    }
  }

  lemma {:induction false} SetConsumerEnds(s: Pipe, c: Job, k: nat)
    ensures EndsBy(s, SetConsumer(s, c), k)
  {
    hide HasEnd, ScheduleData, ScheduleEnd;
    var n := s.attached + 1;
    var s1 := s.(attached := n, consumer := c, log := s.log + [Attached(n, true)]);
    HasEndMore(s.log, Attached(n, true), k);
    DataNoEnd(s1, k);
    EndSent(if s1.buf != [] then ScheduleData(s1) else s1, k);
  }

  lemma {:induction false} PostAppendEnds(s: Pipe, more: seq<Byte>, k: nat)
    ensures EndsBy(s, PostAppend(s, more), k)
  {
    hide HasEnd, NoEnd, EndsBy, ScheduleData, ClearProducer, StartAutoConsumption;
    var s0 := s.(put := s.put + |more|, accepted := s.accepted + more);
    var s1 := ScheduleData(s0);
    NoEndFrame(s, s0, k);
    DataNoEnd(s0, k);
    NoEndChain(s, s0, s1, k);
    if s1.MayNeedMore() {
      AutoNoEnd(s1, k);
      NoEndChain(s, s1, StartAutoConsumption(s1), k);
      NoEndMeans(s, PostAppend(s, more), k);
    } else {
      ClearProducerEnds(s1, true, k);
      NoStart(ClearProducer(s1, true));
      EndsAfter(s, s1, ClearProducer(s1, true), k);
    }
  }

  lemma NoStart(s: Pipe)
    requires s.producer == Null
    ensures StartAutoConsumption(s) == s
  {
  }

  lemma EndsAfter(s: Pipe, s1: Pipe, s2: Pipe, k: nat)
    requires NoEnd(s, s1, k) && EndsBy(s1, s2, k) && s1.consumer == s.consumer && s1.attached == s.attached
    ensures EndsBy(s, s2, k)
  {
    hide HasEnd;
  }

  lemma {:induction false} PostConsumeEnds(s: Pipe, less: seq<Byte>, k: nat)
    ensures NoEnd(s, PostConsume(s, less), k)
  {
    hide NoEnd;
    var s1 := s.(got := s.got + |less|, consumed := s.consumed + less);
    NoEndFrame(s, s1, k);
    NoEndFrame(s1, s1, k);
    NoEndEvent(s1, Space, k);
    NoEndChain(s, s1, PostConsume(s, less), k);
  }

  lemma {:induction false} GiveUpEnds(s: Pipe, k: nat)
    ensures NoEnd(s, ExpectNoConsumption(s), k)
  {
    hide NoEnd, StartAutoConsumption;
    var s1 := s.(log := s.log + [ConsumerAborted], aborted := true);
    NoEndFrame(s, s, k);
    NoEndFrame(s, s.(aborted := true), k);
    NoEndEvent(s.(aborted := true), ConsumerAborted, k);
    NoEndChain(s, s.(aborted := true), s1, k);
    AutoNoEnd(s1, k);
    NoEndChain(s, s1, StartAutoConsumption(s1), k);
  }

  lemma {:induction false} ClearConsumerEnds(s: Pipe, k: nat)
    ensures NoEnd(s, ClearConsumer(s), k)
  {
    hide NoEnd, ExpectNoConsumption;
    var s1 := s.(consumer := Null);
    NoEndFrame(s, s, k);
    NoEndFrame(s, s1, k);
    GiveUpEnds(s1, k);
    NoEndChain(s, s1, ExpectNoConsumption(s1), k);
  }

  lemma {:induction false} ConsumeEnds(s: Pipe, n: nat, k: nat)
    requires n <= |s.buf|
    ensures EndsBy(s, Consume(s, n), k)
  {
    hide NoEnd, EndsBy, PostConsume;
    NoEndFrame(s, s.(buf := s.buf[n..]), k);
    PostConsumeEnds(s.(buf := s.buf[n..]), s.buf[..n], k);
    NoEndChain(s, s.(buf := s.buf[n..]), Consume(s, n), k);
    NoEndMeans(s, Consume(s, n), k);
  }

  lemma {:induction false} PutEnds(s: Pipe, bytes: seq<Byte>, k: nat)
    ensures EndsBy(s, PutMore(s, bytes), k)
  {
    hide NoEnd, EndsBy, PostAppend;
    var n := PutSize(s, |bytes|);
    NoEndFrame(s, s, k);
    NoEndMeans(s, s, k);
    if n > 0 {
      var s1 := s.(buf := s.buf + bytes[..n]);
      NoEndFrame(s, s1, k);
      PostAppendEnds(s1, bytes[..n], k);
      EndsAfter(s, s1, PutMore(s, bytes), k);
    }
  }

  lemma {:induction false} CheckInEnds(s: Pipe, k: nat)
    ensures EndsBy(s, CheckIn(s), k)
  {
    hide NoEnd, EndsBy, PostAppend, PostConsume;
    var s1 := s.(out := false, held := []);
    NoEndFrame(s, s1, k);
    if |s.held| > |s.buf| {
      PostConsumeEnds(s1, s.held[..|s.held| - |s.buf|], k);
      NoEndMeans(s1, CheckIn(s), k);
      EndsAfter(s, s1, CheckIn(s), k);
    } else if |s.held| < |s.buf| {
      PostAppendEnds(s1, s.buf[|s.held|..], k);
      EndsAfter(s, s1, CheckIn(s), k);
    } else {
      NoEndMeans(s, s1, k);
    }
  }

  lemma {:induction false} EnableEnds(s: Pipe, k: nat)
    ensures EndsBy(s, Step(s, DoEnableAuto), k)
  {
    hide NoEnd, EndsBy, StartAutoConsumption;
    NoEndFrame(s, s.(auto := true), k);
    AutoNoEnd(s.(auto := true), k);
    NoEndChain(s, s.(auto := true), Step(s, DoEnableAuto), k);
    NoEndMeans(s, Step(s, DoEnableAuto), k);
  }

  /** A death changes no end: no attachment is made and no producer leaves. */
  lemma DieEnds(s: Pipe, j: Job, k: nat)
    ensures EndsBy(s, s.(dead := s.dead + {j}), k)
  {
    hide HasEnd;
  }

  lemma {:induction false} QuietEnds(s: Pipe, s': Pipe, k: nat)
    requires s'.log == s.log && SameProducer(s, s') && s'.attached == s.attached
    ensures EndsBy(s, s', k)
  {
    hide NoEnd, EndsBy;
    NoEndFrame(s, s', k);
    NoEndMeans(s, s', k);
  }

  lemma {:induction false} EndsStep(s: Pipe, a: Action, k: nat)
    requires Enabled(s, a)
    ensures EndsBy(s, Step(s, a), k)
  {
    hide ClearProducer, PutMore, SetConsumer, ClearConsumer, ExpectNoConsumption, Consume, StartAutoConsumption, CheckIn;
    hide EndsBy, NoEnd;
    match a
    case DoClearProducer(atEof) => ClearProducerEnds(s, atEof, k);
    case DoPut(bytes) => PutEnds(s, bytes, k);
    case DoSetConsumer(c) => SetConsumerEnds(s, c, k);
    case DoClearConsumer =>
      ClearConsumerEnds(s, k);
      NoEndMeans(s, Step(s, a), k);
    case DoExpectNoConsumption =>
      GiveUpEnds(s, k);
      NoEndMeans(s, Step(s, a), k);
    case DoGet(space) =>
      if s.buf == [] { QuietEnds(s, s, k); } else { ConsumeEnds(s, Min(|s.buf|, space), k); }
    case DoConsume(n) => ConsumeEnds(s, n, k);
    case DoEnableAuto => EnableEnds(s, k);
    case DoCheckIn => CheckInEnds(s, k);
    case DoDie(j) => DieEnds(s, j, k);
    case _ => QuietEnds(s, Step(s, a), k);
  }

  lemma {:induction false} EndsInRun(s: Pipe, run: seq<Action>, k: nat)
    ensures HasEnd(Run(s, run).log, k) <==> HasEnd(s.log, k) || k in Leaving(s, run) + Late(s, run)
    decreases |run|
  {
    hide HasEnd, Step;
    if run != [] && Enabled(s, run[0]) {
      EndsStep(s, run[0], k);
      EndsInRun(Step(s, run[0]), run[1..], k);
    }
  }

  /**
   Which attachments are sent an end, in every run: those that were there, alive, when the producer left,
   and those that a live consumer made after the producer had left or was gone.
   */
  lemma {:induction false} EndsExactly(producer: Job, run: seq<Action>, k: nat)
    ensures HasEnd(Run(Fresh(producer), run).log, k) <==>
            k in Leaving(Fresh(producer), run) || k in Late(Fresh(producer), run)
  {
    EndsInRun(Fresh(producer), run, k);
  }

  // ---------- who comes and goes ----------

  /** A producer leaves for good, and a consumer that leaves comes back only by attaching. */
  ghost predicate Stays(s: Pipe, s': Pipe, c: Job) {
    && (s'.producer == s.producer || s'.producer == Null)
    && (s'.consumer == s.consumer || s'.consumer == Null || s'.consumer.Sink? || s'.consumer == c)
  }

  lemma AutoStays(s: Pipe, c: Job)
    ensures Stays(s, StartAutoConsumption(s), c)
  {
  }

  lemma SetConsumerStays(s: Pipe, c: Job)
    ensures Stays(s, SetConsumer(s, c), c)
  {
  }

  lemma ProducerStays(s: Pipe, atEof: bool, c: Job)
    ensures Stays(s, ClearProducer(s, atEof), c) && Stays(s, ScheduleData(s), c)
  {
  }

  lemma {:induction false} PostAppendStays(s: Pipe, more: seq<Byte>, c: Job)
    ensures Stays(s, PostAppend(s, more), c)
  {
    hide ScheduleData, ClearProducer, StartAutoConsumption;
    var s0 := s.(put := s.put + |more|, accepted := s.accepted + more);
    var s1 := ScheduleData(s0);
    ProducerStays(s0, true, c);
    ProducerStays(s1, true, c);
    AutoStays(if s1.MayNeedMore() then s1 else ClearProducer(s1, true), c);
  }

  lemma {:induction false} GiveUpStays(s: Pipe, c: Job)
    ensures Stays(s, ExpectNoConsumption(s), c)
  {
    hide StartAutoConsumption;
    AutoStays(s.(log := s.log + [ConsumerAborted], aborted := true), c);
  }

  lemma {:induction false} ClearConsumerStays(s: Pipe, c: Job)
    ensures Stays(s, ClearConsumer(s), c) && (s.consumer != Null ==> ClearConsumer(s).consumer in {Null, Sink(s.attached + 1)})
  {
    hide StartAutoConsumption;
    var s1 := s.(consumer := Null);
    AutoAttaches(s1.(log := s1.log + [ConsumerAborted], aborted := true));
    AutoProducer(s1.(log := s1.log + [ConsumerAborted], aborted := true));
  }

  lemma AutoAttaches(s: Pipe)
    ensures StartAutoConsumption(s).consumer in {s.consumer, Sink(s.attached + 1)}
  {
  }

  lemma {:induction false} ConsumeStays(s: Pipe, n: nat, c: Job)
    requires n <= |s.buf|
    ensures Stays(s, Consume(s, n), c)
  {
  }

  lemma {:induction false} CheckInStays(s: Pipe, c: Job)
    ensures Stays(s, CheckIn(s), c)
  {
    hide PostAppend;
    if |s.held| < |s.buf| { PostAppendStays(s.(out := false, held := []), s.buf[|s.held|..], c); }
  }

  lemma {:induction false} StaysStep(s: Pipe, a: Action)
    requires Enabled(s, a)
    ensures Stays(s, Step(s, a), if a.DoSetConsumer? then a.c else Null)
  {
    hide ClearProducer, PostAppend, SetConsumer, ClearConsumer, ExpectNoConsumption, Consume, StartAutoConsumption, CheckIn;
    match a
    case DoClearProducer(atEof) => ProducerStays(s, atEof, Null);
    case DoPut(bytes) =>
      var n := PutSize(s, |bytes|);
      if n > 0 { PostAppendStays(s.(buf := s.buf + bytes[..n]), bytes[..n], Null); }
    case DoSetConsumer(c) => SetConsumerStays(s, c);
    case DoClearConsumer => ClearConsumerStays(s, Null);
    case DoExpectNoConsumption => GiveUpStays(s, Null);
    case DoGet(space) => if s.buf != [] { ConsumeStays(s, Min(|s.buf|, space), Null); }
    case DoConsume(n) => ConsumeStays(s, n, Null);
    case DoEnableAuto => AutoStays(s.(auto := true), Null);
    case DoCheckIn => CheckInStays(s, Null);
    case _ =>
  }

  lemma {:induction false} LeftForGood(s: Pipe, run: seq<Action>)
    requires s.producer == Null
    ensures Run(s, run).producer == Null
    decreases |run|
  {
    hide Step;
    if run != [] && Enabled(s, run[0]) {
      StaysStep(s, run[0]);
      LeftForGood(Step(s, run[0]), run[1..]);
    }
  }

  /** As long as the producer is set, all ends were sent to late attachments. */
  lemma {:induction false} NobodyLeft(s: Pipe, run: seq<Action>)
    requires Run(s, run).producer != Null
    ensures Leaving(s, run) == {}
    decreases |run|
  {
    hide Step;
    if run != [] && Enabled(s, run[0]) {
      var s' := Step(s, run[0]);
      if s'.producer == Null { LeftForGood(s', run[1..]); }
      NobodyLeft(s', run[1..]);
    }
  }

  // ---------- why the callers' part is needed ----------

  lemma NotQuiet(log: seq<Event>, e: Event)
    requires (e.Data? || e.End?) && HasEnd(log, e.k)
    ensures !Quiet(log + [e])
  {
    var d :| d in log && d.End? && d.k == e.k;
    var i :| 0 <= i < |log| && log[i] == d;
    assert (log + [e])[i] == d && (log + [e])[|log|] == e;
  }

  lemma QuietIff(log: seq<Event>, e: Event)
    requires Quiet(log) && (e.Data? || e.End?)
    ensures Quiet(log + [e]) <==> !HasEnd(log, e.k)
  {
    hide Quiet, HasEnd;
    if HasEnd(log, e.k) { NotQuiet(log, e); } else { QuietMore(log, e); }
  }

  /** Each end says "production ended" exactly when the size is known and fully put. */
  ghost predicate EndsTell(s: Pipe) {
    forall e :: e in s.log && e.End? ==> (e.whole <==> s.SizeKnown() && s.put == s.size)
  }

  lemma {:induction false} OrderlyRun(producer: Job, run: seq<Action>)
    requires Allowed(Fresh(producer), run)
    ensures var s := Run(Fresh(producer), run); Inv(s) && Quiet(s.log) && EndsTell(s) && Told(s)
  {
    hide Run, Allowed, Quiet;
    FreshKeeps(producer);
    RunKeeps(Fresh(producer), run);
  }

  /**
   Clearing a producer that is gone already, after an orderly run, is harmless exactly when the present
   consumer, if it is alive, attached before the producer died.
   */
  lemma {:induction false} ClearDeadProducer(producer: Job, run: seq<Action>, atEof: bool)
    requires Allowed(Fresh(producer), run)
    requires var s := Run(Fresh(producer), run); s.producer != Null && !s.Live(s.producer)
    ensures var s := Run(Fresh(producer), run);
            Quiet(ClearProducer(s, atEof).log) <==> !(s.Live(s.consumer) && s.attached in Late(Fresh(producer), run))
  {
    hide HasEnd, Quiet, Run, Allowed, EndsTell, Told, Inv;
    var s := Run(Fresh(producer), run);
    OrderlyRun(producer, run);
    EndsExactly(producer, run, s.attached);
    NobodyLeft(Fresh(producer), run);
    var s1 := s.(producer := Null, size := if atEof && !s.SizeKnown() then s.put else s.size);
    QuietIff(s.log, End(s1.attached, s1.SizeKnown() && s1.size == s1.put));
  }

  /**
   It also leaves every end true exactly when it does not settle the size at last, or no consumer attached
   after the death.
   */
  lemma {:induction false} ClearDeadTells(producer: Job, run: seq<Action>, atEof: bool)
    requires Allowed(Fresh(producer), run)
    requires var s := Run(Fresh(producer), run); s.producer != Null && !s.Live(s.producer)
    ensures var s := Run(Fresh(producer), run);
            EndsTell(ClearProducer(s, atEof)) <==> !(atEof && !s.SizeKnown() && Late(Fresh(producer), run) != {})
  {
    hide Quiet, Run, Allowed, Told, Inv, HasEnd;
    var s := Run(Fresh(producer), run);
    OrderlyRun(producer, run);
    NobodyLeft(Fresh(producer), run);
    SomeEnd(producer, run);
    ClearTells(s, atEof);
  }

  ghost predicate AnyEnd(log: seq<Event>) {
    exists e :: e in log && e.End?
  }

  lemma {:induction false} SomeEnd(producer: Job, run: seq<Action>)
    ensures AnyEnd(Run(Fresh(producer), run).log) <==> Leaving(Fresh(producer), run) + Late(Fresh(producer), run) != {}
  {
    hide Run, Leaving, Late;
    var (log, all) := (Run(Fresh(producer), run).log, Leaving(Fresh(producer), run) + Late(Fresh(producer), run));
    if AnyEnd(log) {
      var e :| e in log && e.End?;
      EndsExactly(producer, run, e.k);
      assert e.k in all;
    }
    if all != {} {
      var k :| k in all;
      EndsExactly(producer, run, k);
    }
  }

  lemma {:induction false} ClearTells(s: Pipe, atEof: bool)
    requires EndsTell(s) && s.producer != Null
    ensures EndsTell(ClearProducer(s, atEof)) <==> !(atEof && !s.SizeKnown() && AnyEnd(s.log))
  {
    var s' := ClearProducer(s, atEof);
    assert s.log <= s'.log;
    if atEof && !s.SizeKnown() && AnyEnd(s.log) {
      var e :| e in s.log && e.End?;
      assert e in s'.log && !e.whole;
    }
  }

  /**
   Bytes put by a producer that has left or is gone, after an orderly run, break the silence after the end
   exactly when some are accepted and the present consumer is alive and was told already: it was there when
   the producer left, or attached too late.
   */
  lemma {:induction false} PutTooLate(producer: Job, run: seq<Action>, bytes: seq<Byte>)
    requires Allowed(Fresh(producer), run)
    requires var s := Run(Fresh(producer), run); !s.Live(s.producer) && Enabled(s, DoPut(bytes))
    ensures var s := Run(Fresh(producer), run);
            Quiet(PutMore(s, bytes).log) <==>
            !(PutSize(s, |bytes|) > 0 && s.Live(s.consumer) && (s.producer == Null || s.attached in Late(Fresh(producer), run)))
  {
    hide HasEnd, Quiet, Run, Allowed, EndsTell, Inv, PostAppend;
    var s := Run(Fresh(producer), run);
    OrderlyRun(producer, run);
    EndsExactly(producer, run, s.attached);
    if s.producer != Null { NobodyLeft(Fresh(producer), run); }
    var n := PutSize(s, |bytes|);
    if n > 0 { AppendQuiet(s.(buf := s.buf + bytes[..n]), bytes[..n]); }
  }

  /** Appending without a live producer. */
  lemma {:induction false} AppendQuiet(s: Pipe, more: seq<Byte>)
    requires Quiet(s.log) && !s.Live(s.producer)
    ensures Quiet(PostAppend(s, more).log) <==> !(s.Live(s.consumer) && HasEnd(s.log, s.attached))
  {
    hide HasEnd, Quiet;
    var s1 := ScheduleData(s.(put := s.put + |more|, accepted := s.accepted + more));
    if s.Live(s.consumer) {
      var (d, e) := (Data(s.attached), End(s.attached, s1.SizeKnown() && s1.size == s1.put));
      QuietIff(s.log, d);
      HasEndMore(s.log, d, s.attached);
      if Quiet(s1.log) { QuietIff(s1.log, e); } else { NotQuietMore(s1.log, [e]); }
    }
  }

  lemma NotQuietMore(log: seq<Event>, more: seq<Event>)
    requires !Quiet(log)
    ensures !Quiet(log + more)
  {
    var i, j :| 0 <= i < j < |log| && log[i].End? && !(log[j] != Data(log[i].k) && !(log[j].End? && log[j].k == log[i].k));
    assert (log + more)[i] == log[i] && (log + more)[j] == log[j];
  }

  /** A producer that dies before a consumer attaches and is cleared afterwards ends that attachment twice. */
  lemma TwoEnds()
    ensures var s1 := Step(Fresh(Named(0)), DoDie(Named(0)));
            Enabled(s1, DoSetConsumer(Named(1))) &&
            var s2 := Step(s1, DoSetConsumer(Named(1)));
            Enabled(s2, DoClearProducer(true)) && s2.log == [Attached(1, true), End(1, false)] &&
            Step(s2, DoClearProducer(true)).log == [Attached(1, true), End(1, false), End(1, true)]
  {
  }

  /** If the consumer has left by then, its end stays false. */
  lemma FalseEnd()
    ensures var s1 := Step(Fresh(Named(0)), DoDie(Named(0)));
            Enabled(s1, DoSetConsumer(Named(1))) &&
            var s2 := Step(Step(s1, DoSetConsumer(Named(1))), DoClearConsumer);
            Enabled(s2, DoClearProducer(true)) &&
            var s3 := Step(s2, DoClearProducer(true));
            s3.log == [Attached(1, true), End(1, false)] && s3.SizeKnown() && s3.size == s3.put
  {
  }

  /** A producer that has left and still puts a byte sends data after the end. */
  lemma DataAfterEnd()
    ensures var s1 := Step(Fresh(Named(0)), DoSetConsumer(Named(1)));
            Enabled(s1, DoClearProducer(false)) &&
            var s2 := Step(s1, DoClearProducer(false));
            Enabled(s2, DoPut([1])) && Step(s2, DoPut([1])).log == [Attached(1, true), End(1, false), Data(1)]
  {
  }

  // ---------- delivery ----------

  /** BodyConsumerDialer::canDial: the addressee is alive and still the consumer. */
  predicate CanDialConsumer(s: Pipe, c: Job) {
    s.Live(c) && s.consumer == c
  }

  /** BodyProducerDialer::canDial. */
  predicate CanDialProducer(s: Pipe, p: Job) {
    s.Live(p) && s.producer == p
  }

  lemma {:induction false} StaysAway(s: Pipe, run: seq<Action>, c: Job)
    requires c.Named? && s.consumer != c && DoSetConsumer(c) !in run
    ensures Run(s, run).consumer != c
    decreases |run|
  {
    hide Step;
    if run != [] && Enabled(s, run[0]) {
      StaysStep(s, run[0]);
      StaysAway(Step(s, run[0]), run[1..], c);
    }
  }

  /** In every run, a consumer that stopped consuming is not called again unless it attaches again. */
  lemma {:induction false} NoCallAfterStop(s: Pipe, c: Job, run: seq<Action>)
    requires c.Named? && s.consumer == c && DoSetConsumer(c) !in run
    ensures !CanDialConsumer(Run(ClearConsumer(s), run), c)
  {
    hide ClearConsumer, Run;
    ClearConsumerStays(s, Null);
    StaysAway(ClearConsumer(s), run, c);
  }

  /** In every run, no producer is called after the producer was cleared. */
  lemma {:induction false} NoCallAfterClear(s: Pipe, p: Job, atEof: bool, run: seq<Action>)
    ensures !CanDialProducer(Run(ClearProducer(s, atEof), run), p)
  {
    hide ClearProducer, Run;
    NoProducerLeft(s, atEof);
    LeftForGood(ClearProducer(s, atEof), run);
  }
}
