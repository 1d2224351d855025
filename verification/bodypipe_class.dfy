/**
 src/BodyPipe.cc: the pipe in memory. Every operation takes exactly the step of the same name and keeps the
 invariant of all orderly runs; what it owes to its caller is stated beside it.
 */
module BodyPipeObject {
  import opened Basics
  import opened BodyPipes
  import Steps = BodyPipes

  class BodyPipe {
    var theBodySize: int
    var theProducer: Job
    var theConsumer: Job
    var thePutSize: nat
    var theGetSize: nat
    var theBuf: seq<Byte>
    var mustAutoConsume: bool
    var abortedConsumption: bool
    var isCheckedOut: bool
    var dead: set<Job>            // the environment: jobs that are gone
    var sinks: nat                // names the next attachment
    var calls: seq<Event>         // the calls scheduled so far
    var held: seq<Byte>          // what the outstanding checkout took
    ghost var accepted: seq<Byte>
    ghost var consumed: seq<Byte>

    ghost function State(): Pipe
      reads this
    {
      Pipe(theBodySize, theProducer, theConsumer, thePutSize, theGetSize, theBuf, mustAutoConsume, abortedConsumption,
           isCheckedOut, held, dead, sinks, calls, accepted, consumed)
    }

    /** The notices so far are right and no byte is lost. */
    ghost predicate Sound()
      reads this
    {
      Inv(State())
    }

    /** What this means for the parties: bytes come out as they went in, and an attachment ends once. */
    lemma {:induction false} Promises(k: nat)
      requires Sound()
      ensures consumed <= accepted && |consumed| == theGetSize && |accepted| == thePutSize
      ensures BodySizeKnown() ==> thePutSize <= theBodySize
      ensures CountEnds(calls, k) <= 1 && CountGivenUp(calls) <= 1
      ensures theProducer == Null && Live(theConsumer) ==> CountEnds(calls, sinks) == 1
    {
      QuietCounts(calls, k);
      QuietCounts(calls, sinks);
      GivenUpCounts(calls);
    }

    constructor (aProducer: Job)
      ensures State() == Fresh(aProducer) && Sound()
    {
      theBodySize, theProducer, theConsumer := -1, aProducer, Null;
      thePutSize, theGetSize, theBuf := 0, 0, [];
      mustAutoConsume, abortedConsumption, isCheckedOut := false, false, false;
      dead, sinks, calls := {}, 0, [];
      held, accepted, consumed := [], [], [];
      new;
      FreshKeeps(aProducer);
    }

    predicate Live(j: Job)
      reads this
    {
      j != Null && j !in dead
    }

    predicate BodySizeKnown()
      reads this
    {
      theBodySize >= 0
    }

    function UnproducedSize(): int
      reads this
    {
      if thePutSize <= theBodySize then theBodySize - thePutSize
      else theBodySize - thePutSize + 0x1_0000_0000_0000_0000
    }

    predicate MayNeedMoreData()
      reads this
    {
      !BodySizeKnown() || UnproducedSize() > 0
    }

    predicate Exhausted()
      reads this
    {
      !(theGetSize < thePutSize || (Live(theProducer) && MayNeedMoreData()))
    }

    /** From now on the pipe is exhausted exactly when that many bytes came out. */
    method SetBodySize(aBodySize: nat)
      requires Sound() && Enabled(State(), DoSetBodySize(aBodySize)) && Live(theProducer)
      modifies this
      ensures Sound() && State() == Step(old(State()), DoSetBodySize(aBodySize))
      ensures Exhausted() <==> |consumed| == aBodySize
      ensures MayNeedMoreData() <==> |accepted| < aBodySize
    {
      hide Inv;
      InvStep(State(), DoSetBodySize(aBodySize));
      theBodySize := aBodySize;
      SizeMeans();
    }

    lemma SizeMeans()
      requires Sound() && BodySizeKnown() && Live(theProducer)
      ensures Exhausted() <==> |consumed| == theBodySize
      ensures MayNeedMoreData() <==> |accepted| < theBodySize
    {
    }

    method ExpectProductionEndAfter(size: nat) returns (thrown: bool)
      requires Sound() && Live(theProducer)
      modifies this
      ensures Sound() && State() == ExpectEndAfter(old(State()), size)
      ensures thrown <==> old(BodySizeKnown()) && old(theBodySize) != old(thePutSize) + size
      ensures !thrown ==> BodySizeKnown() && UnproducedSize() == size
    {
      hide Inv;
      InvStep(State(), DoExpectEndAfter(size));
      var expectedSize := thePutSize + size;
      thrown := false;
      if BodySizeKnown() {
        thrown := theBodySize != expectedSize;
      } else {
        theBodySize := expectedSize;
      }
    }

    method ScheduleBodyDataNotification()
      modifies this`calls
      ensures State() == ScheduleData(old(State()))
      ensures calls == old(calls) + (if Live(theConsumer) then [Data(sinks)] else [])
    {
      if Live(theConsumer) { calls := calls + [Data(sinks)]; }
    }

    method ScheduleBodyEndNotification()
      modifies this`calls
      ensures State() == ScheduleEnd(old(State()))
      ensures calls == old(calls) + (if Live(theConsumer) then [End(sinks, theBodySize >= 0 && theBodySize == thePutSize)] else [])
    {
      if Live(theConsumer) {
        if BodySizeKnown() && theBodySize == thePutSize {
          calls := calls + [End(sinks, true)];
        } else {
          calls := calls + [End(sinks, false)];
        }
      }
    }

    /** Afterwards a live consumer has been sent exactly one end. */
    method ClearProducer(atEof: bool)
      requires Sound() && Enabled(State(), DoClearProducer(atEof)) && (theProducer == Null || Live(theProducer))
      modifies this
      ensures Sound() && State() == Steps.ClearProducer(old(State()), atEof)
      ensures theProducer == Null && (Live(theConsumer) ==> CountEnds(calls, sinks) == 1)
    {
      hide Inv, CountEnds;
      InvStep(State(), DoClearProducer(atEof));
      if theProducer != Null {
        theProducer := Null;
        if atEof {
          if !BodySizeKnown() { theBodySize := thePutSize; }
        }
        ScheduleBodyEndNotification();
      }
      Promises(sinks);
    }

    /** A sink attaches, and is told of the data, exactly when all four conditions hold; nothing else changes. */
    method StartAutoConsumptionIfNeeded()
      requires Sound()
      modifies this`sinks, this`theConsumer, this`calls
      ensures Sound() && State() == StartAutoConsumption(old(State()))
      ensures mustAutoConsume && Live(theProducer) && theBuf != [] ==> Live(theConsumer)
      ensures if old(mustAutoConsume && !Live(theConsumer) && Live(theProducer) && theBuf != [])
              then theConsumer == Sink(sinks) && sinks == old(sinks) + 1
                   && calls == old(calls) + [Attached(sinks, false), Data(sinks)]
              else State() == old(State())
    {
      hide Inv, StartAutoConsumption;
      AutoInv(State());
      SoundSinks();
      AutoStarts(State());
      var startNow := mustAutoConsume && !Live(theConsumer) && Live(theProducer) && theBuf != [];
      if !startNow { return; }
      sinks := sinks + 1;
      theConsumer := Sink(sinks);
      assert Live(theConsumer);
      ghost var before := calls;
      calls := calls + [Attached(sinks, false)];
      ScheduleBodyDataNotification();
      assert calls == before + [Attached(sinks, false), Data(sinks)];
    }

    lemma SoundSinks()
      requires Sound()
      ensures SinksKnown(State())
    {
    }

    method PostAppend(size: nat, ghost more: seq<Byte>)
      requires !isCheckedOut && size == |more| && Live(theProducer) && Inv(Appended(State(), more))
      modifies this
      ensures Sound() && State() == Steps.PostAppend(old(State()), more)
      ensures old(theBuf) != [] ==> calls == old(calls) + PutCalls(old(State()), size)
    {
      hide StartAutoConsumption, Steps.ClearProducer, ScheduleData, Inv, PutCalls;
      if theBuf != [] {
        AppendBound(State(), more);
        AppendHears(State(), more);
      }
      thePutSize := thePutSize + size;
      accepted := accepted + more;
      DataInv(State());
      ProducerStays(State(), true, Null);
      ScheduleBodyDataNotification();
      if !MayNeedMoreData() { ClearProducer(true); }
      StartAutoConsumptionIfNeeded();
    }

    method PostConsume(size: nat, ghost less: seq<Byte>)
      requires !isCheckedOut && size == |less| && Inv(Consumed(State(), less))
      modifies this
      ensures Sound() && State() == Steps.PostConsume(old(State()), less)
      ensures calls == old(calls) + (if theBodySize < 0 || thePutSize < theBodySize then [Space] else [])
    {
      hide Inv;
      SpaceInv(State(), less);
      Accounts(State(), less);
      theGetSize := theGetSize + size;
      consumed := consumed + less;
      if MayNeedMoreData() { calls := calls + [Space]; }
    }

    /** The first `n` bytes are accepted: as many as a known size and the buffer leave room for. */
    method PutMoreData(aBuffer: seq<Byte>) returns (n: nat)
      requires Sound() && Enabled(State(), DoPut(aBuffer)) && Live(theProducer)
      modifies this
      ensures Sound() && State() == PutMore(old(State()), aBuffer)
      ensures n == PutSize(old(State()), |aBuffer|) <= |aBuffer|
      ensures accepted == old(accepted) + aBuffer[..n] && consumed == old(consumed) && theBuf == old(theBuf) + aBuffer[..n]
      ensures n > 0 ==> |theBuf| + 1 <= 65536
      ensures n < |aBuffer| ==> (BodySizeKnown() && thePutSize == theBodySize) || 65536 <= |theBuf| + 1
      ensures calls == old(calls) + (if n > 0 then PutCalls(old(State()), n) else [])
      ensures n > 0 && mustAutoConsume && Live(theProducer) ==> Live(theConsumer)
    {
      hide Steps.PostAppend, Inv, PutCalls;
      PutAccepts(State(), aBuffer);
      PutTakes(State(), aBuffer);
      PutDrains(State(), aBuffer);
      n := |aBuffer|;
      if BodySizeKnown() && UnproducedSize() < n { n := if UnproducedSize() < 0 then 0 else UnproducedSize(); }
      var spaceSize := if |theBuf| + 1 < MAX_CAPACITY then MAX_CAPACITY - (|theBuf| + 1) else 0;
      n := Min(n, spaceSize);
      if n > 0 {
        PutInv(State(), aBuffer[..n]);
        theBuf := theBuf + aBuffer[..n];
        PostAppend(n, aBuffer[..n]);
      }
    }

    /** The outcome tells the three ways out apart: attached, too late, exception. */
    method SetConsumerIfNotLate(aConsumer: Job) returns (ok: bool, thrown: bool)
      requires Sound() && Enabled(State(), DoSetConsumer(aConsumer))
      modifies this
      ensures Sound() && State() == SetConsumer(old(State()), aConsumer)
      ensures ok <==> old(consumed) == [] && !old(abortedConsumption)
      ensures thrown <==> old(consumed) == [] && old(abortedConsumption)
      ensures ok && Live(aConsumer) ==> theConsumer == aConsumer && calls == old(calls) + Welcome(old(State()))
    {
      hide Inv, Welcome;
      InvStep(State(), DoSetConsumer(aConsumer));
      Promises(0);
      if theGetSize > 0 { return false, false; }
      if abortedConsumption { return false, true; }
      if Live(aConsumer) { SetConsumerHears(State(), aConsumer); }
      Attach(aConsumer);
      return true, false;
    }

    method Attach(aConsumer: Job)
      requires theGetSize == 0 && !abortedConsumption
      modifies this
      ensures State() == SetConsumer(old(State()), aConsumer)
    {
      hide ScheduleEnd;
      sinks := sinks + 1;
      theConsumer := aConsumer;
      calls := calls + [Attached(sinks, true)];
      if theBuf != [] { ScheduleBodyDataNotification(); }
      if !Live(theProducer) { ScheduleBodyEndNotification(); }
    }

    method ExpectNoConsumption() returns (thrown: bool)
      requires Sound()
      modifies this
      ensures Sound() && State() == Steps.ExpectNoConsumption(old(State()))
      ensures thrown <==> !old(abortedConsumption) && !old(Exhausted()) && old(Live(theConsumer))
      ensures !thrown ==> abortedConsumption || Exhausted()
      ensures if old(abortedConsumption || Exhausted() || Live(theConsumer)) then calls == old(calls)
              else calls == old(calls) + [ConsumerAborted]
                            + (if old(mustAutoConsume && Live(theProducer) && theBuf != [])
                               then [Attached(sinks, false), Data(sinks)] else [])
    {
      hide StartAutoConsumption, Inv;
      InvStep(State(), DoExpectNoConsumption);
      thrown := false;
      if !abortedConsumption && !Exhausted() {
        if Live(theConsumer) { return true; }
        GaveUp(State());
        GivenUpInv(State());
        calls := calls + [ConsumerAborted];
        abortedConsumption := true;
        StartAutoConsumptionIfNeeded();
      }
    }

    method ClearConsumer()
      requires Sound()
      modifies this
      ensures Sound() && State() == Steps.ClearConsumer(old(State()))
      ensures theConsumer == Null || theConsumer.Sink?
      ensures old(theConsumer) != Null && old(theGetSize) > 0 ==> abortedConsumption || Exhausted()
      ensures old(theConsumer) == Null || old(theGetSize) == 0 ==> calls == old(calls) && abortedConsumption == old(abortedConsumption)
    {
      hide Steps.ExpectNoConsumption, Inv;
      ClearConsumerStays(State(), Null);
      if theConsumer != Null {
        DetachInv(State());
        theConsumer := Null;
        if theGetSize > 0 { var thrown := ExpectNoConsumption(); }
      }
    }

    /** What is handed out continues what was handed out before. */
    method GetMoreData(space: nat) returns (taken: seq<Byte>)
      requires Sound() && Enabled(State(), DoGet(space))
      modifies this
      ensures Sound() && State() == Step(old(State()), DoGet(space))
      ensures taken == old(theBuf)[..Min(|old(theBuf)|, space)]
      ensures consumed == old(consumed) + taken && accepted == old(accepted) && theBuf == old(theBuf)[|taken|..]
      ensures calls == old(calls) + (if old(theBuf) != [] && (theBodySize < 0 || thePutSize < theBodySize) then [Space] else [])
    {
      hide Inv;
      if theBuf == [] { return []; }
      var size := Min(|theBuf|, space);
      GetInv(State(), size);
      taken := theBuf[..size];
      theBuf := theBuf[size..];
      PostConsume(size, taken);
    }

    method Consume(size: nat)
      requires Sound() && Enabled(State(), DoConsume(size))
      modifies this
      ensures Sound() && State() == Steps.Consume(old(State()), size)
      ensures consumed == old(consumed) + old(theBuf)[..size] && accepted == old(accepted) && theBuf == old(theBuf)[size..]
      ensures calls == old(calls) + (if theBodySize < 0 || thePutSize < theBodySize then [Space] else [])
    {
      hide Inv;
      GetInv(State(), size);
      ghost var less := theBuf[..size];
      theBuf := theBuf[size..];
      PostConsume(size, less);
    }

    method EnableAutoConsumption()
      requires Sound()
      modifies this
      ensures Sound() && State() == Step(old(State()), DoEnableAuto)
      ensures mustAutoConsume && (Live(theProducer) && theBuf != [] ==> Live(theConsumer))
    {
      hide StartAutoConsumption, Inv;
      EnabledInv(State());
      mustAutoConsume := true;
      StartAutoConsumptionIfNeeded();
    }

    /** The caller's Checkout remembers the size of the content it takes. */
    method CheckOut() returns (checkedOutSize: nat)
      requires Sound() && Enabled(State(), DoCheckOut)
      modifies this
      ensures Sound() && State() == Step(old(State()), DoCheckOut) && checkedOutSize == |held|
    {
      hide Inv;
      InvStep(State(), DoCheckOut);
      isCheckedOut := true;
      held := theBuf;
      checkedOutSize := |theBuf|;
    }

    /** The holder of a checkout appends to the raw buffer. */
    method RawAppend(bytes: seq<Byte>)
      requires Sound() && isCheckedOut && held <= theBuf
      modifies this
      ensures Sound() && State() == Step(old(State()), DoRawAppend(bytes))
    {
      hide Inv;
      InvStep(State(), DoRawAppend(bytes));
      theBuf := theBuf + bytes;
    }

    /** The holder of a checkout consumes from the raw buffer. */
    method RawConsume(n: nat)
      requires Sound() && Enabled(State(), DoRawConsume(n)) && Orderly(State(), DoRawConsume(n))
      modifies this
      ensures Sound() && State() == Step(old(State()), DoRawConsume(n))
    {
      hide Inv;
      InvStep(State(), DoRawConsume(n));
      theBuf := theBuf[n..];
    }

    /** Whatever the holder appended is accepted and whatever it took out is consumed. */
    method CheckIn(checkedOutSize: nat)
      requires Sound() && Enabled(State(), DoCheckIn) && Orderly(State(), DoCheckIn) && checkedOutSize == |held|
      modifies this
      ensures Sound() && State() == Steps.CheckIn(old(State()))
      ensures accepted == consumed + theBuf && theBuf == old(theBuf)
      ensures calls == old(calls)
                       + (if checkedOutSize < |theBuf| then PutCalls(old(State()), |theBuf| - checkedOutSize)
                          else if checkedOutSize > |theBuf| && (theBodySize < 0 || thePutSize < theBodySize) then [Space] else [])
    {
      hide Steps.PostAppend, Steps.PostConsume, Inv, PutCalls;
      SamePutCalls(State(), if checkedOutSize < |theBuf| then |theBuf| - checkedOutSize else 0);
      CheckInBuffer(State());
      InvStep(State(), DoCheckIn);
      CheckInCloses(State());
      var currentSize := |theBuf|;
      if checkedOutSize > currentSize {
        ReturnedLess(State());
      } else if checkedOutSize < currentSize {
        ReturnedMore(State());
      }
      isCheckedOut := false;
      ghost var was := held;
      held := [];
      if checkedOutSize > currentSize {
        PostConsume(checkedOutSize - currentSize, was[..checkedOutSize - currentSize]);
      } else if checkedOutSize < currentSize {
        PostAppend(currentSize - checkedOutSize, theBuf[checkedOutSize..]);
      }
    }

    /** A job is gone; pointers to it are no longer valid. */
    method Die(j: Job)
      requires Sound() && Enabled(State(), DoDie(j))
      modifies this`dead
      ensures Sound() && State() == Step(old(State()), DoDie(j))
    {
      hide Inv;
      InvStep(State(), DoDie(j));
      dead := dead + {j};
    }

    method Perform(a: Action)
      requires Sound() && Enabled(State(), a) && Orderly(State(), a)
      modifies this
      ensures Sound() && State() == Step(old(State()), a)
    {
      hide Inv, Steps.ClearProducer, PutMore, SetConsumer, Steps.ClearConsumer, Steps.ExpectNoConsumption, Steps.Consume,
           StartAutoConsumption, Steps.CheckIn;
      match a
      case DoSetBodySize(n) => SetBodySize(n);
      case DoExpectEndAfter(n) => var thrown := ExpectProductionEndAfter(n);
      case DoClearProducer(atEof) => ClearProducer(atEof);
      case DoPut(bytes) => var n := PutMoreData(bytes);
      case DoSetConsumer(c) => var ok, thrown := SetConsumerIfNotLate(c);
      case DoClearConsumer => ClearConsumer();
      case DoExpectNoConsumption => var thrown := ExpectNoConsumption();
      case DoGet(space) => var taken := GetMoreData(space);
      case DoConsume(n) => Consume(n);
      case DoEnableAuto => EnableAutoConsumption();
      case DoCheckOut => var size := CheckOut();
      case DoRawAppend(bytes) => RawAppend(bytes);
      case DoRawConsume(n) => RawConsume(n);
      case DoCheckIn => CheckIn(|held|);
      case DoDie(j) => Die(j);
    }
  }

  /** The object follows every orderly run, so that all that is proved of runs holds of it. */
  method Drive(producer: Job, run: seq<Action>) returns (pipe: BodyPipe)
    requires Allowed(Fresh(producer), run)
    ensures fresh(pipe) && pipe.Sound() && pipe.State() == Run(Fresh(producer), run)
  {
    hide Inv, Step;
    pipe := new BodyPipe(producer);
    var i := 0;
    assert run[0..] == run;
    while i < |run|
      invariant 0 <= i <= |run| && fresh(pipe) && pipe.Sound()
      invariant Allowed(pipe.State(), run[i..]) && Run(pipe.State(), run[i..]) == Run(Fresh(producer), run)
    {
      assert run[i..][1..] == run[i + 1..];
      pipe.Perform(run[i]);
      i := i + 1;
    }
    assert run[i..] == [];
  }
}
