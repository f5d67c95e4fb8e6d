/**
  The integer bookkeeping of the interval writer, which sends the current
  gamepad state to the USB gadget once per interval.

  Each pass of its loop polls a stop channel, computes the output report if it
  has not been computed since the last write, and writes it when the elapsed
  time has entered a later interval than the last write's and is close enough
  to the interval's start. Clocks, the shared gamepad, the float closeness
  test and the device file are outside the model: each pass is described by a
  Sample carrying the poll result, the elapsed nanoseconds, the outcome of the
  closeness test and the report the gamepad state would be encoded to.
 */
module IntervalWriter {
  import opened Bytes

  /** Outcome of a non-blocking receive on the stop channel. */
  datatype Poll = Empty | Message | Disconnected

  datatype Sample = Sample(poll: Poll, elapsedNs: nat, closeEnough: bool, report: seq<u8>)

  /** What a pass does that can be seen: computing the output report, or writing it. */
  datatype Action = Computed(report: seq<u8>) | Wrote(intervalIndex: nat, report: seq<u8>)

  datatype WriterState = WriterState(intervalCountsBefore: nat, codeRan: bool, usbOutput: seq<u8>)

  const Start := WriterState(0, false, [])

  /** The interval `elapsedNs` falls into and the offset into that interval. */
  function IntervalPosition(elapsedNs: nat, intervalNs: nat): (p: (nat, nat))
    requires intervalNs > 0
    ensures p.0 * intervalNs + p.1 == elapsedNs
    ensures p.1 < intervalNs
  {
    (elapsedNs / intervalNs, elapsedNs % intervalNs)
  }

  /** One pass of the loop after the poll found no stop request. */
  function Tick(s: WriterState, sample: Sample, intervalNs: nat): (r: (WriterState, seq<Action>))
    requires intervalNs > 0
    ensures s.intervalCountsBefore <= r.0.intervalCountsBefore
    // the report is computed, first, exactly when it has not been since the last write
    ensures !s.codeRan <==> |r.1| > 0 && r.1[0] == Computed(sample.report)
    ensures forall i :: 0 < i < |r.1| ==> r.1[i].Wrote?
    // a write is for the interval the sample falls into, later than the last write's
    ensures forall i :: 0 <= i < |r.1| && r.1[i].Wrote? ==>
              && r.1[i].intervalIndex * intervalNs <= sample.elapsedNs < (r.1[i].intervalIndex + 1) * intervalNs
              && s.intervalCountsBefore < r.1[i].intervalIndex == r.0.intervalCountsBefore
              && sample.closeEnough
    // a write happens exactly when the sample is in a later interval and close enough to its start
    ensures (IntervalPosition(sample.elapsedNs, intervalNs).0 > s.intervalCountsBefore && sample.closeEnough)
              <==> (|r.1| > 0 && r.1[|r.1| - 1].Wrote?)
    // and it sends the report computed since the last write, or the one computed in this pass
    ensures |r.1| > 0 && r.1[|r.1| - 1].Wrote? ==>
              r.1[|r.1| - 1].report == (if s.codeRan then s.usbOutput else sample.report)
    // without a write nothing but the computed report changes
    ensures (r.1 == [] || r.1[|r.1| - 1].Computed?) ==> r.0 == s.(codeRan := true, usbOutput := r.0.usbOutput)
  {
    var computed := if s.codeRan then [] else [Computed(sample.report)];
    var output := if s.codeRan then s.usbOutput else sample.report;
    var now := IntervalPosition(sample.elapsedNs, intervalNs).0;
    if now > s.intervalCountsBefore && sample.closeEnough then
      (WriterState(now, false, []), computed + [Wrote(now, output)])
    else
      (s.(codeRan := true, usbOutput := output), computed)
  }

  /**
    Computing and writing alternate, starting with a computation, and each
    write sends the report of the computation right before it.
   */
  predicate Alternating(trace: seq<Action>)
  {
    && (forall i :: 0 <= i < |trace| ==> (trace[i].Computed? <==> i % 2 == 0))
    && (forall i :: 0 < i < |trace| && trace[i].Wrote? ==> trace[i].report == trace[i - 1].report)
  }

  /** Interval indices of the writes strictly increase: at most one write per interval. */
  predicate WritesIncrease(trace: seq<Action>)
  {
    forall i, j :: 0 <= i < j < |trace| && trace[i].Wrote? && trace[j].Wrote?
      ==> trace[i].intervalIndex < trace[j].intervalIndex
  }

  /** What the writer's state says about the actions taken so far. */
  predicate Consistent(s: WriterState, trace: seq<Action>)
  {
    && Alternating(trace)
    && WritesIncrease(trace)
    && (forall i :: 0 <= i < |trace| && trace[i].Wrote?
          ==> 1 <= trace[i].intervalIndex <= s.intervalCountsBefore)
    && (s.codeRan <==> |trace| % 2 == 1)
    && (s.codeRan ==> s.usbOutput == trace[|trace| - 1].report)
    && (!s.codeRan ==> s.usbOutput == [])
  }

  lemma AppendComputed(s: WriterState, trace: seq<Action>, report: seq<u8>)
    requires Consistent(s, trace) && !s.codeRan
    ensures Consistent(s.(codeRan := true, usbOutput := report), trace + [Computed(report)])
  {
    var t := trace + [Computed(report)];
    assert forall i :: 0 <= i < |trace| ==> t[i] == trace[i];
  }

  lemma AppendWrote(s: WriterState, trace: seq<Action>, now: nat)
    requires Consistent(s, trace) && s.codeRan
    requires s.intervalCountsBefore < now
    ensures Consistent(WriterState(now, false, []), trace + [Wrote(now, s.usbOutput)])
  {
    var t := trace + [Wrote(now, s.usbOutput)];
    assert forall i :: 0 <= i < |trace| ==> t[i] == trace[i];
    assert |trace| % 2 == 1;
  }

  /** A pass keeps the state consistent with the actions taken so far. */
  lemma TickPreservesConsistency(s: WriterState, trace: seq<Action>, sample: Sample, intervalNs: nat)
    requires intervalNs > 0
    requires Consistent(s, trace)
    ensures Consistent(Tick(s, sample, intervalNs).0, trace + Tick(s, sample, intervalNs).1)
  {
    var now := IntervalPosition(sample.elapsedNs, intervalNs).0;
    var s1, t1 := s, trace;
    if !s.codeRan {
      AppendComputed(s, trace, sample.report);
      s1, t1 := s.(codeRan := true, usbOutput := sample.report), trace + [Computed(sample.report)];
    }
    if now > s.intervalCountsBefore && sample.closeEnough {
      AppendWrote(s1, t1, now);
      assert t1 + [Wrote(now, s1.usbOutput)] == trace + Tick(s, sample, intervalNs).1;
    } else {
      assert t1 == trace + Tick(s, sample, intervalNs).1;
    }
  }

  /**
    Reference definition of a run: the passes over `samples` one after the
    other from `s`, with the state reached and the actions taken.
   */
  function Run(s: WriterState, samples: seq<Sample>, intervalNs: nat): (r: (WriterState, seq<Action>))
    requires intervalNs > 0
    ensures s.intervalCountsBefore <= r.0.intervalCountsBefore
    ensures |r.1| <= 2 * |samples|
  {
    if samples == [] then (s, [])
    else
      var before := Run(s, samples[..|samples| - 1], intervalNs);
      var last := Tick(before.0, samples[|samples| - 1], intervalNs);
      (last.0, before.1 + last.1)
  }

  /** Every run from the initial state alternates, and writes at most once per interval. */
  lemma {:induction false} RunConsistent(samples: seq<Sample>, intervalNs: nat)
    requires intervalNs > 0
    ensures Consistent(Run(Start, samples, intervalNs).0, Run(Start, samples, intervalNs).1)
  {
    if samples != [] {
      var init := samples[..|samples| - 1];
      RunConsistent(init, intervalNs);
      var before := Run(Start, init, intervalNs);
      TickPreservesConsistency(before.0, before.1, samples[|samples| - 1], intervalNs);
    }
  }

  /**
    The writer's loop over the passes described by `samples`. It ends at the
    first pass whose poll received a stop message or found the channel
    disconnected, or when the samples run out; `passes` is the number of
    passes that ran to the end.
   */
  method WriteToGadgetIntervalic(samples: seq<Sample>, intervalNs: nat) returns (trace: seq<Action>, passes: nat)
    requires intervalNs > 0
    ensures passes <= |samples|
    ensures forall k :: 0 <= k < passes ==> samples[k].poll == Empty
    ensures passes < |samples| ==> samples[passes].poll != Empty
    ensures Alternating(trace)
    ensures WritesIncrease(trace)
    ensures forall i :: 0 <= i < |trace| && trace[i].Wrote? ==> 1 <= trace[i].intervalIndex
    ensures |trace| <= 2 * passes
    ensures trace == Run(Start, samples[..passes], intervalNs).1
  {
    var s := Start;
    trace := [];
    passes := 0;
    while passes < |samples|
      invariant passes <= |samples|
      invariant forall k :: 0 <= k < passes ==> samples[k].poll == Empty
      invariant Consistent(s, trace)
      invariant |trace| <= 2 * passes
      invariant (s, trace) == Run(Start, samples[..passes], intervalNs)
    {
      if samples[passes].poll != Empty {
        break;
      }
      TickPreservesConsistency(s, trace, samples[passes], intervalNs);
      var next := Tick(s, samples[passes], intervalNs);
      assert samples[..passes + 1][..passes] == samples[..passes];
      s, trace := next.0, trace + next.1;
      passes := passes + 1;
    }
  }
}
