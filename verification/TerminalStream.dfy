/** The event stream of one attach: the replay, then live events until the session exits or closes. */
module TerminalStream {
  import opened Wrappers
  import opened Terminal
  import opened TerminalRuns
  import opened TerminalTheorems

  predicate Final(event: Event) {
    event.SessionExited? || event.SessionClosed?
  }

  function UpToFinal(events: seq<Event>): (prefix: seq<Event>)
    ensures prefix <= events
  {
    if events == [] then []
    else if Final(events[0]) then [events[0]]
    else [events[0]] + UpToFinal(events[1..])
  }

  /** Everything after the first message, which tells the info at attach time. */
  function Streamed(info: Info, replay: seq<Event>, live: seq<Event>): (events: seq<Event>)
  {
    replay + (if info.exit.Some? then [SessionExited(info.exit.value)] else UpToFinal(live))
  }

  /** The sending loop; `live` is what the receiver yields before its channel is closed. */
  method StreamAttached(info: Info, replay: seq<Event>, live: seq<Event>) returns (sent: seq<Event>)
    ensures sent == Streamed(info, replay, live)
  {
    sent := [];
    for i := 0 to |replay|
      invariant sent == replay[..i]
    {
      sent := sent + [replay[i]];
    }
    assert replay[..|replay|] == replay;
    if info.exit.Some? {
      return sent + [SessionExited(info.exit.value)];
    }
    assert live[0..] == live && replay + UpToFinal(live) == sent + UpToFinal(live[0..]);
    for i := 0 to |live|
      invariant replay + UpToFinal(live) == sent + UpToFinal(live[i..])
    {
      var event := live[i];
      assert live[i..][1..] == live[i + 1..];
      sent := sent + [event];
      if Final(event) {
        return;
      }
    }
  }

  /** The live events are sent up to the first exit or close event, that one included, and all if there is none. */
  lemma {:induction false} StopsAtTheFirstEnd(live: seq<Event>)
    ensures
      var sent := UpToFinal(live);
      && sent <= live
      && (forall i | 0 <= i < |sent| - 1 :: !live[i].SessionExited? && !live[i].SessionClosed?)
      && (sent == live || (sent != [] && (Last(sent).SessionExited? || Last(sent).SessionClosed?)))
  {
    if live != [] && !live[0].SessionExited? && !live[0].SessionClosed? {
      StopsAtTheFirstEnd(live[1..]);
      var rest := UpToFinal(live[1..]);
      assert UpToFinal(live) == [live[0]] + rest && live == [live[0]] + live[1..];
      forall i | 0 <= i < |rest| ensures !live[i].SessionExited? && !live[i].SessionClosed? {
        assert i > 0 ==> live[i] == live[1..][i - 1];
      }
    }
  }

  lemma {:induction false} OnlyTheLastIsFinal(events: seq<Event>)
    ensures forall i | 0 <= i < |UpToFinal(events)| - 1 :: !Final(UpToFinal(events)[i])
    ensures (forall i | 0 <= i < |events| :: !Final(events[i])) ==> UpToFinal(events) == events
  {
    hide Final;
    if events != [] && !Final(events[0]) {
      OnlyTheLastIsFinal(events[1..]);
      assert events == [events[0]] + events[1..];
    }
  }

  lemma {:induction false} ChunksOfPrefix(prefix: seq<Event>, events: seq<Event>)
    requires prefix <= events
    ensures Chunks(prefix) <= Chunks(events)
  {
    assert events == prefix + events[|prefix|..];
    ChunksOfConcat(prefix, events[|prefix|..]);
  }

  lemma PrefixOfChunks(prefix: seq<Event>, history: seq<Record>, start: nat)
    requires start <= |history| && prefix <= AsChunks(history[start..])
    ensures start + |prefix| <= |history| && prefix == AsChunks(history[start..start + |prefix|])
  {
  }

  lemma ReplayIsNotFinal(w: World, attach: Step)
    requires attach.Attach? && Apply(w.session, attach).reply.Attached?
    ensures forall i | 0 <= i < |Apply(w.session, attach).reply.replay| :: !Final(Apply(w.session, attach).reply.replay[i])
  {
  }

  lemma StreamedChunks(info: Info, replay: seq<Event>, live: seq<Event>, history: seq<Record>, start: nat)
    requires start <= |history| && Chunks(replay + live) == AsChunks(history[start..])
    ensures
      var chunks := Chunks(Streamed(info, replay, live));
      && start + |Chunks(replay)| <= start + |chunks| <= |history|
      && chunks == AsChunks(history[start..start + |chunks|])
      && (info.exit.Some? ==> chunks == Chunks(replay))
      && (info.exit.None? && (forall i | 0 <= i < |live| :: !Final(live[i])) ==> start + |chunks| == |history|)
  {
    hide Chunks, UpToFinal, Final;
    var tail := if info.exit.Some? then [SessionExited(info.exit.value)] else UpToFinal(live);
    ChunksOfConcat(replay, tail);
    ChunksOfConcat(replay, live);
    if info.exit.Some? {
      NoChunks(tail);
      assert Chunks(replay) + [] == Chunks(replay);
    } else {
      OnlyTheLastIsFinal(live);
      ChunksOfPrefix(tail, live);
    }
    PrefixOfChunks(Chunks(replay + tail), history, start);
  }

  lemma StreamedFinals(info: Info, replay: seq<Event>, live: seq<Event>)
    requires forall i | 0 <= i < |replay| :: !Final(replay[i])
    ensures forall i | 0 <= i < |Streamed(info, replay, live)| - 1 :: !Final(Streamed(info, replay, live)[i])
    ensures info.exit.Some? ==>
      Streamed(info, replay, live) != [] && Last(Streamed(info, replay, live)) == SessionExited(info.exit.value)
  {
    OnlyTheLastIsFinal(live);
  }

  // ---------- where a stream stops ----------

  /** Step `k` sends the final event of the stream. */
  predicate SendsFinal(w: World, steps: seq<Step>, k: nat)
    requires k < |steps|
  {
    var events := Apply(After(w, steps[..k]).session, steps[k]).events;
    events != [] && Final(events[0])
  }

  /** The first step from `i` on that sends a final event, or the number of steps. */
  function FirstFinal(w: World, steps: seq<Step>, i: nat): (k: nat)
    requires i <= |steps|
    ensures i <= k <= |steps|
    ensures forall j | i <= j < k :: !SendsFinal(w, steps, j)
    ensures k < |steps| ==> SendsFinal(w, steps, k)
    decreases |steps| - i
  {
    if i == |steps| || SendsFinal(w, steps, i) then i else FirstFinal(w, steps, i + 1)
  }

  predicate NoFinal(events: seq<Event>) {
    forall i | 0 <= i < |events| :: !Final(events[i])
  }

  lemma LiveOfPrefix(w: World, steps: seq<Step>, k: nat)
    requires k < |steps|
    ensures Live(w, steps[..k + 1]) == Live(w, steps[..k]) + Apply(After(w, steps[..k]).session, steps[k]).events
  {
    hide Live, Apply;
    var longer := steps[..k + 1];
    assert Front(longer) == steps[..k] && Last(longer) == steps[k];
    LiveGrows(w, longer);
  }

  lemma {:induction false} QuietBefore(w: World, steps: seq<Step>, k: nat)
    requires k <= |steps| && forall j | 0 <= j < k :: !SendsFinal(w, steps, j)
    ensures NoFinal(Live(w, steps[..k]))
  {
    hide Apply, Advance;
    if k == 0 {
      assert steps[..0] == [] && After(w, []) == w;
    } else {
      QuietBefore(w, steps, k - 1);
      LiveOfPrefix(w, steps, k - 1);
      EventsOf(After(w, steps[..k - 1]).session, steps[k - 1]);
      assert !SendsFinal(w, steps, k - 1);
      hide Live, After;
    }
  }

  lemma LiveIsLonger(w: World, steps: seq<Step>, k: nat)
    requires k <= |steps|
    ensures Live(w, steps[..k]) <= Live(w, steps)
  {
    assert steps == steps[..k] + steps[k..];
    RunOfConcat(w, steps[..k], steps[k..]);
    LogGrows(w, steps[..k]);
    LogGrows(After(w, steps[..k]), steps[k..]);
    LogGrows(w, steps);
    hide Live;
    Regroup(w.log, Live(w, steps[..k]), Live(After(w, steps[..k]), steps[k..]));
    CancelFront(w.log, Live(w, steps), Live(w, steps[..k]) + Live(After(w, steps[..k]), steps[k..]));
  }

  lemma {:induction false} UpToFinalStops(quiet: seq<Event>, final: Event, rest: seq<Event>)
    requires NoFinal(quiet) && Final(final)
    ensures UpToFinal(quiet + [final] + rest) == quiet + [final]
  {
    hide Final;
    if quiet == [] {
      assert [] + [final] + rest == [final] + rest;
    } else {
      UpToFinalStops(quiet[1..], final, rest);
      assert (quiet + [final] + rest)[1..] == quiet[1..] + [final] + rest;
      assert quiet + [final] == [quiet[0]] + (quiet[1..] + [final]);
    }
  }

  lemma LiveUpToFinal(w: World, steps: seq<Step>)
    ensures
      var k := FirstFinal(w, steps, 0);
      var quiet := Live(w, steps[..k]);
      if k == |steps| then UpToFinal(Live(w, steps)) == quiet
      else
        var final := Apply(After(w, steps[..k]).session, steps[k]).events;
        |final| == 1 && Final(final[0]) && UpToFinal(Live(w, steps)) == quiet + final
  {
    hide Live, Apply, After, UpToFinal;
    var k := FirstFinal(w, steps, 0);
    QuietBefore(w, steps, k);
    if k == |steps| {
      assert steps[..k] == steps;
      OnlyTheLastIsFinal(Live(w, steps));
    } else {
      var session := After(w, steps[..k]).session;
      EventsOf(session, steps[k]);
      var final := Apply(session, steps[k]).events;
      assert SendsFinal(w, steps, k);
      LiveOfPrefix(w, steps, k);
      LiveIsLonger(w, steps, k + 1);
      var rest := Live(w, steps)[|Live(w, steps[..k + 1])|..];
      assert final == [final[0]];
      assert Live(w, steps) == Live(w, steps[..k]) + [final[0]] + rest;
      UpToFinalStops(Live(w, steps[..k]), final[0], rest);
    }
  }

  /** What is sent live carries the chunks recorded before the final event, and no others. */
  lemma ChunksUpToFinal(w: World, steps: seq<Step>)
    requires Consistent(w) && Run(w, steps)
    ensures
      var there := After(w, steps[..FirstFinal(w, steps, 0)]);
      |w.history| <= |there.history| && |Chunks(UpToFinal(Live(w, steps)))| == |there.history| - |w.history|
  {
    hide Consistent, After, Live, UpToFinal, Chunks, Apply, SendsFinal, FirstFinal, Run;
    var k := FirstFinal(w, steps, 0);
    assert steps == steps[..k] + steps[k..];
    RunOfConcat(w, steps[..k], steps[k..]);
    LiveChunks(w, steps[..k]);
    LiveUpToFinal(w, steps);
    if k < |steps| {
      var final := Apply(After(w, steps[..k]).session, steps[k]).events;
      NoChunks(final);
      ChunksOfConcat(Live(w, steps[..k]), final);
    }
  }

  /** What an attach is sent, in every run: the recorded chunks from its starting point on without a
      duplicate or a hole, up to where the stream stops.  It stops after the one exit or close event, having
      sent everything recorded before that event, or follows the session to the end; the exit of a session
      that had already exited comes right after the replay, and later output is then not sent. */
  lemma StreamIsContiguous(info: Info, before: seq<Step>, w: World, attach: Step, steps: seq<Step>)
    requires Reached(info, before, w) && Numbered(w.history)
    requires attach.Attach? && Apply(w.session, attach).reply.Attached?
    requires Enabled(w, attach) && Run(Advance(w, attach), steps)
    ensures |w.session.output| <= |w.history|
    ensures
      var end := After(Advance(w, attach), steps);
      var live := Live(Advance(w, attach), steps);
      var sent := Streamed(w.session.info, Apply(w.session, attach).reply.replay, live);
      var start := DeliveryStart(w, attach.afterSeq);
      var stop := start + |Chunks(sent)|;
      && |w.history| <= stop <= |end.history|
      && Chunks(sent) == AsChunks(end.history[start..stop])
      && (forall i | 0 <= i < |sent| - 1 :: !Final(sent[i]))
      && (w.session.info.exit.Some? ==>
        stop == |w.history| && sent != [] && Last(sent) == SessionExited(w.session.info.exit.value))
      && (w.session.info.exit.None? && (forall i | 0 <= i < |live| :: !Final(live[i])) ==> stop == |end.history|)
      && (w.session.info.exit.None? ==>
        stop == |After(Advance(w, attach), steps[..FirstFinal(Advance(w, attach), steps, 0)]).history|)
  {
    hide Consistent, Numbered, Chunks, Live, Streamed, Apply, Advance, After, Run, DeliveryStart, FirstFinal;
    ReachedIsConsistent(info, before, w);
    AttachDelivers(info, before, w, attach, steps);
    ReplayChunkCount(w, attach);
    ReplayIsNotFinal(w, attach);
    var end, live := After(Advance(w, attach), steps), Live(Advance(w, attach), steps);
    var replay := Apply(w.session, attach).reply.replay;
    StreamedChunks(w.session.info, replay, live, end.history, DeliveryStart(w, attach.afterSeq));
    StreamedFinals(w.session.info, replay, live);
    if w.session.info.exit.None? {
      StreamStopsAtFinal(w, attach, steps);
    }
  }

  lemma StreamStopsAtFinal(w: World, attach: Step, steps: seq<Step>)
    requires Consistent(w) && Numbered(w.history) && w.session.info.exit.None?
    requires attach.Attach? && Apply(w.session, attach).reply.Attached?
    requires Enabled(w, attach) && Run(Advance(w, attach), steps)
    ensures |w.session.output| <= |w.history|
    ensures
      var here := Advance(w, attach);
      var sent := Streamed(w.session.info, Apply(w.session, attach).reply.replay, Live(here, steps));
      DeliveryStart(w, attach.afterSeq) + |Chunks(sent)| == |After(here, steps[..FirstFinal(here, steps, 0)]).history|
  {
    hide Numbered, Chunks, Live, Apply, Advance, After, Run, DeliveryStart, FirstFinal, UpToFinal;
    OutputIsSuffix(w);
    ReplayChunkCount(w, attach);
    ConsistentStep(w, attach);
    AttachReplays(w, attach);
    hide Consistent;
    ChunksUpToFinal(Advance(w, attach), steps);
    ChunksOfConcat(Apply(w.session, attach).reply.replay, UpToFinal(Live(Advance(w, attach), steps)));
  }

  lemma ReplayChunkCount(w: World, attach: Step)
    requires Consistent(w) && Numbered(w.history)
    requires attach.Attach? && Apply(w.session, attach).reply.Attached?
    ensures |Chunks(Apply(w.session, attach).reply.replay)| == |w.history| - DeliveryStart(w, attach.afterSeq)
  {
    hide Chunks, Apply, GapNotice;
    AttachReplays(w, attach);
    ChunksOfGaps(GapNotice(w, attach.afterSeq), w.history[DeliveryStart(w, attach.afterSeq)..]);
  }
}
