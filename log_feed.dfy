/** The log feed of one deployment view (src/_components/deployment-logs.tsx):
    the component state (`logs`, `isLoadingLogs`) and the effect that loads
    the history and, while the deployment is still building, tails the live
    stream into it.

    Each run of the effect is an `EffectRun` holding the closure variables of
    that run (`cancelled`, `stopStreaming`, `buffer`); the effect's cleanup is
    `Cleanup`. The awaited network results arrive as method arguments: the
    historical response, whether the stream response has a body, and the
    outcome of each `reader.read()`. */
module LogFeed {
  import opened Wrappers
  import opened Json
  import opened Text
  import opened LogSegments
  import opened LogCursor

  /** The outcome of one `await reader.read()`. */
  datatype Read =
    | Chunk(text: string)   // `{ done: false, value }`, already decoded
    | Done                  // `{ done: true }`
    | Failed                // the read rejected: aborted or a transport error

  /** One iteration's read, and whether the effect's cleanup ran while the
      read was pending. */
  datatype Step = Step(cancelledMeanwhile: bool, read: Read)

  /** A step that ends the appending: a cleanup, the end of the stream or a
      failed read. */
  predicate IsStop(step: Step) {
    step.cancelledMeanwhile || !step.read.Chunk?
  }

  /** The text of the chunks read before the first stopping step. */
  function ChunksBeforeStop(steps: seq<Step>): string {
    if steps == [] || IsStop(steps[0]) then ""
    else steps[0].read.text + ChunksBeforeStop(steps[1..])
  }

  /** Some step stops the loop. */
  predicate Stops(steps: seq<Step>) {
    steps != [] && (IsStop(steps[0]) || Stops(steps[1..]))
  }

  /** The first stopping step is a cleanup. */
  predicate CleanedUp(steps: seq<Step>) {
    steps != [] &&
    if IsStop(steps[0]) then steps[0].cancelledMeanwhile else CleanedUp(steps[1..])
  }

  /** The first stopping step is the end of the stream, with no cleanup. */
  predicate EndsWithDone(steps: seq<Step>) {
    steps != [] &&
    if IsStop(steps[0]) then !steps[0].cancelledMeanwhile && steps[0].read.Done?
    else EndsWithDone(steps[1..])
  }

  /** The events the live tail appends: none when the run was already
      cancelled or the response has no body; every record of the text read
      when the stream ends normally; otherwise only the records closed by a
      delimiter before the cleanup, the failure, or the last read so far. */
  function TailEvents(cancelled: bool, hasBody: bool, steps: seq<Step>, parse: Parser): seq<Json> {
    if cancelled || !hasBody then []
    else if EndsWithDone(steps) then StreamEvents(ChunksBeforeStop(steps), parse)
    else CompleteEvents(ChunksBeforeStop(steps), parse)
  }

  /** Nothing read after a cleanup reaches the feed, whatever follows it. */
  lemma {:induction false} CleanupCutsOff(before: Step, steps: seq<Step>, after: seq<Step>, parse: Parser)
    requires !Stops(steps) && before.cancelledMeanwhile
    ensures TailEvents(false, true, steps + [before] + after, parse)
         == CompleteEvents(ChunksBeforeStop(steps), parse)
  {
    CutsOffAt(steps, before, after);
  }

  lemma {:induction false} CutsOffAt(steps: seq<Step>, stop: Step, after: seq<Step>)
    requires !Stops(steps) && stop.cancelledMeanwhile
    ensures ChunksBeforeStop(steps + [stop] + after) == ChunksBeforeStop(steps)
    ensures !EndsWithDone(steps + [stop] + after)
  {
    var all := steps + [stop] + after;
    if steps == [] {
      assert all[0] == stop;
    } else {
      assert all[0] == steps[0];
      assert all[1..] == steps[1..] + [stop] + after;
      CutsOffAt(steps[1..], stop, after);
    }
  }

  /** How the step functions read one step at position `i`. */
  lemma StepUnfold(steps: seq<Step>, i: nat)
    requires i < |steps|
    ensures !IsStop(steps[i]) ==>
              && ChunksBeforeStop(steps[i..]) == steps[i].read.text + ChunksBeforeStop(steps[i + 1..])
              && (EndsWithDone(steps[i..]) <==> EndsWithDone(steps[i + 1..]))
              && (Stops(steps[i..]) <==> Stops(steps[i + 1..]))
              && (CleanedUp(steps[i..]) <==> CleanedUp(steps[i + 1..]))
    ensures IsStop(steps[i]) ==>
              && ChunksBeforeStop(steps[i..]) == ""
              && Stops(steps[i..])
              && (CleanedUp(steps[i..]) <==> steps[i].cancelledMeanwhile)
              && (EndsWithDone(steps[i..]) <==> !steps[i].cancelledMeanwhile && steps[i].read.Done?)
  {
    assert steps[i..][0] == steps[i] && steps[i..][1..] == steps[i + 1..];
  }

  /** The result of a history fetch: the response when it is an array,
      otherwise nothing. Entries are not filtered. */
  function HistoryEvents(response: Json): seq<Json> {
    if response.JArray? then response.elems else []
  }

  /** The rendering-facing state of the component. */
  class LogsView {
    var logs: seq<Json>
    var isLoadingLogs: bool

    constructor ()
      ensures logs == [] && isLoadingLogs
    {
      logs := [];
      isLoadingLogs := true;
    }

    /** `appendLogs`: an empty batch leaves the feed alone, any other is
        added at the end. */
    method AppendLogs(entries: seq<Json>)
      modifies this
      ensures logs == old(logs) + entries
      ensures isLoadingLogs == old(isLoadingLogs)
    {
      if |entries| == 0 {
        return;
      }
      logs := logs + entries;
    }

    /** The effect body up to its first await: reset the feed and start a run
        with fresh closure variables. */
    method StartEffect() returns (run: EffectRun)
      modifies this
      ensures fresh(run) && run.view == this
      ensures logs == [] && isLoadingLogs
      ensures !run.cancelled && !run.streamOpened && !run.aborted && run.buffer == ""
    {
      logs := [];
      isLoadingLogs := true;
      run := new EffectRun(this);
    }

    /** A change of deployment (or of team): the old run's cleanup, then a
        new run. The old run can no longer change the feed. */
    method Restart(previous: EffectRun) returns (run: EffectRun)
      requires previous.view == this
      modifies this, previous
      ensures previous.cancelled
      ensures previous.aborted == (old(previous.aborted) || old(previous.streamOpened))
      ensures previous.streamOpened == old(previous.streamOpened) && previous.buffer == old(previous.buffer)
      ensures fresh(run) && run.view == this
      ensures !run.cancelled && !run.streamOpened && !run.aborted && run.buffer == ""
      ensures logs == [] && isLoadingLogs
    {
      previous.Cleanup();
      run := StartEffect();
    }
  }

  /** The closure variables of one run of the effect. */
  class EffectRun {
    const view: LogsView
    var cancelled: bool
    var streamOpened: bool  // `stopStreaming` is set
    var aborted: bool       // `controller.abort()` was called
    var buffer: string

    constructor (view: LogsView)
      ensures this.view == view
      ensures !cancelled && !streamOpened && !aborted && buffer == ""
    {
      this.view := view;
      cancelled := false;
      streamOpened := false;
      aborted := false;
      buffer := "";
    }

    /** The cleanup: mark the run cancelled and abort the stream if one was
        opened. Safe to run at any time, and running it twice changes
        nothing more. */
    method Cleanup()
      modifies this
      ensures cancelled
      ensures aborted == (old(aborted) || old(streamOpened))
      ensures streamOpened == old(streamOpened) && buffer == old(buffer)
    {
      cancelled := true;
      if streamOpened {
        aborted := true;
      }
    }

    /** The history request succeeded with `response`. A cancelled run does
        nothing. Otherwise the feed is replaced by the response and loading
        ends; when the deployment is building the live tail is opened with
        the request parameters returned, unless computing the cursor threw
        (a `null` entry), which the surrounding catch absorbs. */
    method HistoryLoaded(response: Json, building: bool, teamId: Option<string>)
      returns (request: Option<Params>)
      modifies this, view
      ensures old(cancelled) ==> request.None? && unchanged(this) && unchanged(view)
      ensures !old(cancelled) ==> view.logs == HistoryEvents(response) && !view.isLoadingLogs
      ensures request.Some?
              <==> !old(cancelled) && building && LatestTimestamp(HistoryEvents(response)).Some?
      ensures request.Some? ==>
                request.value == LiveParams(teamId, Some(Finite(LatestTimestamp(HistoryEvents(response)).value)))
                && streamOpened
      ensures cancelled == old(cancelled) && aborted == old(aborted) && buffer == old(buffer)
      ensures request.None? ==> streamOpened == old(streamOpened)
    {
      request := None;
      if cancelled {
        return;
      }
      var events := HistoryEvents(response);
      view.logs := events;
      view.isLoadingLogs := false;
      if building {
        var latest := LatestTimestamp(events);
        if latest.Some? {
          request := Some(LiveParams(teamId, Some(Finite(latest.value))));
          streamOpened := true;
        }
      }
    }

    /** The history request failed: loading ends unless the run was
        cancelled; the feed is untouched. */
    method HistoryFailed()
      modifies view
      ensures view.logs == old(view.logs)
      ensures view.isLoadingLogs == (old(view.isLoadingLogs) && cancelled)
    {
      if !cancelled {
        view.isLoadingLogs := false;
      }
    }

    /** `handleSegment`: the record's events are appended unless the run was
        cancelled. */
    method HandleSegment(segment: string, parse: Parser)
      modifies view
      ensures view.logs == old(view.logs) + (if cancelled then [] else SegmentEvents(segment, parse))
      ensures view.isLoadingLogs == old(view.isLoadingLogs)
    {
      var entries := SegmentEvents(segment, parse);
      if !cancelled {
        view.AppendLogs(entries);
      }
    }

    /** `for (const segment of segments) handleSegment(segment)`. */
    method HandleSegments(segments: seq<string>, parse: Parser)
      modifies view
      ensures cancelled ==> view.logs == old(view.logs)
      ensures !cancelled ==> view.logs == old(view.logs) + SegmentsEvents(segments, parse)
      ensures view.isLoadingLogs == old(view.isLoadingLogs)
    {
      var j := 0;
      while j < |segments|
        invariant 0 <= j <= |segments|
        invariant cancelled ==> view.logs == old(view.logs)
        invariant !cancelled ==> view.logs == old(view.logs) + SegmentsEvents(segments[..j], parse)
        invariant view.isLoadingLogs == old(view.isLoadingLogs)
      {
        HandleSegment(segments[j], parse);
        SegmentsEventsSnoc(segments, j, parse);
        j := j + 1;
      }
      assert segments[..j] == segments;
    }

    /** One successful read: the decoded chunk joins the buffer, the
        records it closes are handled and the rest stays buffered. When the
        buffer holds what is left of the text `seen` read so far, and the
        feed ends with the events of the records `seen` closes, both move on
        to `seen + text`. */
    method ReadChunk(ghost base: seq<Json>, ghost seen: string, text: string, parse: Parser)
      requires !cancelled ==> buffer == Last(Split(seen, RecordDelimiter))
      requires !cancelled ==> view.logs == base + CompleteEvents(seen, parse)
      modifies this, view
      ensures !cancelled ==> buffer == Last(Split(seen + text, RecordDelimiter))
      ensures cancelled ==> view.logs == old(view.logs)
      ensures !cancelled ==> view.logs == base + CompleteEvents(seen + text, parse)
      ensures cancelled == old(cancelled) && view.isLoadingLogs == old(view.isLoadingLogs)
      ensures streamOpened == old(streamOpened) && aborted == old(aborted)
    {
      var (complete, rest) := Feed(buffer, text);
      if !cancelled {
        CompleteEventsExtend(seen, text, parse);
        AppendAssociative(base, CompleteEvents(seen, parse), SegmentsEvents(complete, parse));
      }
      buffer := rest;
      HandleSegments(complete, parse);
    }

    /** After the read loop: a non-empty buffer is split once more and its
        records handled. */
    method Flush(parse: Parser)
      modifies view
      ensures view.logs == old(view.logs) + (if cancelled then [] else FlushEvents(buffer, parse))
      ensures view.isLoadingLogs == old(view.isLoadingLogs)
    {
      if buffer != "" {
        var trailing := Split(buffer, RecordDelimiter);
        HandleSegments(trailing, parse);
      }
    }

    /** The read loop of the live tail, from an uncancelled run with an
        empty buffer: it reads until the run is cancelled, the stream ends,
        a read fails (`threw`) or `steps` runs out (`reading` and not
        cancelled). `seen` is the text of the chunks read. */
    method ReadLoop(steps: seq<Step>, parse: Parser) returns (threw: bool, reading: bool, ghost seen: string)
      requires !cancelled && buffer == ""
      modifies this, view
      ensures view.isLoadingLogs == old(view.isLoadingLogs)
      ensures view.logs == old(view.logs) + CompleteEvents(seen, parse)
      ensures !cancelled ==> buffer == Last(Split(seen, RecordDelimiter))
      ensures seen == ChunksBeforeStop(steps)
      ensures reading && !cancelled <==> !Stops(steps)
      ensures reading && !cancelled ==> !EndsWithDone(steps)
      ensures !reading && !cancelled && !threw ==> EndsWithDone(steps)
      ensures threw ==> !reading
      ensures threw || cancelled ==> !EndsWithDone(steps)
      ensures streamOpened == old(streamOpened)
      ensures aborted == (old(aborted) || (cancelled && old(streamOpened)))
      ensures cancelled <==> CleanedUp(steps)
    {
      var i := 0;
      reading := true;
      threw := false;
      seen := "";
      while reading && !cancelled && i < |steps|
        invariant 0 <= i <= |steps|
        invariant view.isLoadingLogs == old(view.isLoadingLogs)
        invariant view.logs == old(view.logs) + CompleteEvents(seen, parse)
        invariant !cancelled ==> buffer == Last(Split(seen, RecordDelimiter))
        invariant reading && !cancelled ==> seen + ChunksBeforeStop(steps[i..]) == ChunksBeforeStop(steps)
        invariant reading && !cancelled ==> (EndsWithDone(steps[i..]) <==> EndsWithDone(steps))
        invariant reading && !cancelled ==> (Stops(steps[i..]) <==> Stops(steps))
        invariant reading && !cancelled ==> (CleanedUp(steps[i..]) <==> CleanedUp(steps))
        invariant !reading || cancelled ==> seen == ChunksBeforeStop(steps) && Stops(steps)
        invariant !reading && !cancelled && !threw ==> EndsWithDone(steps)
        invariant threw ==> !reading
        invariant threw || cancelled ==> !EndsWithDone(steps)
        invariant streamOpened == old(streamOpened)
        invariant aborted == (old(aborted) || (cancelled && old(streamOpened)))
        invariant cancelled ==> CleanedUp(steps)
        invariant !reading && !cancelled ==> !CleanedUp(steps)
        decreases |steps| - i
      {
        var step := steps[i];
        StepUnfold(steps, i);
        if step.cancelledMeanwhile {
          Cleanup();
        }
        match step.read {
          case Failed =>
            threw := true;
            reading := false;
          case Done =>
            reading := false;
          case Chunk(text) =>
            ReadChunk(old(view.logs), seen, text, parse);
            if !cancelled {
              AppendAssociative(seen, text, ChunksBeforeStop(steps[i + 1..]));
              seen := seen + text;
            }
        }
        i := i + 1;
      }
      if reading && !cancelled {
        assert steps[i..] == [];
      }
    }

    /** The live tail once the stream response arrived: `steps` are the reads
        in order. A run cancelled meanwhile, or a response without a body,
        reads nothing. The loop reads until the run is cancelled, the stream
        ends or a read fails; after a cancellation or the end of the stream
        the buffer is flushed. When `steps` runs out first the loop is still
        waiting for the next read. The run ends cancelled exactly when it
        was, or when a cleanup came before the stream stopped, and its
        stream is then aborted if it was opened. */
    method Tail(hasBody: bool, steps: seq<Step>, parse: Parser)
      modifies this, view
      ensures view.logs == old(view.logs) + TailEvents(old(cancelled), hasBody, steps, parse)
      ensures view.isLoadingLogs == old(view.isLoadingLogs)
      ensures !old(cancelled) && hasBody && !Stops(steps)
              ==> !cancelled && buffer == Last(Split(ChunksBeforeStop(steps), RecordDelimiter))
      ensures old(cancelled) || !hasBody ==> buffer == old(buffer)
      ensures streamOpened == old(streamOpened)
      ensures cancelled == (old(cancelled) || (hasBody && CleanedUp(steps)))
      ensures aborted == (old(aborted) || (cancelled && !old(cancelled) && old(streamOpened)))
    {
      if cancelled || !hasBody {
        return;
      }
      buffer := "";
      var threw, reading, seen := ReadLoop(steps, parse);
      if threw {
        assert TailEvents(false, true, steps, parse) == CompleteEvents(seen, parse);
        return;
      }
      if !reading || cancelled {
        ghost var handled := CompleteEvents(seen, parse);
        Flush(parse);
        if !cancelled {
          FlushCompletes(seen, parse);
          AppendAssociative(old(view.logs), handled, FlushEvents(buffer, parse));
          assert TailEvents(false, true, steps, parse) == StreamEvents(seen, parse);
        } else {
          assert TailEvents(false, true, steps, parse) == CompleteEvents(seen, parse);
        }
      } else {
        assert TailEvents(false, true, steps, parse) == CompleteEvents(seen, parse);
      }
    }
  }
}
