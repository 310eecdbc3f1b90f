/** The record parser of the live log tail (src/_components/deployment-logs.tsx):
    the response body is text cut into records by a blank line ("\n\n");
    inside a record only `data:` lines count; their payload text is parsed as
    JSON and every object (or array) it yields becomes one log event.

    `JSON.parse` is a parameter: a `Parser` returns `None` where the real one
    throws. */
module LogSegments {
  import opened Wrappers
  import opened Json
  import opened Text

  const RecordDelimiter: string := "\n\n"
  const LineBreak: string := "\n"
  const DataPrefix: string := "data:"
  const DoneSentinel: string := "[DONE]"

  type Parser = string -> Option<Json>

  // ---------------------------------------------------------------------------
  // Lines of one record: split('\n'), filter(startsWith('data:')),
  // map(slice(5).trim()), filter(Boolean)

  predicate IsDataLine(line: string) {
    StartsWith(line, DataPrefix)
  }

  function DataLines(lines: seq<string>): (r: seq<string>)
    ensures forall k :: 0 <= k < |r| ==> IsDataLine(r[k])
  {
    if lines == [] then []
    else (if IsDataLine(lines[0]) then [lines[0]] else []) + DataLines(lines[1..])
  }

  /** `line.slice(5).trim()`. */
  function StripData(line: string): string {
    Trim(if |line| >= |DataPrefix| then line[|DataPrefix|..] else "")
  }

  function StripAll(lines: seq<string>): (r: seq<string>)
    ensures |r| == |lines|
    ensures forall k :: 0 <= k < |r| ==> r[k] == StripData(lines[k])
  {
    if lines == [] then [] else [StripData(lines[0])] + StripAll(lines[1..])
  }

  function NonEmpty(lines: seq<string>): (r: seq<string>)
    ensures forall k :: 0 <= k < |r| ==> r[k] != ""
  {
    if lines == [] then []
    else (if lines[0] != "" then [lines[0]] else []) + NonEmpty(lines[1..])
  }

  /** The payload lines of a record, given its lines. */
  function LinePayloads(lines: seq<string>): seq<string> {
    NonEmpty(StripAll(DataLines(lines)))
  }

  lemma {:induction false} DataLinesAppend(a: seq<string>, b: seq<string>)
    ensures DataLines(a + b) == DataLines(a) + DataLines(b)
  {
    if a != [] {
      assert (a + b)[0] == a[0] && (a + b)[1..] == a[1..] + b;
      DataLinesAppend(a[1..], b);
      AppendAssociative((if IsDataLine(a[0]) then [a[0]] else []), DataLines(a[1..]), DataLines(b));
    } else {
      assert a + b == b;
    }
  }

  lemma {:induction false} StripAllAppend(a: seq<string>, b: seq<string>)
    ensures StripAll(a + b) == StripAll(a) + StripAll(b)
  {
    if a != [] {
      assert (a + b)[0] == a[0] && (a + b)[1..] == a[1..] + b;
      StripAllAppend(a[1..], b);
      AppendAssociative([StripData(a[0])], StripAll(a[1..]), StripAll(b));
    } else {
      assert a + b == b;
    }
  }

  lemma {:induction false} NonEmptyAppend(a: seq<string>, b: seq<string>)
    ensures NonEmpty(a + b) == NonEmpty(a) + NonEmpty(b)
  {
    if a != [] {
      assert (a + b)[0] == a[0] && (a + b)[1..] == a[1..] + b;
      NonEmptyAppend(a[1..], b);
      AppendAssociative((if a[0] != "" then [a[0]] else []), NonEmpty(a[1..]), NonEmpty(b));
    } else {
      assert a + b == b;
    }
  }

  /** Lines contribute independently and in their original order. */
  lemma LinePayloadsAppend(a: seq<string>, b: seq<string>)
    ensures LinePayloads(a + b) == LinePayloads(a) + LinePayloads(b)
  {
    DataLinesAppend(a, b);
    StripAllAppend(DataLines(a), DataLines(b));
    NonEmptyAppend(StripAll(DataLines(a)), StripAll(DataLines(b)));
  }

  /** A single line contributes its trimmed text after `data:` when it is a
      `data:` line whose text is not blank, and nothing otherwise. */
  lemma LinePayloadsSingle(line: string)
    ensures LinePayloads([line])
         == if IsDataLine(line) && StripData(line) != "" then [StripData(line)] else []
  {
    assert [line][1..] == [];
    if IsDataLine(line) {
      assert DataLines([line]) == [line] + DataLines([]);
      assert StripAll([line]) == [StripData(line)] + StripAll([]);
      assert [StripData(line)][1..] == [];
      assert NonEmpty([StripData(line)])
          == (if StripData(line) != "" then [StripData(line)] else []) + NonEmpty([]);
    } else {
      assert DataLines([line]) == [] + DataLines([]);
    }
  }

  // ---------------------------------------------------------------------------
  // Newline-freeness, so that the joined payload splits back into its lines

  predicate NoLineBreak(s: string) {
    forall k :: 0 <= k < |s| ==> s[k] != '\n'
  }

  lemma NoLineBreakContains(s: string)
    ensures NoLineBreak(s) <==> !Contains(s, LineBreak)
  {
    NotContains(s, LineBreak);
    forall k | 0 <= k < |s|
      ensures OccursAt(s, LineBreak, k) <==> s[k] == '\n'
    {
      assert |s[k..k + 1]| == 1 && s[k..k + 1][0] == s[k];
    }
    if !NoLineBreak(s) {
      var k :| 0 <= k < |s| && s[k] == '\n';
      assert OccursAt(s, LineBreak, k);
    }
  }

  lemma StripDataKeepsNoLineBreak(line: string)
    requires NoLineBreak(line)
    ensures NoLineBreak(StripData(line))
  {
    if |line| >= |DataPrefix| {
      var t := line[|DataPrefix|..];
      var r := Trim(t);
      var i := LeadingWhitespace(t);
      TrimSpec(t);
      forall k | 0 <= k < |r| ensures r[k] != '\n' {
        assert r[k] == t[i + k] == line[|DataPrefix| + i + k];
      }
    } else {
      assert StripData(line) == Trim("") == "";
    }
  }

  lemma {:induction false} LinePayloadsNoLineBreak(lines: seq<string>)
    requires forall k :: 0 <= k < |lines| ==> NoLineBreak(lines[k])
    ensures forall k :: 0 <= k < |LinePayloads(lines)| ==> NoLineBreak(LinePayloads(lines)[k])
  {
    if lines != [] {
      var line := lines[0];
      assert lines == [line] + lines[1..];
      LinePayloadsAppend([line], lines[1..]);
      LinePayloadsSingle(line);
      LinePayloadsNoLineBreak(lines[1..]);
      StripDataKeepsNoLineBreak(line);
    }
  }

  lemma JoinStartsWithFirst(parts: seq<string>, sep: string)
    requires |parts| >= 1
    ensures |Join(parts, sep)| >= |parts[0]|
  {
  }

  // ---------------------------------------------------------------------------
  // One record

  /** The payload text of a record: its payload lines joined with "\n", or
      `None` when it has no non-blank `data:` line. The payload is never empty
      and splits back on "\n" into exactly those lines, in order. */
  function Payload(segment: string): (r: Option<string>)
    ensures r.None? <==> LinePayloads(Split(segment, LineBreak)) == []
    ensures r.Some? ==> r.value != ""
    ensures r.Some? ==> Split(r.value, LineBreak) == LinePayloads(Split(segment, LineBreak))
  {
    var pieces := Split(segment, LineBreak);
    var lines := LinePayloads(pieces);
    if |lines| == 0 then None
    else
      SplitPartsLackSeparator(segment, LineBreak);
      forall k | 0 <= k < |pieces| ensures NoLineBreak(pieces[k]) {
        NoLineBreakContains(pieces[k]);
      }
      LinePayloadsNoLineBreak(pieces);
      forall k | 0 <= k < |lines| ensures !Contains(lines[k], LineBreak) {
        NoLineBreakContains(lines[k]);
      }
      SplitJoin(lines, LineBreak);
      JoinStartsWithFirst(lines, LineBreak);
      Some(Join(lines, LineBreak))
  }

  /** Keeps the object-like values, in order. */
  function ObjectsOf(values: seq<Json>): (r: seq<Json>)
    ensures forall k :: 0 <= k < |r| ==> r[k].IsObjectLike()
    ensures (forall k :: 0 <= k < |values| ==> values[k].IsObjectLike()) ==> r == values
  {
    if values == [] then []
    else (if values[0].IsObjectLike() then [values[0]] else []) + ObjectsOf(values[1..])
  }

  /** The filter keeps one value exactly when it is object-like, and the
      values of a concatenation are filtered part by part; together these
      say that every object-like value is kept, in its original order. */
  lemma {:induction false} ObjectsOfAppend(a: seq<Json>, b: seq<Json>)
    ensures ObjectsOf(a + b) == ObjectsOf(a) + ObjectsOf(b)
    ensures forall x :: ObjectsOf([x]) == if x.IsObjectLike() then [x] else []
  {
    forall x ensures ObjectsOf([x]) == if x.IsObjectLike() then [x] else [] {
      assert [x][1..] == [];
    }
    if a == [] {
      assert a + b == b;
    } else {
      assert (a + b)[0] == a[0];
      assert (a + b)[1..] == a[1..] + b;
      ObjectsOfAppend(a[1..], b);
      var head := if a[0].IsObjectLike() then [a[0]] else [];
      Text.AppendAssociative(head, ObjectsOf(a[1..]), ObjectsOf(b));
    }
  }

  /** The log events one parsed payload yields: the object-like elements of
      an array, in array order; a lone object itself; nothing for `null` or
      a primitive. */
  function Entries(v: Json): (r: seq<Json>)
    ensures forall k :: 0 <= k < |r| ==> r[k].IsObjectLike()
    ensures v.JArray? ==> r == ObjectsOf(v.elems)
    ensures v.JObject? ==> r == [v]
    ensures !v.IsObjectLike() ==> r == []
  {
    ObjectsOf(if v.JArray? then v.elems else [v])
  }

  /** `handleSegment`: the events one record contributes. */
  function SegmentEvents(segment: string, parse: Parser): (r: seq<Json>)
    ensures forall k :: 0 <= k < |r| ==> r[k].IsObjectLike()
    ensures Payload(segment).None? ==> r == []
    ensures Payload(segment) == Some(DoneSentinel) ==> r == []
    ensures Payload(segment).Some? && parse(Payload(segment).value).None? ==> r == []
    ensures Payload(segment).Some? && Payload(segment).value != DoneSentinel
            && parse(Payload(segment).value).Some?
            ==> r == Entries(parse(Payload(segment).value).value)
  {
    match Payload(segment)
    case None => []
    case Some(payload) =>
      if payload == "" || payload == DoneSentinel then []
      else
        match parse(payload)
        case None => []
        case Some(v) => Entries(v)
  }

  /** The events of a sequence of records, record after record. */
  function SegmentsEvents(segments: seq<string>, parse: Parser): (r: seq<Json>)
    ensures forall k :: 0 <= k < |r| ==> r[k].IsObjectLike()
  {
    if segments == [] then []
    else SegmentEvents(segments[0], parse) + SegmentsEvents(segments[1..], parse)
  }

  lemma {:induction false} SegmentsEventsAppend(a: seq<string>, b: seq<string>, parse: Parser)
    ensures SegmentsEvents(a + b, parse) == SegmentsEvents(a, parse) + SegmentsEvents(b, parse)
  {
    if a != [] {
      assert (a + b)[0] == a[0] && (a + b)[1..] == a[1..] + b;
      SegmentsEventsAppend(a[1..], b, parse);
      AppendAssociative(SegmentEvents(a[0], parse), SegmentsEvents(a[1..], parse), SegmentsEvents(b, parse));
    } else {
      assert a + b == b;
    }
  }

  lemma SegmentsEventsSingle(segment: string, parse: Parser)
    ensures SegmentsEvents([segment], parse) == SegmentEvents(segment, parse)
  {
    assert [segment][1..] == [];
  }

  /** Handling one more record appends exactly its events. */
  lemma SegmentsEventsSnoc(segments: seq<string>, j: nat, parse: Parser)
    requires j < |segments|
    ensures SegmentsEvents(segments[..j + 1], parse)
         == SegmentsEvents(segments[..j], parse) + SegmentEvents(segments[j], parse)
  {
    assert segments[..j + 1] == segments[..j] + [segments[j]];
    SegmentsEventsAppend(segments[..j], [segments[j]], parse);
    SegmentsEventsSingle(segments[j], parse);
  }

  /** A record that fails to parse contributes nothing and does not disturb
      the records around it. */
  lemma MalformedRecordSkipped(before: seq<string>, bad: string, after: seq<string>, parse: Parser)
    requires Payload(bad).Some? && parse(Payload(bad).value).None?
    ensures SegmentsEvents(before + [bad] + after, parse)
         == SegmentsEvents(before, parse) + SegmentsEvents(after, parse)
  {
    SegmentsEventsAppend(before + [bad], after, parse);
    SegmentsEventsAppend(before, [bad], parse);
    SegmentsEventsSingle(bad, parse);
  }

  /** An empty record yields no event. */
  lemma EmptySegmentNoEvents(parse: Parser)
    ensures SegmentEvents("", parse) == []
  {
    assert Split("", LineBreak) == [""];
    assert LinePayloads([""]) == [] by {
      assert [""][1..] == [];
    }
  }

  // ---------------------------------------------------------------------------
  // The buffer carried between reads

  /** One read: the buffer, extended by the chunk, is split on "\n\n"; every
      record before the last delimiter is complete, the text after it is the
      new buffer, which never holds a delimiter. */
  function Feed(buffer: string, chunk: string): (r: (seq<string>, string))
    ensures r.0 + [r.1] == Split(buffer + chunk, RecordDelimiter)
    ensures !Contains(r.1, RecordDelimiter)
  {
    var parts := Split(buffer + chunk, RecordDelimiter);
    SplitPartsLackSeparator(buffer + chunk, RecordDelimiter);
    (AllButLast(parts), Last(parts))
  }

  lemma AllButLastAppend<T>(a: seq<T>, b: seq<T>)
    requires |b| > 0
    ensures AllButLast(a + b) == a + AllButLast(b) && Last(a + b) == Last(b)
  {
  }

  function Concat(chunks: seq<string>): string {
    if chunks == [] then "" else chunks[0] + Concat(chunks[1..])
  }

  /** A sequence of reads starting from `buffer`: the complete records in the
      order they are handled, and the final buffer. */
  function FeedAll(buffer: string, chunks: seq<string>): (seq<string>, string)
    decreases |chunks|
  {
    if chunks == [] then ([], buffer)
    else
      var (complete, rest) := Feed(buffer, chunks[0]);
      var (later, final) := FeedAll(rest, chunks[1..]);
      (complete + later, final)
  }

  /** Chunk-boundary invariance: however the text is cut into chunks, the
      records handled are those of splitting the whole text on "\n\n", except
      the last, which stays in the buffer. */
  lemma {:induction false} ChunkBoundaryInvariance(buffer: string, chunks: seq<string>)
    requires !Contains(buffer, RecordDelimiter)
    ensures var parts := Split(buffer + Concat(chunks), RecordDelimiter);
            FeedAll(buffer, chunks) == (AllButLast(parts), Last(parts))
    decreases |chunks|
  {
    if chunks == [] {
      assert buffer + Concat(chunks) == buffer;
      assert IndexOf(buffer, RecordDelimiter).None?;
      assert Split(buffer, RecordDelimiter) == [buffer];
    } else {
      var c, later := chunks[0], Concat(chunks[1..]);
      var (complete, rest) := Feed(buffer, c);
      AllButLastSnoc(complete, rest);
      ChunkBoundaryInvariance(rest, chunks[1..]);
      var tail := Split(rest + later, RecordDelimiter);
      SplitAppend(buffer + c, later, RecordDelimiter);
      AppendAssociative(buffer, c, later);
      AllButLastAppend(complete, tail);
    }
  }

  /** One more read extends the records closed so far by exactly the records
      `Feed` reports, and leaves the remainder of the whole text read as the
      buffer. */
  lemma FeedExtends(seen: string, chunk: string)
    ensures var (complete, rest) := Feed(Last(Split(seen, RecordDelimiter)), chunk);
            && AllButLast(Split(seen + chunk, RecordDelimiter))
               == AllButLast(Split(seen, RecordDelimiter)) + complete
            && Last(Split(seen + chunk, RecordDelimiter)) == rest
  {
    var (complete, rest) := Feed(Last(Split(seen, RecordDelimiter)), chunk);
    SplitAppend(seen, chunk, RecordDelimiter);
    AllButLastAppend(AllButLast(Split(seen, RecordDelimiter)), complete + [rest]);
  }

  /** The events of every record of `text`. */
  function StreamEvents(text: string, parse: Parser): seq<Json> {
    SegmentsEvents(Split(text, RecordDelimiter), parse)
  }

  /** The events of the records of `text` closed by a delimiter. */
  function CompleteEvents(text: string, parse: Parser): seq<Json> {
    SegmentsEvents(AllButLast(Split(text, RecordDelimiter)), parse)
  }

  /** The events handled after one more read are those handled before plus
      those of the records the read closes. */
  lemma CompleteEventsExtend(seen: string, chunk: string, parse: Parser)
    ensures var (complete, rest) := Feed(Last(Split(seen, RecordDelimiter)), chunk);
            && CompleteEvents(seen + chunk, parse)
               == CompleteEvents(seen, parse) + SegmentsEvents(complete, parse)
            && Last(Split(seen + chunk, RecordDelimiter)) == rest
  {
    var (complete, rest) := Feed(Last(Split(seen, RecordDelimiter)), chunk);
    FeedExtends(seen, chunk);
    SegmentsEventsAppend(AllButLast(Split(seen, RecordDelimiter)), complete, parse);
  }

  /** The end-of-stream flush: a non-empty buffer is split once more and its
      records handled. */
  function FlushEvents(buffer: string, parse: Parser): seq<Json> {
    if buffer == "" then [] else SegmentsEvents(Split(buffer, RecordDelimiter), parse)
  }

  /** Flushing the remainder after the complete records yields the events of
      the whole text: no record is lost or handled twice at end of stream. */
  lemma FlushCompletes(text: string, parse: Parser)
    ensures var rest := Last(Split(text, RecordDelimiter));
            CompleteEvents(text, parse) + FlushEvents(rest, parse) == StreamEvents(text, parse)
  {
    var parts := Split(text, RecordDelimiter);
    var rest := Last(parts);
    SplitPartsLackSeparator(text, RecordDelimiter);
    FlushUndelimited(rest, parse);
    assert parts == AllButLast(parts) + [rest];
    SegmentsEventsAppend(AllButLast(parts), [rest], parse);
    SegmentsEventsSingle(rest, parse);
  }

  /** A buffer without a delimiter is flushed as one record. */
  lemma FlushUndelimited(rest: string, parse: Parser)
    requires !Contains(rest, RecordDelimiter)
    ensures FlushEvents(rest, parse) == SegmentEvents(rest, parse)
  {
    if rest == "" {
      EmptySegmentNoEvents(parse);
    } else {
      assert Split(rest, RecordDelimiter) == [rest];
      SegmentsEventsSingle(rest, parse);
    }
  }
}
