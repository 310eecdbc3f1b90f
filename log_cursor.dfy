/** The resumption cursor and the request parameters of the live log tail
    (src/_components/deployment-logs.tsx): after the historical events are
    loaded, the tail asks only for events since the latest timestamp seen. */
module LogCursor {
  import opened Wrappers
  import opened Json
  import opened Text

  // ---------------------------------------------------------------------------
  // Resumption cursor (getLatestTimestamp)

  /** The timestamp an event carries: its top-level `created` when that is a
      number, otherwise `payload.created` when that is a number, otherwise
      none. */
  function EventTime(event: Json): (r: Option<int>)
    ensures event.GetNumber("created").Some? ==> r == event.GetNumber("created")
    ensures event.GetNumber("created").None? && event.Get("payload").Some?
            ==> r == event.Get("payload").value.GetNumber("created")
    ensures event.GetNumber("created").None? && event.Get("payload").None? ==> r.None?
  {
    match event.GetNumber("created")
    case Some(t) => Some(t)
    case None =>
      match event.Get("payload")
      case Some(payload) => payload.GetNumber("created")
      case None => None
  }

  /** One step of the reduce: `Math.max(latest, t)` for an event with a
      timestamp `t`, `latest` for one without. */
  function MaxStep(latest: int, event: Json): int {
    match EventTime(event)
    case Some(t) => if t > latest then t else latest
    case None => latest
  }

  /** The reduce from `latest` over `events`. Reading `created` of a `null`
      element throws a TypeError, which ends the reduce: `None`. */
  function LatestFrom(latest: int, events: seq<Json>): Option<int>
    decreases |events|
  {
    if events == [] then Some(latest)
    else if events[0].JNull? then None
    else LatestFrom(MaxStep(latest, events[0]), events[1..])
  }

  predicate HasNull(events: seq<Json>) {
    exists i :: 0 <= i < |events| && events[i].JNull?
  }

  /** `m` bounds every timestamp of `events` from above. */
  predicate BoundsTimes(m: int, events: seq<Json>) {
    forall i :: 0 <= i < |events| && EventTime(events[i]).Some? ==> EventTime(events[i]).value <= m
  }

  predicate IsTimeOf(m: int, events: seq<Json>) {
    exists i :: 0 <= i < |events| && EventTime(events[i]) == Some(m)
  }

  lemma {:induction false} LatestFromSpec(latest: int, events: seq<Json>)
    ensures LatestFrom(latest, events).None? <==> HasNull(events)
    ensures LatestFrom(latest, events).Some? ==>
              var m := LatestFrom(latest, events).value;
              latest <= m && BoundsTimes(m, events) && (m == latest || IsTimeOf(m, events))
    decreases |events|
  {
    if events != [] {
      var e, rest := events[0], events[1..];
      if !e.JNull? {
        var next := MaxStep(latest, e);
        LatestFromSpec(next, rest);
        assert HasNull(events) <==> HasNull(rest) by {
          if HasNull(rest) {
            var i :| 0 <= i < |rest| && rest[i].JNull?;
            assert events[i + 1] == rest[i];
          }
        }
        if LatestFrom(next, rest).Some? {
          var m := LatestFrom(next, rest).value;
          forall i | 0 <= i < |events| && EventTime(events[i]).Some?
            ensures EventTime(events[i]).value <= m
          {
            if i > 0 {
              assert events[i] == rest[i - 1];
            }
          }
          if m != next {
            var j :| 0 <= j < |rest| && EventTime(rest[j]) == Some(m);
            assert events[j + 1] == rest[j];
          } else if next != latest {
            assert EventTime(events[0]) == Some(m);
          }
        }
      }
    }
  }

  /** `getLatestTimestamp`: `None` when an event is `null` (the reduce
      throws); otherwise the largest timestamp of the batch, or 0 when it
      carries none (or only negative ones). */
  function LatestTimestamp(events: seq<Json>): (r: Option<int>)
    ensures r.None? <==> HasNull(events)
    ensures r.Some? ==> 0 <= r.value && BoundsTimes(r.value, events)
    ensures r.Some? && r.value != 0 ==> IsTimeOf(r.value, events)
    ensures !HasNull(events) && (forall i :: 0 <= i < |events| ==> EventTime(events[i]).None?)
            ==> r == Some(0)
  {
    LatestFromSpec(0, events);
    LatestFrom(0, events)
  }

  // ---------------------------------------------------------------------------
  // Live-tail request parameters (URLSearchParams)

  /** A JavaScript number, as far as the `since` guard can tell them apart.
      Finite values are integers here. */
  datatype JsNumber = Finite(v: int) | NaN | Infinity | NegInfinity

  type Params = seq<(string, string)>

  /** `params.get(key)`: the value of the first pair with that key. */
  function QueryGet(params: Params, key: string): Option<string> {
    if params == [] then None
    else if params[0].0 == key then Some(params[0].1)
    else QueryGet(params[1..], key)
  }

  function RemoveKey(params: Params, key: string): (r: Params)
    ensures QueryGet(r, key).None?
  {
    if params == [] then []
    else if params[0].0 == key then RemoveKey(params[1..], key)
    else [params[0]] + RemoveKey(params[1..], key)
  }

  /** `params.set(key, value)`: replaces the first pair with that key and
      drops the others, or appends the pair when the key is new. */
  function SetParam(params: Params, key: string, value: string): Params {
    if params == [] then [(key, value)]
    else if params[0].0 == key then [(key, value)] + RemoveKey(params[1..], key)
    else [params[0]] + SetParam(params[1..], key, value)
  }

  lemma {:induction false} RemoveKeyOthers(params: Params, key: string, other: string)
    requires other != key
    ensures QueryGet(RemoveKey(params, key), other) == QueryGet(params, other)
  {
    if params != [] {
      RemoveKeyOthers(params[1..], key, other);
    }
  }

  /** After `set`, `get` of that key gives the new value and every other key
      is unaffected. */
  lemma {:induction false} SetParamGet(params: Params, key: string, value: string, other: string)
    ensures QueryGet(SetParam(params, key, value), key) == Some(value)
    ensures other != key ==> QueryGet(SetParam(params, key, value), other) == QueryGet(params, other)
  {
    if params != [] {
      if params[0].0 == key {
        if other != key {
          RemoveKeyOthers(params[1..], key, other);
        }
      } else {
        SetParamGet(params[1..], key, value, other);
      }
    }
  }

  /** The team identifier is sent only when it is a non-empty string. */
  predicate IsTruthy(teamId: Option<string>) {
    teamId.Some? && teamId.value != ""
  }

  /** `since` passes the guard only when it is a finite number above zero. */
  predicate IsUsableSince(since: Option<JsNumber>) {
    since.Some? && since.value.Finite? && since.value.v > 0
  }

  /** The parameters of the live-tail request. */
  function LiveParams(teamId: Option<string>, since: Option<JsNumber>): Params {
    var base: Params := [("follow", "1"), ("limit", "-1")];
    var withTeam := if IsTruthy(teamId) then SetParam(base, "teamId", teamId.value) else base;
    if IsUsableSince(since) then SetParam(withTeam, "since", Decimal(since.value.v)) else withTeam
  }

  /** What the live-tail request carries: always `follow=1` and `limit=-1`;
      `teamId` exactly when it is a non-empty string; `since` exactly when it
      is a positive finite number, written in decimal so that it reads back
      as the same number. */
  lemma LiveParamsSpec(teamId: Option<string>, since: Option<JsNumber>)
    ensures var params := LiveParams(teamId, since);
            && QueryGet(params, "follow") == Some("1")
            && QueryGet(params, "limit") == Some("-1")
            && QueryGet(params, "teamId") == (if IsTruthy(teamId) then teamId else None)
            && (QueryGet(params, "since").Some? <==> IsUsableSince(since))
            && (IsUsableSince(since) ==> QueryGet(params, "since") == Some(Decimal(since.value.v)))
  {
    var base: Params := [("follow", "1"), ("limit", "-1")];
    var withTeam := if IsTruthy(teamId) then SetParam(base, "teamId", teamId.value) else base;
    if IsTruthy(teamId) {
      SetParamGet(base, "teamId", teamId.value, "follow");
      SetParamGet(base, "teamId", teamId.value, "limit");
      SetParamGet(base, "teamId", teamId.value, "since");
    }
    if IsUsableSince(since) {
      var d := Decimal(since.value.v);
      SetParamGet(withTeam, "since", d, "follow");
      SetParamGet(withTeam, "since", d, "limit");
      SetParamGet(withTeam, "since", d, "teamId");
    }
  }

  /** The cursor sent is the one computed: reading `since` back as a number
      gives the latest timestamp of the history. */
  lemma SinceRoundTrip(teamId: Option<string>, events: seq<Json>)
    requires LatestTimestamp(events).Some? && LatestTimestamp(events).value > 0
    ensures var since := LatestTimestamp(events).value;
            var got := QueryGet(LiveParams(teamId, Some(Finite(since))), "since");
            got.Some? && IsDigits(got.value) && DecimalValue(got.value) == since
  {
    var since := LatestTimestamp(events).value;
    LiveParamsSpec(teamId, Some(Finite(since)));
    DecimalRoundTrip(since);
  }
}
