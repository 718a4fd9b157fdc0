/**
 * `InstantlySync.sync_campaign_results`: count the opened and replied events
 * of a campaign whose lead email is mapped to a variant. Each category's fetch
 * failure is recorded and does not stop the other category; nothing is
 * written to the A/B test store.
 */
module Sync {
  import opened Wrappers
  import opened Instantly

  /** A Python exception other than `InstantlyAPIError`, which escapes the sync. */
  datatype SyncCrash =
    | NoList(data: Json)             // `_extract_list` on a value without `.get`
    | NotIterable(value: Json)       // iterating a null, a boolean or a number
    | NotAnEvent(event: Json)        // `event.get` on a non-object
    | UnhashableEmail(email: Json)   // `email in variant_mapping` on a list or object
    | UnexpectedRequestFailure       // `_request` raising something other than `InstantlyAPIError`

  /** An entry of `summary["errors"]`. */
  datatype SyncError = OpensFetchFailed(e: ApiError) | RepliesFetchFailed(e: ApiError)

  datatype Summary = Summary(opensSynced: nat, repliesSynced: nat, errors: seq<SyncError>)

  /** Whether one event counts: an object whose "email" is a mapped lead. */
  function Matches(event: Json, mapping: map<string, string>): (r: Result<bool, SyncCrash>)
    ensures r == Success(true) <==> event.JObj? && "email" in event.fields && event.fields["email"].JStr? && event.fields["email"].s in mapping
    ensures r.Failure? <==> !event.JObj? || ("email" in event.fields && (event.fields["email"].JArr? || event.fields["email"].JObj?))
  {
    if !event.JObj? then Failure(NotAnEvent(event))
    else if "email" !in event.fields then Success(false)   // `None in variant_mapping`
    else match event.fields["email"]
      case JStr(e) => Success(e in mapping)
      case JArr(_) => Failure(UnhashableEmail(event.fields["email"]))
      case JObj(_, _) => Failure(UnhashableEmail(event.fields["email"]))
      case _ => Success(false)
  }

  /** The number of matching events, scanned left to right; the first bad event raises. */
  function CountMatches(events: seq<Json>, mapping: map<string, string>): (r: Result<nat, SyncCrash>)
    ensures r.Success? ==> r.value <= |events|
    decreases |events|
  {
    if events == [] then Success(0)
    else
      var prefix := CountMatches(events[..|events| - 1], mapping);
      if prefix.Failure? then prefix
      else match Matches(events[|events| - 1], mapping)
        case Failure(crash) => Failure(crash)
        case Success(hit) => Success(prefix.value + if hit then 1 else 0)
  }

  /** The counts of consecutive stretches of events add up; a crash in the first stretch wins. */
  lemma {:induction false} CountMatchesAppend(a: seq<Json>, b: seq<Json>, mapping: map<string, string>)
    ensures CountMatches(a, mapping).Failure? ==> CountMatches(a + b, mapping) == CountMatches(a, mapping)
    ensures CountMatches(a, mapping).Success? && CountMatches(b, mapping).Success? ==>
      CountMatches(a + b, mapping) == Success(CountMatches(a, mapping).value + CountMatches(b, mapping).value)
    ensures CountMatches(a, mapping).Success? && CountMatches(b, mapping).Failure? ==>
      CountMatches(a + b, mapping).Failure?
    decreases |b|
  {
    if b == [] {
      assert a + b == a;
    } else {
      var n := |b| - 1;
      assert (a + b)[..|a + b| - 1] == a + b[..n];
      assert (a + b)[|a + b| - 1] == b[n];
      CountMatchesAppend(a, b[..n], mapping);
    }
  }

  /** A repeated event is counted each time it occurs. */
  lemma CountMatchesTwice(events: seq<Json>, mapping: map<string, string>)
    requires CountMatches(events, mapping).Success?
    ensures CountMatches(events + events, mapping) == Success(2 * CountMatches(events, mapping).value)
  {
    CountMatchesAppend(events, events, mapping);
  }

  /** Every event is a mapped lead's object exactly when all of them count. */
  lemma {:induction false} CountMatchesAll(events: seq<Json>, mapping: map<string, string>)
    requires forall i :: 0 <= i < |events| ==> Matches(events[i], mapping) == Success(true)
    ensures CountMatches(events, mapping) == Success(|events|)
    decreases |events|
  {
    if events != [] {
      var n := |events| - 1;
      assert forall i :: 0 <= i < n ==> events[..n][i] == events[i];
      CountMatchesAll(events[..n], mapping);
    }
  }

  /** The positions of the events that count: objects whose "email" is a mapped lead. */
  function MatchedAt(events: seq<Json>, mapping: map<string, string>): set<nat>
  {
    set i: nat | i < |events| && Matches(events[i], mapping) == Success(true)
  }

  /**
   * The count completes exactly when every event can be read, and then it is
   * the number of events whose email is a mapped lead: each such event counts
   * once per occurrence and no other event counts.
   */
  lemma {:induction false} CountMatchesExact(events: seq<Json>, mapping: map<string, string>)
    ensures CountMatches(events, mapping).Success? <==> forall i :: 0 <= i < |events| ==> Matches(events[i], mapping).Success?
    ensures CountMatches(events, mapping).Success? ==> CountMatches(events, mapping).value == |MatchedAt(events, mapping)|
    decreases |events|
  {
    if events == [] {
      assert MatchedAt(events, mapping) == {};
    } else {
      var n := |events| - 1;
      CountMatchesExact(events[..n], mapping);
      MatchedAtSnoc(events, mapping);
    }
  }

  /** The last event adds its own position to the matched positions of the ones before it, or nothing. */
  lemma MatchedAtSnoc(events: seq<Json>, mapping: map<string, string>)
    requires events != []
    ensures var n := |events| - 1;
      (forall i :: 0 <= i < |events| ==> Matches(events[i], mapping).Success?) <==>
        (forall i :: 0 <= i < n ==> Matches(events[..n][i], mapping).Success?) && Matches(events[n], mapping).Success?
    ensures var n := |events| - 1; n !in MatchedAt(events[..n], mapping)
    ensures var n := |events| - 1;
      MatchedAt(events, mapping) == MatchedAt(events[..n], mapping) + (if Matches(events[n], mapping) == Success(true) then {n} else {})
  {
    var n := |events| - 1;
    assert forall i :: 0 <= i < n ==> events[..n][i] == events[i];
  }

  /** When no event is a mapped lead's object, nothing is counted. */
  lemma CountMatchesNone(events: seq<Json>, mapping: map<string, string>)
    requires forall i :: 0 <= i < |events| ==> Matches(events[i], mapping) == Success(false)
    ensures CountMatches(events, mapping) == Success(0)
  {
    CountMatchesExact(events, mapping);
    assert MatchedAt(events, mapping) == {};
  }

  /** The events iterated from what `get_lead_activity` returned, as `for event in opens` sees them. */
  function OpenEvents(data: Json): (r: Result<seq<Json>, SyncCrash>)
    ensures data.JArr? ==> r == Success(data.items)
    ensures data.JObj? && "activities" in data.fields && data.fields["activities"].JArr? ==> r == Success(data.fields["activities"].items)
    ensures !data.JArr? && !data.JObj? ==> r.Failure?
  {
    match ExtractList(data, "activities")
    case None => Failure(NoList(data))
    case Some(v) =>
      match Iterated(v)
      case None => Failure(NotIterable(v))
      case Some(events) => Success(events)
  }

  /**
   * `sync_campaign_results` once the opened-activity request returned
   * `opens` and the replies pagination ran as `replies`: it completes unless
   * an open or a reply cannot be read as an event or the pagination raises
   * something other than an API error; it then reports the mapped opens
   * (none when their fetch failed), the mapped replies yielded before the
   * pagination stopped, and one error per failed fetch, opens first.
   */
  function SyncSpec(mapping: map<string, string>, opens: Result<Json, ApiError>, replies: PageRun): (r: Result<Summary, SyncCrash>)
    ensures r.Success? <==>
      && (opens.Success? ==> OpenEvents(opens.value).Success? && CountMatches(OpenEvents(opens.value).value, mapping).Success?)
      && CountMatches(replies.items, mapping).Success?
      && !replies.stop.NoListIn? && !replies.stop.Uniterable?
      && (replies.stop.RequestFailed? ==> replies.stop.e.ApiFailure?)
    ensures r.Success? ==>
      && r.value.opensSynced == (if opens.Failure? then 0 else CountMatches(OpenEvents(opens.value).value, mapping).value)
      && r.value.repliesSynced == CountMatches(replies.items, mapping).value
      && r.value.errors ==
           (if opens.Failure? then [OpensFetchFailed(opens.error)] else [])
           + (if replies.stop.RequestFailed? then [RepliesFetchFailed(replies.stop.e.error)] else [])
  {
    var openCount :=
      if opens.Failure? then Success(0)
      else match OpenEvents(opens.value)
        case Failure(crash) => Failure(crash)
        case Success(events) => CountMatches(events, mapping);
    var openErrors := if opens.Failure? then [OpensFetchFailed(opens.error)] else [];
    if openCount.Failure? then Failure(openCount.error)
    else match CountMatches(replies.items, mapping)
      case Failure(crash) => Failure(crash)
      case Success(n) =>
        match replies.stop
        case RequestFailed(ApiFailure(e)) => Success(Summary(openCount.value, n, openErrors + [RepliesFetchFailed(e)]))
        case RequestFailed(_) => Failure(UnexpectedRequestFailure)
        case NoListIn(data) => Failure(NoList(data))
        case Uniterable(v) => Failure(NotIterable(v))
        case _ => Success(Summary(openCount.value, n, openErrors))
  }

  /**
   * The two fetches are isolated from each other: a failed opens fetch
   * leaves zero opens and one error in front, and the replies part is what it
   * would have been otherwise; a replies fetch that fails after some pages
   * keeps the replies yielded so far and adds its error at the end.
   */
  lemma FailureIsolation(mapping: map<string, string>, e: ApiError, opens: Result<Json, ApiError>, replies: PageRun)
    ensures var a, b := SyncSpec(mapping, Failure(e), replies), SyncSpec(mapping, opens, replies);
      b.Success? ==>
        && a.Success? && a.value.opensSynced == 0
        && a.value.repliesSynced == b.value.repliesSynced
        && a.value.errors[0] == OpensFetchFailed(e)
        && a.value.errors[1..] == b.value.errors[|b.value.errors| - |a.value.errors| + 1..]
    ensures var a := SyncSpec(mapping, opens, PageRun(replies.items, replies.skips, RequestFailed(ApiFailure(e))));
      var b := SyncSpec(mapping, opens, PageRun(replies.items, replies.skips, ShortPage));
      && (a.Success? <==> b.Success?)
      && (b.Success? ==> a.value == b.value.(errors := b.value.errors + [RepliesFetchFailed(e)]))
  {
  }

  /** One of the two counting loops of `sync_campaign_results`. */
  method CountEvents(events: seq<Json>, mapping: map<string, string>) returns (r: Result<nat, SyncCrash>)
    ensures r == CountMatches(events, mapping)
  {
    var synced: nat := 0;
    var i := 0;
    while i < |events|
      invariant 0 <= i <= |events|
      invariant CountMatches(events[..i], mapping) == Success(synced)
    {
      assert events[..i + 1][..i] == events[..i];
      var hit := Matches(events[i], mapping);
      if hit.Failure? {
        CountMatchesAppend(events[..i + 1], events[i + 1..], mapping);
        assert events[..i + 1] + events[i + 1..] == events;
        return Failure(hit.error);
      }
      if hit.value {
        synced := synced + 1;
      }
      i := i + 1;
    }
    assert events[..i] == events;
    r := Success(synced);
  }

  /** `sync_campaign_results`; it has no parameter through which it could write to the store. */
  method SyncCampaignResults(mapping: map<string, string>, opens: Result<Json, ApiError>, replies: PageRun)
    returns (r: Result<Summary, SyncCrash>)
    ensures r == SyncSpec(mapping, opens, replies)
  {
    var opensSynced: nat := 0;
    var errors: seq<SyncError> := [];
    if opens.Failure? {
      errors := [OpensFetchFailed(opens.error)];
    } else {
      var events := OpenEvents(opens.value);
      if events.Failure? {
        return Failure(events.error);
      }
      var counted := CountEvents(events.value, mapping);
      if counted.Failure? {
        return Failure(counted.error);
      }
      opensSynced := counted.value;
    }
    var counted := CountEvents(replies.items, mapping);
    if counted.Failure? {
      return Failure(counted.error);
    }
    var repliesSynced := counted.value;
    var replyErrors: seq<SyncError> := [];
    match replies.stop {
      case RequestFailed(failure) =>
        if !failure.ApiFailure? {
          return Failure(UnexpectedRequestFailure);
        }
        replyErrors := [RepliesFetchFailed(failure.error)];
      case NoListIn(data) =>
        return Failure(NoList(data));
      case Uniterable(v) =>
        return Failure(NotIterable(v));
      case _ =>
    }
    r := Success(Summary(opensSynced, repliesSynced, errors + replyErrors));
  }
}
