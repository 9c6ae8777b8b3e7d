/** When an artifact is fetched, in terms of what the servers answer: which answers are whole, which ones a later attempt
    may follow, and how often each source is asked. */
module DownloadOutcome {
  import opened Wrappers
  import opened Download

  // ---------------------------------------------------------------- answers

  /** The status and the headers promise the artifact, or exactly what is missing of it. */
  predicate Promises(entry: Entry, from: nat, response: Response)
  {
    && response.Answer?
    && (|| response.status == 200
        || (response.status == 206 && from > 0 && entry.size > 0 && response.range == Some(Range(from, entry.size - 1, entry.size))))
    && (response.length.Some? ==> response.length.value <= MAX_ARTIFACT)
    && (response.length.Some? && entry.size > 0 ==>
          response.length.value == if response.status == 200 then entry.size else entry.size - from)
  }

  /** The promised bytes arrive to the end and are stored. */
  predicate ArrivesWhole(entry: Entry, from: nat, response: Response)
  {
    && Promises(entry, from, response) && response.broken.None? && response.synced
    && (response.length.Some? ==> response.length.value == |response.body|)
  }

  /** The failed answer may be followed by another attempt. */
  predicate Passing(entry: Entry, from: nat, response: Response)
  {
    match response
    case NoAnswer(failure) => Temporary(failure)
    case Answer(status, after, _, _, _, broken, _) =>
      if status == 200 || status == 206 then Promises(entry, from, response) && broken.Some? && Temporary(broken.value)
      else Temporary(HttpStatus(status, after))
  }

  /** Where the next attempt resumes: behind the bytes that arrived, at the start when the answer did not fit. */
  function Rest(entry: Entry, from: nat, response: Response): nat
  {
    if response.NoAnswer? || (response.status != 200 && response.status != 206) then from
    else if entry.size == 0 || !Promises(entry, from, response) then 0
    else (if response.status == 200 then 0 else from) + |response.body|
  }

  predicate Complete(entry: Entry, from: nat)
  {
    entry.size > 0 && from == entry.size
  }

  // ---------------------------------------------------------------- asking a source

  /** What came of asking: whether the artifact is staged, the requests made, and where a later one resumes. */
  datatype Visit = Visit(staged: bool, requests: nat, offset: nat)

  /** Asking a server at most left times, until it answers whole or fails for good. */
  ghost function Ask(entry: Entry, server: Server, cancelled: nat -> bool, n: nat, from: nat, left: nat): Visit
    decreases left
  {
    if Complete(entry, from) then Visit(true, n, from)
    else
      var response := server(n, from);
      if ArrivesWhole(entry, from, response) then Visit(true, n + 1, Rest(entry, from, response))
      else if left <= 1 || cancelled(n + 1) || !Passing(entry, from, response) then Visit(false, n + 1, Rest(entry, from, response))
      else Ask(entry, server, cancelled, n + 1, Rest(entry, from, response), left - 1)
  }

  ghost function Call(entry: Entry, source: Source, cancelled: nat -> bool, n: nat, from: nat): Visit
  {
    match source
    case Http(server) => Ask(entry, server, cancelled, n, from, 3)
    case Local(content) => Visit(content.Some?, n, from)
  }

  ghost predicate CallAll(entry: Entry, sources: seq<Source>, cancelled: nat -> bool, n: nat, from: nat)
    decreases |sources|
  {
    sources != []
    && var visit := Call(entry, sources[0], cancelled, n, from);
    visit.staged || (!cancelled(visit.requests) && CallAll(entry, sources[1..], cancelled, visit.requests, visit.offset))
  }

  /** What one transfer from an honest server comes to. */
  lemma TransferIsJudged(entry: Entry, n: nat, from: nat, response: Response)
    requires SizeTrue(entry) && |Artifact(entry)| <= MAX_ARTIFACT && OffsetOk(entry, from)
    requires HonestAnswer(entry, from, response)
    ensures var tried := Transfer(entry, n, from, response);
            && (tried.stage.Ready? <==> ArrivesWhole(entry, from, response))
            && tried.requests == n && tried.offset == Rest(entry, from, response) && OffsetOk(entry, tried.offset)
            && (tried.stage.Failed? ==> (Temporary(tried.stage.failure) <==> Passing(entry, from, response)))
  {
  }

  lemma {:induction false} RetriedIsAsked(entry: Entry, server: Server, cancelled: nat -> bool, n: nat, from: nat, attempt: nat)
    requires SizeTrue(entry) && |Artifact(entry)| <= MAX_ARTIFACT && OffsetOk(entry, from) && Honest(entry, Http(server))
    requires attempt < 3
    ensures var tried := Retried(entry, Http(server), cancelled, n, from, attempt);
            && Visit(tried.stage.Ready?, tried.requests, tried.offset) == Ask(entry, server, cancelled, n, from, 3 - attempt)
            && OffsetOk(entry, tried.offset)
    decreases 3 - attempt
  {
    RetriedOnce(entry, Http(server), cancelled, n, from, attempt);
    if !Complete(entry, from) {
      var response := server(n, from);
      TransferIsJudged(entry, n + 1, from, response);
      var tried := Transfer(entry, n + 1, from, response);
      if tried.stage.Failed? {
        AgainIsTemporary(tried.stage.failure, attempt);
        if !cancelled(n + 1) && Again(tried.stage.failure, attempt) {
          RetriedIsAsked(entry, server, cancelled, tried.requests, tried.offset, attempt + 1);
        }
      }
    }
  }

  lemma RetriedIsCalled(entry: Entry, source: Source, cancelled: nat -> bool, n: nat, from: nat)
    requires SizeTrue(entry) && |Artifact(entry)| <= MAX_ARTIFACT && OffsetOk(entry, from) && Honest(entry, source)
    ensures var tried := Retried(entry, source, cancelled, n, from, 0);
            && Visit(tried.stage.Ready?, tried.requests, tried.offset) == Call(entry, source, cancelled, n, from)
            && OffsetOk(entry, tried.offset)
  {
    match source
    case Http(server) => RetriedIsAsked(entry, server, cancelled, n, from, 0);
    case Local(_) => LocalIsTriedOnce(entry, source, cancelled, n, from);
  }

  lemma LocalIsTriedOnce(entry: Entry, source: Source, cancelled: nat -> bool, n: nat, from: nat)
    requires |Artifact(entry)| <= MAX_ARTIFACT && source.Local? && Honest(entry, source)
    ensures var tried := Retried(entry, source, cancelled, n, from, 0);
            (tried.stage.Ready? <==> source.content.Some?) && tried.requests == n && tried.offset == from
  {
    RetriedOnce(entry, source, cancelled, n, from, 0);
    AgainIsTemporary(Permanent, 0);
  }

  /** From honest sources the artifact is fetched exactly when one of them, asked in turn and at most three times each as
      long as it fails for a short time only, answers whole before the run is cancelled. */
  lemma {:induction false} FetchedIsCalled(entry: Entry, sources: seq<Source>, cancelled: nat -> bool, n: nat, from: nat)
    requires SizeTrue(entry) && |Artifact(entry)| <= MAX_ARTIFACT && OffsetOk(entry, from)
    requires forall i :: 0 <= i < |sources| ==> Honest(entry, sources[i])
    ensures Fetched(entry, sources, cancelled, n, from) <==> CallAll(entry, sources, cancelled, n, from)
    decreases |sources|
  {
    if sources != [] {
      RetriedIsCalled(entry, sources[0], cancelled, n, from);
      var tried := Retried(entry, sources[0], cancelled, n, from, 0);
      FetchedIsCalled(entry, sources[1..], cancelled, tried.requests, tried.offset);
    }
  }

  // ---------------------------------------------------------------- two kinds of sources

  /** A source that fails for a short time at most twice, and then answers whole from where the transfer stopped, gets the
      artifact staged. */
  lemma PatienceIsRewarded(entry: Entry, server: Server, cancelled: nat -> bool, n: nat, from: nat)
    requires SizeTrue(entry) && |Artifact(entry)| <= MAX_ARTIFACT && OffsetOk(entry, from) && Honest(entry, Http(server))
    requires forall step :: !cancelled(step)
    requires Passing(entry, from, server(n, from))
    requires var next := Rest(entry, from, server(n, from));
             || ArrivesWhole(entry, next, server(n + 1, next))
             || (&& Passing(entry, next, server(n + 1, next))
                 && var last := Rest(entry, next, server(n + 1, next)); ArrivesWhole(entry, last, server(n + 2, last)))
    ensures Retried(entry, Http(server), cancelled, n, from, 0).stage.Ready?
  {
    RetriedIsAsked(entry, server, cancelled, n, from, 0);
    var next := Rest(entry, from, server(n, from));
    var last := Rest(entry, next, server(n + 1, next));
    assert Ask(entry, server, cancelled, n + 1, next, 2).staged by {
      if !Complete(entry, next) && !ArrivesWhole(entry, next, server(n + 1, next)) {
        assert Ask(entry, server, cancelled, n + 2, last, 1).staged;
      }
    }
  }

  /** A source that is gone, refuses, or asks for more than 30 seconds is asked once; the next one is tried then. */
  lemma RefusalIsFinal(entry: Entry, sources: seq<Source>, cancelled: nat -> bool, n: nat, from: nat, status: nat, after: After)
    requires SizeTrue(entry) && |Artifact(entry)| <= MAX_ARTIFACT && OffsetOk(entry, from) && !Complete(entry, from)
    requires sources != [] && sources[0].Http? && Honest(entry, sources[0]) && !cancelled(n + 1)
    requires var response := sources[0].server(n, from);
             response.Answer? && response.status == status && response.after == after
    requires status != 200 && status != 206
    requires status !in {408, 429, 500, 502, 503, 504} || !Brief(after)
    ensures var tried := Retried(entry, sources[0], cancelled, n, from, 0);
            tried.stage.Failed? && tried.requests == n + 1 && tried.offset == from
    ensures Fetched(entry, sources, cancelled, n, from) == Fetched(entry, sources[1..], cancelled, n + 1, from)
  {
    RetriedIsAsked(entry, sources[0].server, cancelled, n, from, 0);
  }
}
