/** Pulling one image artifact: a staging file named after the digest, resumed and retried over several sources, and
    a cache path that only verified bytes reach. history records every state of the files in between, so what holds
    of every entry of it holds wherever the program is killed. */
module Download {
  import opened Wrappers
  import opened Digests

  /** A catalog entry; a size of zero is an unknown size. */
  datatype Entry = Entry(digest: Digest, size: nat)

  const MAX_ARTIFACT: nat := 0x2_0000_0000

  datatype Staged = Staged(data: string, private: bool)

  datatype Cached = Cached(data: string, immutable: bool)

  datatype Files = Files(cache: Option<Cached>, staging: Option<Staged>, anonymous: Option<string>, quarantined: seq<string>)

  // ---------------------------------------------------------------- servers

  datatype After = NoAfter | Seconds(seconds: nat) | Until(milliseconds: int)

  datatype Failure = SourceGone | HttpStatus(status: nat, after: After) | Transient | Permanent | Cancelled

  datatype Range = Range(first: int, last: int, total: int)

  /** An answer may break off after some of its body. */
  datatype Response =
    | NoAnswer(failure: Failure)
    | Answer(status: nat, after: After, range: Option<Range>, length: Option<nat>, body: string, broken: Option<Failure>, synced: bool)

  /** How a source answers the n-th request of a run when asked to resume from an offset. */
  type Server = (nat, nat) -> Response

  datatype Source = Http(server: Server) | Local(content: Option<string>)

  function Artifact(entry: Entry): string { entry.digest.data }

  /** The source delivers the true artifact, or the true remainder; a broken answer delivers a part of it. */
  predicate HonestAnswer(entry: Entry, from: nat, response: Response)
  {
    response.Answer? && (response.status == 200 || response.status == 206) && from <= |Artifact(entry)| ==>
      var whole := if response.status == 200 then Artifact(entry) else Artifact(entry)[from..];
      response.body <= whole && (response.broken.None? ==> response.body == whole)
  }

  ghost predicate Honest(entry: Entry, source: Source)
  {
    match source
    case Http(server) => forall n, from :: HonestAnswer(entry, from, server(n, from))
    case Local(content) => content.Some? ==> content.value == Artifact(entry)
  }

  /** The catalog states the artifact's own size, or none. */
  predicate SizeTrue(entry: Entry)
  {
    entry.size == 0 || entry.size == |Artifact(entry)|
  }

  // ---------------------------------------------------------------- invariants

  predicate Verified(entry: Entry, data: string)
  {
    Sha256(data) == entry.digest && (entry.size == 0 || |data| == entry.size)
  }

  /** Compared with some earlier state, the cache is as it was, gone, or holds verified bytes. */
  predicate CacheSafe(entry: Entry, earlier: Option<Cached>, files: Files)
  {
    files.cache == None
    || (files.cache.Some? && Verified(entry, files.cache.value.data))
    || files.cache == earlier
  }

  /** A staging file that a later run would resume is a prefix of the artifact. */
  predicate PrefixStaged(entry: Entry, files: Files)
  {
    files.staging.Some? && files.staging.value.private && |files.staging.value.data| <= entry.size ==>
      files.staging.value.data <= Artifact(entry)
  }

  predicate RangeMatches(range: Option<Range>, from: nat, size: nat)
  {
    from > 0 && size > 0 && range == Some(Range(from, size - 1, size))
  }

  /** The status and headers of an answer agree with the request and the catalog. */
  predicate Fit(entry: Entry, from: nat, response: Response)
  {
    && response.Answer?
    && (response.status == 200 || (response.status == 206 && RangeMatches(response.range, from, entry.size)))
    && (response.length.Some? ==>
          response.length.value <= MAX_ARTIFACT
          && (entry.size > 0 ==> response.length.value == if response.status == 200 then entry.size else entry.size - from))
  }

  /** An answer that arrives whole and can be stored. */
  predicate Whole(entry: Entry, from: nat, response: Response)
  {
    Fit(entry, from, response) && response.broken.None? && response.synced
  }

  /** The failure of a received body, and whether it poisons the staging file: a lost connection keeps it. */
  function Verdict(entry: Entry, response: Response, from: nat, received: nat): Option<(Failure, bool)>
    requires response.Answer?
  {
    var written := from + received;
    if response.broken.Some? && received == |response.body| then Some((response.broken.value, false))
    else if written > MAX_ARTIFACT || (response.length.Some? && received != response.length.value) || (entry.size > 0 && written != entry.size)
    then Some((Permanent, true))
    else if !response.synced then Some((Permanent, false))
    else None
  }

  // ---------------------------------------------------------------- retries

  predicate Retryable(failure: Failure)
  {
    match failure
    case HttpStatus(status, _) => status in {408, 429, 500, 502, 503, 504}
    case Transient => true
    case _ => false
  }

  function Power(attempt: nat): nat
  {
    if attempt == 0 then 1 else 2 * Power(attempt - 1)
  }

  /** The pause in milliseconds; a longer cooldown than 30 seconds moves on to the next source. */
  function RetryDelay(failure: Failure, attempt: nat): int
  {
    var delay: int := Power(attempt) * 500;
    var asked: int :=
      if !failure.HttpStatus? then 0
      else match failure.after
        case NoAfter => 0
        case Seconds(seconds) => (if seconds < 31 then seconds else 31) * 1000
        case Until(milliseconds) => milliseconds;
    if asked > delay then asked else delay
  }

  /** Where the staged bytes are, and how many. */
  datatype Stage = Ready(named: bool, copied: nat) | Failed(failure: Failure)

  // ---------------------------------------------------------------- the course of a transfer

  /** What the status and the headers of an answer decide: where its body goes, or a failure. */
  datatype Judgement = Proceed(offset: nat) | Refuse(failure: Failure, poisoned: bool)

  function Judge(entry: Entry, from: nat, response: Response): Judgement
    requires response.Answer?
  {
    if response.status == 206 && !RangeMatches(response.range, from, entry.size) then Refuse(Permanent, true)
    else if response.status != 200 && response.status != 206 then
      Refuse(if response.status == 404 || response.status == 410 then SourceGone else HttpStatus(response.status, response.after), false)
    else
      var offset := if response.status == 200 then 0 else from;
      if response.length.Some?
         && (response.length.value > MAX_ARTIFACT || (entry.size > 0 && response.length.value != entry.size - offset)) then Refuse(Permanent, true)
      else Proceed(offset)
  }

  /** How much of a body is read: one byte more than an artifact may have. */
  function Received(offset: nat, body: string): nat
  {
    if offset > MAX_ARTIFACT || |body| <= MAX_ARTIFACT + 1 - offset then |body| else MAX_ARTIFACT + 1 - offset
  }

  /** The offset at which a later transfer resumes: an overlong staging file is dropped. */
  function Kept(entry: Entry, staged: nat): nat
  {
    if staged <= entry.size then staged else 0
  }

  /** The result of staging, the requests made so far, and where a later transfer resumes. */
  datatype Progress = Progress(stage: Stage, requests: nat, offset: nat)

  /** One answer to a request that resumes at an offset. */
  function Transfer(entry: Entry, n: nat, from: nat, response: Response): Progress
  {
    match response
    case NoAnswer(failure) => Progress(Failed(failure), n, from)
    case Answer(_, _, _, _, _, _, _) =>
      match Judge(entry, from, response)
      case Refuse(failure, poisoned) => Progress(Failed(failure), n, if poisoned then 0 else from)
      case Proceed(offset) =>
        var staged := offset + Received(offset, response.body);
        match Verdict(entry, response, offset, Received(offset, response.body))
        case Some((failure, poisoned)) => Progress(Failed(failure), n, if poisoned then 0 else Kept(entry, staged))
        case None => Progress(Ready(entry.size > 0, staged), n, Kept(entry, staged))
  }

  function HttpStage(entry: Entry, server: Server, n: nat, from: nat): Progress
  {
    if entry.size > 0 && from == entry.size then Progress(Ready(true, from), n, from)
    else Transfer(entry, n + 1, from, server(n, from))
  }

  function SourceStage(entry: Entry, source: Source, n: nat, from: nat): Progress
  {
    match source
    case Http(server) => HttpStage(entry, server, n, from)
    case Local(content) =>
      Progress(if content.None? || |content.value| > MAX_ARTIFACT then Failed(Permanent) else Ready(false, |content.value|), n, from)
  }

  /** Whether another attempt follows a failed one. */
  predicate Again(failure: Failure, attempt: nat)
  {
    attempt < 2 && Retryable(failure) && RetryDelay(failure, attempt) <= 30000
  }

  function Retried(entry: Entry, source: Source, cancelled: nat -> bool, n: nat, from: nat, attempt: nat): Progress
    decreases 3 - attempt
  {
    var tried := SourceStage(entry, source, n, from);
    if tried.stage.Ready? then tried
    else if cancelled(tried.requests) then tried.(stage := Failed(Cancelled))
    else if !Again(tried.stage.failure, attempt) then tried
    else Retried(entry, source, cancelled, tried.requests, tried.offset, attempt + 1)
  }

  /** What follows from the first attempt. */
  lemma RetriedOnce(entry: Entry, source: Source, cancelled: nat -> bool, n: nat, from: nat, attempt: nat)
    ensures var tried := SourceStage(entry, source, n, from);
            Retried(entry, source, cancelled, n, from, attempt) ==
            if tried.stage.Ready? then tried
            else if cancelled(tried.requests) then tried.(stage := Failed(Cancelled))
            else if !Again(tried.stage.failure, attempt) then tried
            else Retried(entry, source, cancelled, tried.requests, tried.offset, attempt + 1)
  {
  }

  /** How a source's turn ends: with a published file, with the whole run, or with the turn of the next source. */
  datatype Turn = Published | Ended | Next

  function TurnOf(tried: Progress, cancelled: nat -> bool): Turn
  {
    if tried.stage.Ready? then Published else if cancelled(tried.requests) then Ended else Next
  }

  /** Whether one of the sources, in turn, gets the artifact staged; honest sources stage nothing else. */
  function Fetched(entry: Entry, sources: seq<Source>, cancelled: nat -> bool, n: nat, from: nat): bool
    decreases |sources|
  {
    if sources == [] then false
    else
      var tried := Retried(entry, sources[0], cancelled, n, from, 0);
      tried.stage.Ready? || (!cancelled(tried.requests) && Fetched(entry, sources[1..], cancelled, tried.requests, tried.offset))
  }

  // ---------------------------------------------------------------- when a pull succeeds

  /** The source asks for a pause of at most 30 seconds. */
  predicate Brief(after: After)
  {
    match after
    case NoAfter => true
    case Seconds(seconds) => seconds <= 30
    case Until(milliseconds) => milliseconds <= 30000
  }

  /** The connection was lost, or the server is overloaded for a short time. */
  predicate Temporary(failure: Failure)
  {
    || failure == Transient
    || (failure.HttpStatus? && Brief(failure.after)
        && (failure.status == 408 || failure.status == 429 || failure.status == 500
            || failure.status == 502 || failure.status == 503 || failure.status == 504))
  }

  lemma AgainIsTemporary(failure: Failure, attempt: nat)
    ensures Again(failure, attempt) <==> attempt < 2 && Temporary(failure)
  {
    if attempt < 2 {
      assert Power(attempt) == 1 + attempt by {
        assert Power(1) == 2 * Power(0);
      }
    }
  }

  /** An answer arrives whole, and as long as it says. */
  predicate Arrives(entry: Entry, from: nat, response: Response)
  {
    Whole(entry, from, response) && (response.length.Some? ==> response.length.value == |response.body|)
  }

  /** One of at most three attempts at the source, each after a failure that may pass, answers whole from the offset
      staged by then; a local source is there. */
  predicate Delivers(entry: Entry, source: Source, cancelled: nat -> bool, n: nat, from: nat, attempt: nat)
    decreases 3 - attempt
  {
    match source
    case Local(content) => content.Some?
    case Http(server) =>
      || (entry.size > 0 && from == entry.size)
      || Arrives(entry, from, server(n, from))
      || (var tried := HttpStage(entry, server, n, from);
          && tried.stage.Failed? && !cancelled(tried.requests) && attempt < 2 && Temporary(tried.stage.failure)
          && Delivers(entry, source, cancelled, tried.requests, tried.offset, attempt + 1))
  }

  /** The offsets that occur: none for an unknown size. */
  predicate OffsetOk(entry: Entry, from: nat)
  {
    from <= entry.size
  }

  /** An honest answer is staged completely if and only if it arrives whole. */
  lemma TransferIsWhole(entry: Entry, n: nat, from: nat, response: Response)
    requires SizeTrue(entry) && |Artifact(entry)| <= MAX_ARTIFACT && OffsetOk(entry, from)
    requires HonestAnswer(entry, from, response)
    ensures Transfer(entry, n, from, response).stage.Ready? <==> Arrives(entry, from, response)
    ensures OffsetOk(entry, Transfer(entry, n, from, response).offset)
  {
  }

  /** Staging from an honest source succeeds if and only if one of its attempts delivers. */
  lemma {:induction false} RetriedDelivers(entry: Entry, source: Source, cancelled: nat -> bool, n: nat, from: nat, attempt: nat)
    requires SizeTrue(entry) && |Artifact(entry)| <= MAX_ARTIFACT && OffsetOk(entry, from) && Honest(entry, source)
    ensures Retried(entry, source, cancelled, n, from, attempt).stage.Ready? <==> Delivers(entry, source, cancelled, n, from, attempt)
    ensures OffsetOk(entry, Retried(entry, source, cancelled, n, from, attempt).offset)
    decreases 3 - attempt
  {
    if source.Http? {
      TransferIsWhole(entry, n + 1, from, source.server(n, from));
    }
    var tried := SourceStage(entry, source, n, from);
    if tried.stage.Failed? {
      AgainIsTemporary(tried.stage.failure, attempt);
    }
    if tried.stage.Failed? && !cancelled(tried.requests) && Again(tried.stage.failure, attempt) {
      RetriedDelivers(entry, source, cancelled, tried.requests, tried.offset, attempt + 1);
    }
  }

  /** Whatever was staged before, the source answers every request whole. */
  ghost predicate Answers(entry: Entry, source: Source)
  {
    match source
    case Local(content) => content.Some?
    case Http(server) => forall n, from :: OffsetOk(entry, from) ==> Arrives(entry, from, server(n, from))
  }

  /** If all sources are honest, nothing is cancelled and one source answers, then the artifact is fetched, however the
      sources before it fail. */
  lemma {:induction false} AnsweringSourceSucceeds(entry: Entry, sources: seq<Source>, cancelled: nat -> bool, n: nat, from: nat)
    requires SizeTrue(entry) && |Artifact(entry)| <= MAX_ARTIFACT && OffsetOk(entry, from)
    requires forall i :: 0 <= i < |sources| ==> Honest(entry, sources[i])
    requires forall step :: !cancelled(step)
    requires exists i :: 0 <= i < |sources| && Answers(entry, sources[i])
    ensures Fetched(entry, sources, cancelled, n, from)
    decreases |sources|
  {
    RetriedDelivers(entry, sources[0], cancelled, n, from, 0);
    var tried := Retried(entry, sources[0], cancelled, n, from, 0);
    if !tried.stage.Ready? {
      var i :| 0 <= i < |sources| && Answers(entry, sources[i]);
      assert sources[1..][i - 1] == sources[i];
      AnsweringSourceSucceeds(entry, sources[1..], cancelled, tried.requests, tried.offset);
    }
  }

  class Store {
    const entry: Entry
    const base: string -> bool
    const virtualSize: string -> bool
    var cache: Option<Cached>
    var staging: Option<Staged>
    var anonymous: Option<string>
    var quarantined: seq<string>
    var requests: nat
    var history: seq<Files>

    constructor (entry: Entry, base: string -> bool, virtualSize: string -> bool, cache: Option<Cached>, staging: Option<Staged>)
      ensures this.entry == entry && this.base == base && this.virtualSize == virtualSize && requests == 0
      ensures Current() == Files(cache, staging, None, []) && history == [Current()]
    {
      this.entry, this.base, this.virtualSize, this.cache, this.staging := entry, base, virtualSize, cache, staging;
      anonymous, quarantined, requests := None, [], 0;
      history := [Files(cache, staging, None, [])];
    }

    function Current(): Files
      reads this
    {
      Files(cache, staging, anonymous, quarantined)
    }

    /** The history ends with the present state. */
    ghost predicate Valid()
      reads this
    {
      history != [] && history[|history| - 1] == Current()
    }

    /** history continues was, and every new state satisfies the two invariants. */
    ghost predicate Since(was: seq<Files>, earlier: Option<Cached>, honest: bool)
      reads this
    {
      && |was| <= |history| && history[..|was|] == was
      && forall i :: |was| <= i < |history| ==>
           CacheSafe(entry, earlier, history[i]) && (honest ==> PrefixStaged(entry, history[i]))
    }

    // -------------------------------------------------------------- staging

    method SetStaging(value: Option<Staged>)
      requires Valid()
      modifies this`staging, this`history
      ensures Valid() && staging == value && history == old(history) + [Current()]
    {
      staging := value;
      history := history + [Current()];
    }

    method SetAnonymous(value: Option<string>)
      requires Valid()
      modifies this`anonymous, this`history
      ensures Valid() && anonymous == value && history == old(history) + [Current()]
    {
      anonymous := value;
      history := history + [Current()];
    }

    /** The bytes staged so far. */
    function Bytes(named: bool): string
      reads this
    {
      if named then (if staging.Some? then staging.value.data else "") else if anonymous.Some? then anonymous.value else ""
    }

    /** Replacing the staged bytes, one file operation. */
    method Write(named: bool, data: string)
      requires Valid() && (named ==> staging.Some? && staging.value.private)
      modifies this`staging, this`anonymous, this`history
      ensures Valid() && history == old(history) + [Current()]
      ensures if named then staging == Some(Staged(data, true)) && anonymous == old(anonymous)
              else anonymous == Some(data) && staging == old(staging)
    {
      if named {
        SetStaging(Some(Staged(data, true)));
      } else {
        SetAnonymous(Some(data));
      }
    }

    /** Where a transfer resumes. */
    function Offset(): nat
      reads this
    {
      if staging.Some? && staging.value.private && |staging.value.data| <= entry.size then |staging.value.data| else 0
    }

    method OpenStaging() returns (named: bool, offset: nat)
      requires Valid()
      modifies this`staging, this`anonymous, this`history
      ensures Valid() && named == (entry.size > 0) && offset == |Bytes(named)|
      ensures named ==> staging.Some? && staging.value.private && offset <= entry.size && anonymous == old(anonymous)
      ensures !named ==> anonymous == Some("") && staging == old(staging)
      ensures named ==> offset == old(Offset())
      ensures Since(old(history), cache, old(PrefixStaged(entry, Current())))
    {
      if entry.size == 0 {
        SetAnonymous(Some(""));
        return false, 0;
      }
      if staging.Some? && (!staging.value.private || |staging.value.data| > entry.size) {
        SetStaging(None);
      }
      if staging.None? {
        SetStaging(Some(Staged("", true)));
      }
      return true, |staging.value.data|;
    }

    /** Dropping the staged bytes: always when they are poisoned, and an anonymous file in any case. */
    method Discard(named: bool, poisoned: bool)
      requires Valid()
      modifies this`staging, this`anonymous, this`history
      ensures Valid() && Since(old(history), cache, old(PrefixStaged(entry, Current())))
      ensures staging == (if named && poisoned then None else old(staging))
    {
      if !named {
        SetAnonymous(None);
      } else if poisoned {
        SetStaging(None);
      }
    }

    /** Copying the body behind the staged prefix; the program can be killed after every byte. */
    method Receive(named: bool, body: string)
      requires Valid() && (named ==> staging.Some? && staging.value.private)
      modifies this`staging, this`anonymous, this`history
      ensures Valid() && Bytes(named) == old(Bytes(named)) + body
      ensures if named then staging.Some? && staging.value.private && anonymous == old(anonymous) else staging == old(staging)
      ensures Since(old(history), cache, if named then old(Bytes(named)) + body <= Artifact(entry) else old(PrefixStaged(entry, Current())))
    {
      var prefix := Bytes(named);
      ghost var honest := if named then prefix + body <= Artifact(entry) else PrefixStaged(entry, Current());
      for i := 0 to |body|
        invariant Valid() && Bytes(named) == prefix + body[..i]
        invariant if named then staging.Some? && staging.value.private && anonymous == old(anonymous) else staging == old(staging)
        invariant Since(old(history), cache, honest)
      {
        assert prefix + body[..i + 1] <= prefix + body;
        Write(named, prefix + body[..i + 1]);
      }
      assert body[..|body|] == body;
    }

    ghost predicate HonestStart(honest: bool)
      reads this
    {
      honest && SizeTrue(entry) && PrefixStaged(entry, Current())
    }

    /** Judging the status and the headers of an answer; a full answer to a resume request drops the staged prefix. */
    method Accept(named: bool, from: nat, response: Response) returns (failure: Option<Failure>, offset: nat)
      requires Valid() && response.Answer? && from == |Bytes(named)| && named == (entry.size > 0)
      requires if named then staging.Some? && staging.value.private && from <= entry.size else from == 0
      modifies this`staging, this`anonymous, this`history
      ensures Valid() && Since(old(history), cache, old(PrefixStaged(entry, Current())))
      ensures match Judge(entry, from, response)
              case Refuse(refused, poisoned) => failure == Some(refused) && Offset() == if poisoned then 0 else from
              case Proceed(to) => failure == None && offset == to
      ensures Fit(entry, from, response) ==> failure.None?
      ensures failure.None? ==> offset <= from && offset == |Bytes(named)| && (named ==> staging.Some? && staging.value.private && offset <= entry.size)
      ensures failure.None? && old(HonestStart(HonestAnswer(entry, from, response))) && (named || from == 0) ==>
                Bytes(named) + response.body <= Artifact(entry)
                && (response.broken.None? ==> Bytes(named) + response.body == Artifact(entry))
    {
      offset := from;
      if response.status == 200 {
        if from > 0 {
          Write(named, "");
          offset := 0;
        }
      } else if response.status == 206 {
        if !RangeMatches(response.range, from, entry.size) {
          Discard(named, true);
          return Some(Permanent), from;
        }
      } else {
        Discard(named, false);
        return Some(if response.status == 404 || response.status == 410 then SourceGone else HttpStatus(response.status, response.after)), from;
      }
      if response.length.Some? && (response.length.value > MAX_ARTIFACT || (entry.size > 0 && response.length.value != entry.size - offset)) {
        Discard(named, true);
        return Some(Permanent), offset;
      }
      return None, offset;
    }

    /** Receiving the body and judging its length. */
    method Finish(named: bool, from: nat, response: Response) returns (stage: Stage)
      requires Valid() && response.Answer? && from == |Bytes(named)| && from <= MAX_ARTIFACT && named == (entry.size > 0)
      requires named ==> staging.Some? && staging.value.private
      modifies this`staging, this`anonymous, this`history
      ensures Valid()
      ensures Since(old(history), cache, old(PrefixStaged(entry, Current())) && old(Bytes(named)) + response.body <= Artifact(entry))
      ensures stage.Ready? ==>
                && stage.named == named && |Bytes(named)| == stage.copied && (named ==> stage.copied == entry.size)
                && Bytes(named) == old(Bytes(named)) + response.body && response.broken.None?
      ensures var received := Received(from, response.body);
              match Verdict(entry, response, from, received)
              case Some((failure, poisoned)) => stage == Failed(failure) && Offset() == if poisoned then 0 else Kept(entry, from + received)
              case None => stage == Ready(named, from + received) && Offset() == Kept(entry, from + received)
      ensures (&& named && response.broken.None? && response.synced && |old(Bytes(named)) + response.body| == entry.size <= MAX_ARTIFACT
               && (response.length.Some? ==> response.length.value == |response.body|)) ==> stage.Ready?
    {
      ghost var honest := PrefixStaged(entry, Current()) && Bytes(named) + response.body <= Artifact(entry);
      ghost var start := history;
      var limit := MAX_ARTIFACT + 1 - from;
      var received := if |response.body| <= limit then |response.body| else limit;
      var body := response.body[..received];
      assert Bytes(named) + body <= Bytes(named) + response.body;
      Receive(named, body);
      ghost var middle := history;
      var verdict := Verdict(entry, response, from, received);
      if verdict.Some? {
        Discard(named, verdict.value.1);
        SinceStep(start, middle, cache, honest);
        return Failed(verdict.value.0);
      }
      assert body == response.body;
      return Ready(named, from + received);
    }

    lemma SinceStep(was: seq<Files>, middle: seq<Files>, earlier: Option<Cached>, honest: bool)
      requires |was| <= |middle| <= |history| && middle[..|was|] == was
      requires forall i :: |was| <= i < |middle| ==> CacheSafe(entry, earlier, middle[i]) && (honest ==> PrefixStaged(entry, middle[i]))
      requires Since(middle, earlier, honest)
      ensures Since(was, earlier, honest)
    {
      assert history[..|was|] == history[..|middle|][..|was|];
      assert forall i :: 0 <= i < |middle| ==> history[i] == middle[i];
    }

    /** One transfer over HTTP. */
    method StageHttp(server: Server) returns (stage: Stage)
      requires Valid() && entry.size <= MAX_ARTIFACT
      modifies this`staging, this`anonymous, this`history, this`requests
      ensures Valid() && old(requests) <= requests <= old(requests) + 1
      ensures Since(old(history), cache, old(HonestStart(Honest(entry, Http(server)))))
      ensures Progress(stage, requests, Offset()) == HttpStage(entry, server, old(requests), old(Offset()))
      ensures stage.Ready? ==> |Bytes(stage.named)| == stage.copied && (stage.named ==> stage.copied == entry.size)
      ensures stage.Ready? && old(HonestStart(Honest(entry, Http(server)))) ==> Bytes(stage.named) == Artifact(entry)
      ensures old(HonestStart(Honest(entry, Http(server)))) && entry.size > 0 && Whole(entry, old(Offset()), server(old(requests), old(Offset()))) ==> stage.Ready?
    {
      ghost var honest := HonestStart(Honest(entry, Http(server)));
      ghost var start := history;
      var named, from := OpenStaging();
      ghost var begun := history;
      assert honest ==> PrefixStaged(entry, Current());
      if entry.size > 0 && from == entry.size {
        return Ready(named, from);
      }
      var response := server(requests, from);
      assert Honest(entry, Http(server)) ==> HonestAnswer(entry, from, response);
      requests := requests + 1;
      stage := Answered(named, from, response);
      SinceStep(start, begun, cache, honest);
    }

    /** One answer, judged and staged. */
    method Answered(named: bool, from: nat, response: Response) returns (stage: Stage)
      requires Valid() && entry.size <= MAX_ARTIFACT && from == |Bytes(named)| && named == (entry.size > 0)
      requires if named then staging.Some? && staging.value.private && from <= entry.size else from == 0
      modifies this`staging, this`anonymous, this`history
      ensures Valid() && Since(old(history), cache, old(HonestStart(HonestAnswer(entry, from, response))))
      ensures Progress(stage, requests, Offset()) == Transfer(entry, requests, from, response)
      ensures stage.Ready? ==> stage.named == named && |Bytes(named)| == stage.copied && (named ==> stage.copied == entry.size)
      ensures stage.Ready? && old(HonestStart(HonestAnswer(entry, from, response))) ==> Bytes(named) == Artifact(entry)
      ensures named && old(HonestStart(HonestAnswer(entry, from, response))) && Whole(entry, from, response) ==> stage.Ready?
    {
      ghost var honest := HonestStart(HonestAnswer(entry, from, response));
      ghost var start := history;
      if response.NoAnswer? {
        Discard(named, false);
        return Failed(response.failure);
      }
      var failure, offset := Accept(named, from, response);
      ghost var accepted := history;
      if failure.Some? {
        return Failed(failure.value);
      }
      stage := Finish(named, offset, response);
      SinceStep(start, accepted, cache, honest);
    }

    method StageSource(source: Source) returns (stage: Stage)
      requires Valid() && entry.size <= MAX_ARTIFACT
      modifies this`staging, this`anonymous, this`history, this`requests
      ensures Valid() && old(requests) <= requests <= old(requests) + 1
      ensures Since(old(history), cache, old(HonestStart(Honest(entry, source))))
      ensures Progress(stage, requests, Offset()) == SourceStage(entry, source, old(requests), old(Offset()))
      ensures stage.Ready? ==> |Bytes(stage.named)| == stage.copied && (stage.named ==> stage.copied == entry.size)
      ensures stage.Ready? && old(HonestStart(Honest(entry, source))) ==> Bytes(stage.named) == Artifact(entry)
    {
      match source
      case Http(server) => stage := StageHttp(server);
      case Local(content) =>
        if content.None? || |content.value| > MAX_ARTIFACT {
          return Failed(Permanent);
        }
        SetAnonymous(content);
        return Ready(false, |content.value|);
    }

    /** One attempt, and whether another one follows. */
    method Attempt(source: Source, cancelled: nat -> bool, attempt: nat) returns (stage: Stage, again: bool)
      requires Valid() && entry.size <= MAX_ARTIFACT
      modifies this`staging, this`anonymous, this`history, this`requests
      ensures Valid() && old(requests) <= requests <= old(requests) + 1
      ensures Since(old(history), cache, old(HonestStart(Honest(entry, source))))
      ensures old(HonestStart(Honest(entry, source))) ==> PrefixStaged(entry, Current())
      ensures stage.Ready? ==> |Bytes(stage.named)| == stage.copied && (stage.named ==> stage.copied == entry.size)
      ensures stage.Ready? && old(HonestStart(Honest(entry, source))) ==> Bytes(stage.named) == Artifact(entry)
      ensures again ==> attempt < 2
      ensures Retried(entry, source, cancelled, old(requests), old(Offset()), attempt)
              == if again then Retried(entry, source, cancelled, requests, Offset(), attempt + 1) else Progress(stage, requests, Offset())
    {
      RetriedOnce(entry, source, cancelled, requests, Offset(), attempt);
      ghost var start := history;
      stage := StageSource(source);
      assert history == start ==> Current() == start[|start| - 1];
      if stage.Ready? {
        return stage, false;
      }
      if cancelled(requests) {
        return Failed(Cancelled), false;
      }
      if !Again(stage.failure, attempt) {
        return stage, false;
      }
      if cancelled(requests) {
        return Failed(Cancelled), false;
      }
      return stage, true;
    }

    /** At most three attempts; a source that asks for a long pause is left for the next one. */
    method StageWithRetry(source: Source, cancelled: nat -> bool) returns (stage: Stage)
      requires Valid() && entry.size <= MAX_ARTIFACT
      modifies this`staging, this`anonymous, this`history, this`requests
      ensures Valid() && old(requests) <= requests <= old(requests) + 3
      ensures Since(old(history), cache, old(HonestStart(Honest(entry, source))))
      ensures Progress(stage, requests, Offset()) == Retried(entry, source, cancelled, old(requests), old(Offset()), 0)
      ensures stage.Ready? ==> |Bytes(stage.named)| == stage.copied && (stage.named ==> stage.copied == entry.size)
      ensures stage.Ready? && old(HonestStart(Honest(entry, source))) ==> Bytes(stage.named) == Artifact(entry)
    {
      ghost var honest := HonestStart(Honest(entry, source));
      ghost var start := history;
      ghost var goal := Retried(entry, source, cancelled, requests, Offset(), 0);
      var attempt := 0;
      while true
        invariant Valid() && 0 <= attempt <= 2 && old(requests) <= requests <= old(requests) + attempt
        invariant Since(start, cache, honest) && (honest ==> HonestStart(Honest(entry, source)))
        invariant goal == Retried(entry, source, cancelled, requests, Offset(), attempt)
        decreases 2 - attempt
      {
        ghost var before := history;
        var again;
        stage, again := Attempt(source, cancelled, attempt);
        SinceStep(start, before, cache, honest);
        if !again {
          return;
        }
        attempt := attempt + 1;
      }
    }

    // -------------------------------------------------------------- the cache

    method SetCache(value: Option<Cached>, damaged: seq<string>)
      requires Valid()
      modifies this`cache, this`quarantined, this`history
      ensures Valid() && cache == value && quarantined == damaged && history == old(history) + [Current()]
    {
      cache, quarantined := value, damaged;
      history := history + [Current()];
    }

    /** Verifying the staged bytes and moving them to the cache path; the bytes become immutable first. */
    method Publish(named: bool, copied: nat) returns (ok: bool)
      requires Valid() && |Bytes(named)| == copied
      modifies this`cache, this`staging, this`anonymous, this`history
      ensures Valid() && Since(old(history), old(cache), old(PrefixStaged(entry, Current())))
      ensures ok == (old(Verified(entry, Bytes(named))) && base(old(Bytes(named))) && virtualSize(old(Bytes(named))))
      ensures if ok then cache == Some(Cached(old(Bytes(named)), true)) && Bytes(named) == "" else cache == old(cache)
    {
      var data := Bytes(named);
      if Sha256(data) != entry.digest || |data| != copied || (entry.size > 0 && |data| != entry.size) || !base(data) || !virtualSize(data) {
        return false;
      }
      if named && staging.Some? {
        SetStaging(Some(staging.value.(private := false)));
      }
      cache := Some(Cached(data, true));
      if named {
        staging := None;
      } else {
        anonymous := None;
      }
      history := history + [Current()];
      return true;
    }

    /** Moving a damaged cache file aside, unless a node still uses it. */
    method Quarantine(referenced: bool) returns (ok: bool)
      requires Valid() && cache.Some?
      modifies this`cache, this`quarantined, this`history
      ensures Valid() && Since(old(history), old(cache), old(PrefixStaged(entry, Current())))
      ensures ok == !referenced
      ensures if ok then cache == None && quarantined == old(quarantined) + [old(cache).value.data]
              else cache == old(cache) && quarantined == old(quarantined)
    {
      if referenced {
        return false;
      }
      SetCache(None, quarantined + [cache.value.data]);
      return true;
    }

    /** Making the cache usable before anything is fetched: permissions are repaired only over proven bytes, and
        damaged bytes are moved aside. */
    method PrepareCache(referenced: bool) returns (ok: bool, ready: bool)
      requires Valid()
      modifies this`cache, this`quarantined, this`history
      ensures Valid() && Since(old(history), old(cache), old(PrefixStaged(entry, Current())))
      ensures ready ==> ok && cache.Some? && Usable(cache.value)
      ensures ok && !ready ==> cache == None
      ensures if old(cache).None? then ok && !ready
              else if Damaged(old(cache).value) then ok == !referenced && !ready && (referenced ==> cache == old(cache))
              else ok == ready && ok == Sound(old(cache).value)
      ensures cache == None ==> quarantined == old(quarantined) + (if old(cache).Some? then [old(cache).value.data] else [])
      ensures cache.Some? ==> old(cache).Some? && cache.value.data == old(cache).value.data && quarantined == old(quarantined)
    {
      ready := false;
      if cache.Some? && !cache.value.immutable {
        var data := cache.value.data;
        if Sha256(data) == entry.digest && (entry.size == 0 || |data| == entry.size) {
          if !base(data) {
            return false, false;
          }
          if virtualSize(data) {
            SetCache(Some(Cached(data, true)), quarantined);
          } else {
            ok := Quarantine(referenced);
            if !ok {
              return;
            }
          }
        } else {
          ok := Quarantine(referenced);
          if !ok {
            return;
          }
        }
      }
      if cache.None? {
        return true, false;
      }
      if Sha256(cache.value.data) != entry.digest {
        ok := Quarantine(referenced);
        return;
      }
      ok := (entry.size == 0 || |cache.value.data| == entry.size) && base(cache.value.data) && virtualSize(cache.value.data);
      ready := ok;
    }

    /** The bytes are not those of the entry, or writable ones are not an artifact of it. */
    predicate Damaged(cached: Cached)
    {
      Sha256(cached.data) != entry.digest
      || (!cached.immutable && ((entry.size > 0 && |cached.data| != entry.size) || (base(cached.data) && !virtualSize(cached.data))))
    }

    predicate Sound(cached: Cached)
    {
      (entry.size == 0 || |cached.data| == entry.size) && base(cached.data) && virtualSize(cached.data)
    }

    predicate Usable(cached: Cached)
    {
      cached.immutable && Verified(entry, cached.data) && base(cached.data) && virtualSize(cached.data)
    }

    /** The artifact itself passes every check of a published file. */
    predicate Publishable()
    {
      |Artifact(entry)| <= MAX_ARTIFACT && base(Artifact(entry)) && virtualSize(Artifact(entry))
    }

    ghost predicate AllHonest(sources: seq<Source>)
    {
      forall i :: 0 <= i < |sources| ==> Honest(entry, sources[i])
    }

    /** Publishing what was staged, or removing it when it fails verification. */
    method PublishOrDrop(named: bool, copied: nat, cancelled: nat -> bool) returns (turn: Turn)
      requires Valid() && |Bytes(named)| == copied
      modifies this`cache, this`staging, this`anonymous, this`history
      ensures Valid() && Since(old(history), old(cache), old(PrefixStaged(entry, Current())))
      ensures if turn == Published then cache.Some? && Usable(cache.value) else cache == old(cache)
      ensures old(Bytes(named)) == Artifact(entry) && SizeTrue(entry) && Publishable() ==> turn == Published
    {
      ghost var honest := PrefixStaged(entry, Current());
      ghost var start := history;
      var ok := Publish(named, copied);
      if ok {
        return Published;
      }
      if cancelled(requests) {
        return Ended;
      }
      ghost var rejected := history;
      Discard(named, true);
      SinceStep(start, rejected, old(cache), honest);
      return Next;
    }

    /** One source: fetch, verify, publish; what fails verification is removed. */
    method TrySource(source: Source, cancelled: nat -> bool) returns (turn: Turn)
      requires Valid() && entry.size <= MAX_ARTIFACT
      modifies this`cache, this`staging, this`anonymous, this`history, this`requests
      ensures Valid() && old(requests) <= requests <= old(requests) + 3
      ensures Since(old(history), old(cache), old(HonestStart(Honest(entry, source))))
      ensures if turn == Published then cache.Some? && Usable(cache.value) else cache == old(cache)
      ensures old(HonestStart(Honest(entry, source))) && Publishable() ==>
                var tried := Retried(entry, source, cancelled, old(requests), old(Offset()), 0);
                && turn == TurnOf(tried, cancelled)
                && (turn == Next ==> requests == tried.requests && Offset() == tried.offset)
    {
      ghost var honest := HonestStart(Honest(entry, source));
      ghost var start := history;
      ghost var tried := Retried(entry, source, cancelled, requests, Offset(), 0);
      var stage := StageWithRetry(source, cancelled);
      assert tried == Progress(stage, requests, Offset());
      if stage.Failed? {
        return if cancelled(requests) then Ended else Next;
      }
      assert TurnOf(tried, cancelled) == Published;
      ghost var staged := history;
      turn := PublishOrDrop(stage.named, stage.copied, cancelled);
      SinceStep(start, staged, old(cache), honest);
    }

    /** The sources in turn. */
    method Fetch(sources: seq<Source>, cancelled: nat -> bool) returns (ok: bool)
      requires Valid() && entry.size <= MAX_ARTIFACT
      modifies this`cache, this`staging, this`anonymous, this`history, this`requests
      ensures Valid() && old(requests) <= requests <= old(requests) + 3 * |sources|
      ensures Since(old(history), old(cache), old(HonestStart(AllHonest(sources))))
      ensures if ok then cache.Some? && Usable(cache.value) else cache == old(cache)
      ensures old(HonestStart(AllHonest(sources))) && Publishable() ==> ok == Fetched(entry, sources, cancelled, old(requests), old(Offset()))
    {
      ghost var honest := HonestStart(AllHonest(sources));
      ghost var start := history;
      ghost var goal := Fetched(entry, sources, cancelled, requests, Offset());
      for i := 0 to |sources|
        invariant Valid() && cache == old(cache) && old(requests) <= requests <= old(requests) + 3 * i
        invariant Since(start, old(cache), honest) && (honest ==> HonestStart(AllHonest(sources)))
        invariant honest && Publishable() ==> goal == Fetched(entry, sources[i..], cancelled, requests, Offset())
      {
        ghost var before := history;
        assert sources[i..][0] == sources[i] && sources[i..][1..] == sources[i + 1..];
        var turn := TrySource(sources[i], cancelled);
        SinceStep(start, before, old(cache), honest);
        if turn != Next {
          return turn == Published;
        }
      }
      return false;
    }

    /** Pulling the artifact. Whatever the servers send and wherever the program is killed, the cache path only ever
        holds what it held, nothing, or bytes with the catalog digest and size; damaged bytes are kept aside. If the
        servers are honest, every staging file left behind is a prefix of the artifact. */
    method Pull(sources: seq<Source>, referenced: bool, cancelled: nat -> bool) returns (ok: bool)
      requires Valid() && entry.size <= MAX_ARTIFACT
      modifies this
      ensures Valid() && old(requests) <= requests <= old(requests) + 3 * |sources|
      ensures Since(old(history), old(cache), old(HonestStart(AllHonest(sources))))
      ensures ok ==> cache.Some? && Usable(cache.value) && cache.value.data == Artifact(entry)
      ensures if old(cache).Some? && !Damaged(old(cache).value) then ok == Sound(old(cache).value)
              else if old(cache).Some? && referenced then !ok
              else old(HonestStart(AllHonest(sources))) && Publishable() ==>
                     ok == Fetched(entry, sources, cancelled, old(requests), old(Offset()))
      ensures old(cache).Some? && old(cache).value.data == Artifact(entry) && SizeTrue(entry) && base(Artifact(entry)) && virtualSize(Artifact(entry)) ==>
                ok && requests == old(requests) && staging == old(staging) && quarantined == old(quarantined)
      ensures old(cache).Some? && old(cache).value.data != Artifact(entry) ==>
                if referenced then !ok && cache == old(cache) && requests == old(requests)
                else quarantined == old(quarantined) + [old(cache).value.data]
      ensures quarantined == old(quarantined) || (old(cache).Some? && quarantined == old(quarantined) + [old(cache).value.data])
    {
      ghost var honest := HonestStart(AllHonest(sources));
      ghost var start := history;
      var prepared, ready := PrepareCache(referenced);
      if !prepared || ready {
        return prepared;
      }
      ghost var begun := history;
      ok := Fetch(sources, cancelled);
      SinceLater(start, begun, old(cache), honest);
    }

    lemma SinceLater(was: seq<Files>, middle: seq<Files>, earlier: Option<Cached>, honest: bool)
      requires |was| <= |middle| <= |history| && middle[..|was|] == was
      requires forall i :: |was| <= i < |middle| ==> CacheSafe(entry, earlier, middle[i]) && (honest ==> PrefixStaged(entry, middle[i]))
      requires Since(middle, None, honest)
      ensures Since(was, earlier, honest)
    {
      assert history[..|was|] == history[..|middle|][..|was|];
      assert forall i :: 0 <= i < |middle| ==> history[i] == middle[i];
    }

    /** The program is killed and started again: the files are those of some earlier moment of the run. */
    method Restart(moment: nat)
      requires Valid() && moment < |history|
      modifies this
      ensures Valid() && history == [old(history)[moment]] && Current() == old(history)[moment]
    {
      var files := history[moment];
      cache, staging, anonymous, quarantined := files.cache, files.staging, files.anonymous, files.quarantined;
      requests, history := 0, [files];
    }
  }

  /** Any number of pulls, each killed at an arbitrary moment, over arbitrary servers: the cache path never holds
      unverified bytes that it did not hold at first, and behind honest servers the staging file always is a prefix. */
  method PullUntilKilled(store: Store, runs: seq<(seq<Source>, nat)>, referenced: bool, cancelled: nat -> bool)
    requires store.Valid() && store.entry.size <= MAX_ARTIFACT
    modifies store
    ensures store.Valid()
    ensures CacheSafe(store.entry, old(store.cache), store.Current())
    ensures (forall i :: 0 <= i < |runs| ==> store.AllHonest(runs[i].0)) && SizeTrue(store.entry) && PrefixStaged(store.entry, old(store.Current()))
            ==> PrefixStaged(store.entry, store.Current())
  {
    ghost var honest := (forall i :: 0 <= i < |runs| ==> store.AllHonest(runs[i].0)) && SizeTrue(store.entry) && PrefixStaged(store.entry, store.Current());
    for i := 0 to |runs|
      invariant store.Valid() && CacheSafe(store.entry, old(store.cache), store.Current())
      invariant honest ==> PrefixStaged(store.entry, store.Current())
    {
      var start := |store.history|;
      ghost var before, held := store.history, store.cache;
      var ok := store.Pull(runs[i].0, referenced, cancelled);
      assert store.Since(before, held, honest);
      var moment := start - 1 + runs[i].1;
      store.Restart(if moment < |store.history| then moment else |store.history| - 1);
    }
  }
}
