/** Schema resolution over an on-disk cache: src/intentumdiff/analysis/schema_resolver.py.
  *
  * The network, the command runner and the clock are inputs of a call.  SHA-256 and JSON
  * parsing are symbolic; `parses` says which bodies decode to a JSON object.
  */
module SchemaCache {
  import opened ByteStrings
  import opened Common

  const MAX_BYTES: nat := 5 * 1024 * 1024

  datatype Mode = Off | CacheOnly | Auto

  datatype Schema = Parsed(body: Bytes)

  datatype Fingerprint = Nothing | Unknown(provider: string) | Of(provider: string, digest: Digest)

  datatype Status = NotFound | Reported(text: string) | Disabled | Command | CommandDisabled | Error
                  | CacheMiss | CacheHit | StaleCache | NotModified | Fetched

  datatype Candidate = Candidate(provider: string, url: string, command: seq<string>, status: string, advisory: string)

  datatype Resolution = Resolution(provider: string, status: Status, source: string, schema: Option<Schema>,
                                   fingerprint: Fingerprint)

  /** A cache file's content. */
  datatype Entry = Entry(source: string, fetchedAt: int, etag: Option<string>, lastModified: Option<string>,
                         hash: Digest, schema: Schema)

  datatype Headers = Headers(ifNoneMatch: Option<string>, ifModifiedSince: Option<string>)

  datatype Response = Response(status: int, finalUrlAllowed: bool, body: Bytes, etag: Option<string>,
                               lastModified: Option<string>)

  datatype Network = Unreachable | HttpError(code: int) | Replied(response: Response)

  /** How writing the cache file goes; a torn file no longer parses. */
  datatype Write = Stored | Refused | Torn

  datatype Call = Call(candidate: Option<Candidate>, mode: Mode, commandsAllowed: bool, ttl: nat, now: int,
                       command: Option<Bytes>, urlAllowed: bool, network: Network, write: Write)

  type Cache = map<string, Entry>

  /** What a call returns, what it leaves on disk, what it sent, and whether it ran the command. */
  datatype Outcome = Outcome(resolution: Resolution, cache: Cache, sent: Option<Headers>, ran: bool)

  function Join(words: seq<string>): string {
    if words == [] then "" else if |words| == 1 then words[0] else words[0] + " " + Join(words[1..])
  }

  /** _cache_file, up to the hash of the file name. */
  function KeyOf(c: Candidate): string {
    if c.url != "" then c.url else if Join(c.command) != "" then Join(c.command) else c.provider
  }

  /** _resolution_from_cache */
  function FromCache(c: Candidate, e: Entry, status: Status): Resolution {
    Resolution(c.provider, status, if e.source != "" then e.source else c.url, Some(e.schema), Of(c.provider, e.hash))
  }

  predicate IsFresh(e: Entry, ttl: nat, now: int) {
    now - e.fetchedAt < ttl
  }

  /** _resolve_from_cache with stale entries allowed */
  function Cached(cache: Cache, c: Candidate, ttl: nat, now: int): Resolution {
    if KeyOf(c) !in cache then Resolution(c.provider, CacheMiss, c.url, None, Nothing)
    else FromCache(c, cache[KeyOf(c)], if IsFresh(cache[KeyOf(c)], ttl, now) then CacheHit else StaleCache)
  }

  function ConditionalHeaders(cache: Cache, key: string): Headers {
    if key in cache then Headers(cache[key].etag, cache[key].lastModified) else Headers(None, None)
  }

  /** Which replies revalidate the entry at `key`. */
  predicate Revalidates(cache: Cache, key: string, n: Network) {
    && key in cache
    && (n == HttpError(304) || (n.Replied? && n.response.finalUrlAllowed && n.response.status == 304))
  }

  predicate Usable(parses: Bytes -> bool, r: Response) {
    r.finalUrlAllowed && |r.body| <= MAX_BYTES && parses(r.body)
  }

  function NewEntry(c: Candidate, r: Response, now: int): Entry {
    Entry(c.url, now, r.etag, r.lastModified, Sha256(r.body), Parsed(r.body))
  }

  class Resolver {
    const parses: Bytes -> bool
    var disk: Cache

    constructor (parses: Bytes -> bool, disk: Cache)
      ensures this.parses == parses && this.disk == disk
    {
      this.parses, this.disk := parses, disk;
    }

    /** _fetch_or_cache; None stands for a raised exception. */
    method FetchOrCache(c: Candidate, call: Call) returns (r: Option<Resolution>, sent: Option<Headers>)
      requires c.url != ""
      modifies this`disk
      ensures (r, sent, disk) == FetchSpec(parses, old(disk), c, call)
    {
      var key := KeyOf(c);
      if key in disk && call.now - disk[key].fetchedAt < call.ttl {
        return Some(FromCache(c, disk[key], CacheHit)), None;
      }
      if !call.urlAllowed {
        return None, None;
      }
      sent := Some(ConditionalHeaders(disk, key));
      match call.network {
        case Unreachable => return None, sent;
        case HttpError(code) =>
          if code == 304 && key in disk {
            return Some(FromCache(c, disk[key], NotModified)), sent;
          }
          return None, sent;
        case Replied(response) =>
          if !response.finalUrlAllowed {
            return None, sent;
          }
          if response.status == 304 && key in disk {
            return Some(FromCache(c, disk[key], NotModified)), sent;
          }
          if |response.body| > MAX_BYTES || !parses(response.body) {
            return None, sent;
          }
          match call.write {
            case Refused => return None, sent;
            case Torn =>
              disk := disk - {key};
              return None, sent;
            case Stored =>
              disk := disk[key := NewEntry(c, response, call.now)];
              return Some(FromCache(c, disk[key], Fetched)), sent;
          }
      }
    }

    /** resolve_schema, once the provider candidate is known. */
    method Resolve(call: Call) returns (r: Resolution, sent: Option<Headers>, ran: bool)
      modifies this`disk
      ensures Outcome(r, disk, sent, ran) == ResolveSpec(parses, old(disk), call)
    {
      sent, ran := None, false;
      if call.candidate.None? {
        return Resolution("none", NotFound, "", None, Nothing), sent, ran;
      }
      var c := call.candidate.value;
      if c.status != "" {
        return Resolution(c.provider, Reported(c.status), Advice(c), None, Nothing), sent, ran;
      }
      if call.mode == Off {
        return Resolution(c.provider, Disabled, Advice(c), None, Nothing), sent, ran;
      }
      if c.command != [] {
        if call.mode == CacheOnly {
          return Cached(disk, c, call.ttl, call.now), sent, ran;
        }
        if call.commandsAllowed {
          ran := true;
          if call.command.Some? && parses(call.command.value) {
            return Resolution(c.provider, Command, "", Some(Parsed(call.command.value)),
                              Of(c.provider, Sha256(call.command.value))), sent, ran;
          }
          var cached := Cached(disk, c, call.ttl, call.now);
          if cached.schema.Some? {
            return cached, sent, ran;
          }
          if c.url == "" {
            return Resolution(c.provider, Error, "", None, Nothing), sent, ran;
          }
        } else if c.url == "" {
          var cached := Cached(disk, c, call.ttl, call.now);
          if cached.schema.Some? {
            return cached, sent, ran;
          }
          return Resolution(c.provider, CommandDisabled, "", None, Nothing), sent, ran;
        }
      }
      if c.url == "" {
        return Resolution(c.provider, NotFound, "", None, Nothing), sent, ran;
      }
      if call.mode == CacheOnly {
        return Cached(disk, c, call.ttl, call.now), sent, ran;
      }
      var fetched;
      fetched, sent := FetchOrCache(c, call);
      if fetched.Some? {
        return fetched.value, sent, ran;
      }
      var cached := Cached(disk, c, call.ttl, call.now);
      if cached.schema.Some? {
        return cached, sent, ran;
      }
      return Resolution(c.provider, Error, c.url, None, Nothing), sent, ran;
    }
  }

  function Advice(c: Candidate): string {
    if c.advisory != "" then c.advisory else c.url
  }

  /* ----- The same calls by what decides them. ----- */

  function FetchSpec(parses: Bytes -> bool, cache: Cache, c: Candidate, call: Call)
    : (Option<Resolution>, Option<Headers>, Cache)
  {
    var key := KeyOf(c);
    if key in cache && IsFresh(cache[key], call.ttl, call.now) then
      (Some(FromCache(c, cache[key], CacheHit)), None, cache)
    else if !call.urlAllowed then
      (None, None, cache)
    else
      var sent := Some(ConditionalHeaders(cache, key));
      if Revalidates(cache, key, call.network) then
        (Some(FromCache(c, cache[key], NotModified)), sent, cache)
      else if !(call.network.Replied? && Usable(parses, call.network.response)) then
        (None, sent, cache)
      else match call.write
        case Stored => (Some(FromCache(c, NewEntry(c, call.network.response, call.now), Fetched)), sent,
                        cache[key := NewEntry(c, call.network.response, call.now)])
        case Refused => (None, sent, cache)
        case Torn => (None, sent, cache - {key})
  }

  function FetchThenFallBack(parses: Bytes -> bool, cache: Cache, c: Candidate, call: Call, ran: bool): Outcome {
    var (r, sent, after) := FetchSpec(parses, cache, c, call);
    if r.Some? then Outcome(r.value, after, sent, ran)
    else
      var cached := Cached(after, c, call.ttl, call.now);
      Outcome(if cached.schema.Some? then cached else Resolution(c.provider, Error, c.url, None, Nothing),
              after, sent, ran)
  }

  function ResolveSpec(parses: Bytes -> bool, cache: Cache, call: Call): Outcome {
    if call.candidate.None? then
      Outcome(Resolution("none", NotFound, "", None, Nothing), cache, None, false)
    else
      var c := call.candidate.value;
      var cached := Cached(cache, c, call.ttl, call.now);
      var trusted := c.command != [] && call.commandsAllowed;
      if c.status != "" then
        Outcome(Resolution(c.provider, Reported(c.status), Advice(c), None, Nothing), cache, None, false)
      else if call.mode == Off then
        Outcome(Resolution(c.provider, Disabled, Advice(c), None, Nothing), cache, None, false)
      else if call.mode == CacheOnly then
        Outcome(if c.command == [] && c.url == "" then Resolution(c.provider, NotFound, "", None, Nothing) else cached,
                cache, None, false)
      else if trusted && call.command.Some? && parses(call.command.value) then
        Outcome(Resolution(c.provider, Command, "", Some(Parsed(call.command.value)),
                           Of(c.provider, Sha256(call.command.value))),
                cache, None, true)
      else if c.command != [] && (trusted || c.url == "") && cached.schema.Some? then
        Outcome(cached, cache, None, trusted)
      else if c.url == "" then
        Outcome(Resolution(c.provider, if c.command == [] then NotFound else if trusted then Error else CommandDisabled,
                           "", None, Nothing), cache, None, trusted)
      else
        FetchThenFallBack(parses, cache, c, call, trusted)
  }

  /* ----- What a call may do. ----- */

  predicate CommandServes(parses: Bytes -> bool, call: Call) {
    call.commandsAllowed && call.command.Some? && parses(call.command.value)
  }

  /** A call talks to the network in exactly one situation. */
  lemma SendsExactly(parses: Bytes -> bool, cache: Cache, call: Call)
    ensures ResolveSpec(parses, cache, call).sent.Some? <==>
              && call.candidate.Some? && call.candidate.value.status == "" && call.mode == Auto
              && call.candidate.value.url != "" && call.urlAllowed
              && (call.candidate.value.url in cache ==> !IsFresh(cache[call.candidate.value.url], call.ttl, call.now))
              && (call.candidate.value.command != [] && call.commandsAllowed ==>
                    !CommandServes(parses, call) && call.candidate.value.url !in cache)
  {
  }

  /** Off and cache-only do nothing but read: no request, no command, no write. */
  lemma QuietModes(parses: Bytes -> bool, cache: Cache, call: Call)
    requires call.mode != Auto
    ensures ResolveSpec(parses, cache, call).sent == None
    ensures !ResolveSpec(parses, cache, call).ran
    ensures ResolveSpec(parses, cache, call).cache == cache
    ensures call.mode == Off ==> ResolveSpec(parses, cache, call).resolution.schema == None
  {
  }

  /** `cache_hit` is reported exactly for an entry inside its time to live. */
  lemma HitExactly(parses: Bytes -> bool, cache: Cache, call: Call)
    requires call.candidate.Some? && call.candidate.value.status == "" && call.mode != Off
    requires call.candidate.value.url != "" || call.candidate.value.command != []
    ensures ResolveSpec(parses, cache, call).resolution.status == CacheHit <==>
              && KeyOf(call.candidate.value) in cache
              && IsFresh(cache[KeyOf(call.candidate.value)], call.ttl, call.now)
              && !(call.mode == Auto && call.candidate.value.command != [] && CommandServes(parses, call))
  {
  }

  /** What is sent: the validators of the entry being revalidated, and none without an entry. */
  lemma SendsStoredValidators(parses: Bytes -> bool, cache: Cache, call: Call)
    requires ResolveSpec(parses, cache, call).sent.Some?
    ensures call.candidate.value.url !in cache ==> ResolveSpec(parses, cache, call).sent == Some(Headers(None, None))
    ensures call.candidate.value.url in cache ==>
              ResolveSpec(parses, cache, call).sent.value.ifNoneMatch == cache[call.candidate.value.url].etag
              && ResolveSpec(parses, cache, call).sent.value.ifModifiedSince
                 == cache[call.candidate.value.url].lastModified
  {
  }

  /* ----- Runs. ----- */

  /** The body a call accepts and keeps, with its key. */
  function Accepted(parses: Bytes -> bool, cache: Cache, call: Call): Option<(string, Bytes)> {
    if ResolveSpec(parses, cache, call).sent.Some?
       && call.network.Replied? && !Revalidates(cache, call.candidate.value.url, call.network)
       && Usable(parses, call.network.response) && call.write == Stored
    then Some((call.candidate.value.url, call.network.response.body))
    else None
  }

  function Replay(parses: Bytes -> bool, cache: Cache, calls: seq<Call>): Cache {
    if calls == [] then cache
    else ResolveSpec(parses, Replay(parses, cache, calls[..|calls| - 1]), calls[|calls| - 1]).cache
  }

  /** The body last accepted for each key, on top of the bodies the run started from. */
  function LastAccepted(parses: Bytes -> bool, cache: Cache, bodies: map<string, Bytes>, calls: seq<Call>)
    : map<string, Bytes>
  {
    if calls == [] then bodies
    else
      var before := calls[..|calls| - 1];
      var kept := Accepted(parses, Replay(parses, cache, before), calls[|calls| - 1]);
      var earlier := LastAccepted(parses, cache, bodies, before);
      if kept.Some? then earlier[kept.value.0 := kept.value.1] else earlier
  }

  /** Every entry is the parse, and carries the digest, of the body recorded for its key. */
  ghost predicate Backed(cache: Cache, bodies: map<string, Bytes>) {
    forall k :: k in cache ==>
      k in bodies && cache[k].hash == Sha256(bodies[k]) && cache[k].schema == Parsed(bodies[k])
  }

  lemma BackedStep(parses: Bytes -> bool, cache: Cache, bodies: map<string, Bytes>, call: Call)
    requires Backed(cache, bodies)
    ensures var kept := Accepted(parses, cache, call);
            Backed(ResolveSpec(parses, cache, call).cache,
                   if kept.Some? then bodies[kept.value.0 := kept.value.1] else bodies)
  {
  }

  lemma {:induction false} BackedRun(parses: Bytes -> bool, cache: Cache, bodies: map<string, Bytes>, calls: seq<Call>)
    requires Backed(cache, bodies)
    ensures Backed(Replay(parses, cache, calls), LastAccepted(parses, cache, bodies, calls))
  {
    if calls != [] {
      var before := calls[..|calls| - 1];
      BackedRun(parses, cache, bodies, before);
      BackedStep(parses, Replay(parses, cache, before), LastAccepted(parses, cache, bodies, before),
                 calls[|calls| - 1]);
    }
  }

  predicate FromStore(s: Status) {
    s == CacheHit || s == StaleCache || s == NotModified
  }

  lemma ServedFromEntry(parses: Bytes -> bool, cache: Cache, call: Call)
    requires FromStore(ResolveSpec(parses, cache, call).resolution.status)
    ensures call.candidate.Some? && KeyOf(call.candidate.value) in cache
    ensures var e := cache[KeyOf(call.candidate.value)]; var r := ResolveSpec(parses, cache, call).resolution;
            && r.schema == Some(e.schema) && r.fingerprint == Of(call.candidate.value.provider, e.hash)
            && r.provider == call.candidate.value.provider
            && r.source == if e.source != "" then e.source else call.candidate.value.url
  {
  }

  /** After any run, what is served from the cache is the parse of the body last accepted
    * for its key, and its fingerprint is made of the provider and that body alone.
    */
  lemma ServedIsLastAccepted(parses: Bytes -> bool, cache: Cache, bodies: map<string, Bytes>, calls: seq<Call>,
                             call: Call)
    requires Backed(cache, bodies)
    ensures var latest := LastAccepted(parses, cache, bodies, calls);
            var r := ResolveSpec(parses, Replay(parses, cache, calls), call).resolution;
            FromStore(r.status) ==>
              && call.candidate.Some?
              && KeyOf(call.candidate.value) in latest
              && r.schema == Some(Parsed(latest[KeyOf(call.candidate.value)]))
              && r.fingerprint == Of(call.candidate.value.provider, Sha256(latest[KeyOf(call.candidate.value)]))
  {
    hide ResolveSpec, Replay, LastAccepted, KeyOf;
    BackedRun(parses, cache, bodies, calls);
    if FromStore(ResolveSpec(parses, Replay(parses, cache, calls), call).resolution.status) {
      ServedFromEntry(parses, Replay(parses, cache, calls), call);
    }
  }

  /** While every call of a run falls inside an entry's time to live, the run leaves that
    * entry alone and no call for it sends a request, whatever happens to other keys.
    */
  lemma {:induction false} QuietUntilExpiry(parses: Bytes -> bool, cache: Cache, key: string, calls: seq<Call>)
    requires key in cache
    requires forall k :: 0 <= k < |calls| ==> calls[k].now - cache[key].fetchedAt < calls[k].ttl
    ensures key in Replay(parses, cache, calls) && Replay(parses, cache, calls)[key] == cache[key]
    ensures forall k :: 0 <= k < |calls|
                        && calls[k].candidate.Some? && calls[k].candidate.value.url == key && key != "" ==>
              ResolveSpec(parses, Replay(parses, cache, calls[..k]), calls[k]).sent == None
  {
    if calls != [] {
      var before := calls[..|calls| - 1];
      QuietUntilExpiry(parses, cache, key, before);
      forall k | 0 <= k < |calls| && calls[k].candidate.Some? && calls[k].candidate.value.url == key && key != ""
        ensures ResolveSpec(parses, Replay(parses, cache, calls[..k]), calls[k]).sent == None
      {
        if k < |before| {
          assert calls[..k] == before[..k] && calls[k] == before[k];
        } else {
          assert calls[..k] == before;
          SendsExactly(parses, Replay(parses, cache, before), calls[k]);
        }
      }
    }
  }

  /** A revalidation keeps the entry untouched, its age included ... */
  lemma NotModifiedKeepsEntry(parses: Bytes -> bool, cache: Cache, call: Call)
    requires ResolveSpec(parses, cache, call).resolution.status == NotModified
    ensures ResolveSpec(parses, cache, call).cache == cache
    ensures !IsFresh(cache[call.candidate.value.url], call.ttl, call.now)
  {
  }

  /** ... so the next call with the same settings asks again, however soon it comes. */
  lemma NotModifiedAsksAgain(parses: Bytes -> bool, cache: Cache, call: Call, next: Call)
    requires ResolveSpec(parses, cache, call).resolution.status == NotModified
    requires next == call.(now := next.now, network := next.network, write := next.write) && call.now <= next.now
    ensures ResolveSpec(parses, ResolveSpec(parses, cache, call).cache, next).sent.Some?
  {
    SendsExactly(parses, cache, call);
    SendsExactly(parses, cache, next);
  }

  /** A failing fetch or write loses nothing that was served before, unless the file itself is torn. */
  lemma FailureServesStale(parses: Bytes -> bool, cache: Cache, call: Call)
    requires ResolveSpec(parses, cache, call).sent.Some? && call.write != Torn
    ensures ResolveSpec(parses, cache, call).resolution.status == Error
            <==> call.candidate.value.url !in cache && Accepted(parses, cache, call).None?
    ensures ResolveSpec(parses, cache, call).resolution.status == StaleCache
            <==> call.candidate.value.url in cache && Accepted(parses, cache, call).None?
                 && !Revalidates(cache, call.candidate.value.url, call.network)
  {
  }

  /** Only 304 is told apart: any other delivered status is accepted on its body alone,
    * and with nothing cached so is a 304 whose body parses.
    */
  lemma StatusIsNotChecked(parses: Bytes -> bool, cache: Cache, call: Call, status: int)
    requires Accepted(parses, cache, call).Some?
    requires status != 304 || call.candidate.value.url !in cache
    ensures Accepted(parses, cache, call.(network := Replied(call.network.response.(status := status))))
         == Accepted(parses, cache, call)
  {
  }

  /** A fetcher that delivers an error page whose body parses gets it cached. */
  lemma AnyStatusCanBeAccepted(parses: Bytes -> bool, url: string, body: Bytes, status: int) returns (call: Call)
    requires url != "" && parses(body) && |body| <= MAX_BYTES
    ensures call.network.Replied? && call.network.response.status == status
    ensures Accepted(parses, map[], call) == Some((url, body))
  {
    var c := Candidate("provider", url, [], "", "");
    call := Call(Some(c), Auto, false, 0, 0, None, true, Replied(Response(status, true, body, None, None)), Stored);
  }

  /* ----- What a call accepts, and how long it lasts. ----- */

  /** A body is accepted and kept exactly when it was asked for, came from an allowed place, did not
    * merely confirm an entry, is at most 5 MiB and parses, and the file could be written.
    */
  lemma AcceptedExactly(parses: Bytes -> bool, cache: Cache, call: Call)
    ensures Accepted(parses, cache, call).Some? <==>
            && ResolveSpec(parses, cache, call).sent.Some? && call.network.Replied?
            && call.network.response.finalUrlAllowed
            && !(call.network.response.status == 304 && call.candidate.value.url in cache)
            && |call.network.response.body| <= 5_242_880 && parses(call.network.response.body)
            && call.write == Stored
    ensures Accepted(parses, cache, call).Some? ==>
              Accepted(parses, cache, call).value == (call.candidate.value.url, call.network.response.body)
  {
  }

  /** The accepted body is what the call returns. */
  lemma AcceptedIsFetched(parses: Bytes -> bool, cache: Cache, call: Call)
    ensures ResolveSpec(parses, cache, call).resolution.status == Fetched <==> Accepted(parses, cache, call).Some?
    ensures Accepted(parses, cache, call).Some? ==>
              var c, body := call.candidate.value, call.network.response.body;
              ResolveSpec(parses, cache, call).resolution
              == Resolution(c.provider, Fetched, c.url, Some(Parsed(body)), Of(c.provider, Sha256(body)))
  {
  }

  /** What is stored: the body's parse and digest, the reply's validators and the time of the call. */
  lemma AcceptedIsStored(parses: Bytes -> bool, cache: Cache, call: Call)
    requires Accepted(parses, cache, call).Some?
    ensures var r, url := call.network.response, call.candidate.value.url;
            ResolveSpec(parses, cache, call).cache
            == cache[url := Entry(url, call.now, r.etag, r.lastModified, Sha256(r.body), Parsed(r.body))]
  {
  }

  /** A revalidation is exactly a 304 for an entry, raised or delivered from an allowed place. */
  lemma NotModifiedExactly(parses: Bytes -> bool, cache: Cache, call: Call)
    ensures ResolveSpec(parses, cache, call).resolution.status == NotModified <==>
            && ResolveSpec(parses, cache, call).sent.Some? && call.candidate.value.url in cache
            && (call.network == HttpError(304)
                || (call.network.Replied? && call.network.response.finalUrlAllowed
                    && call.network.response.status == 304))
  {
  }

  /** The reply to a call this later call still relies on. */
  predicate Within(call: Call, next: Call) {
    next.now - call.now < next.ttl
  }

  /** The next call for the URL of an accepted body: inside the time to live it sends nothing and
    * serves that body; outside it sends the validators that came with it.
    */
  lemma AcceptedServesUntilExpiry(parses: Bytes -> bool, cache: Cache, call: Call, later: Cache, next: Call)
    requires Accepted(parses, cache, call).Some?
    requires next.candidate.Some? && next.candidate.value.url == call.candidate.value.url
    requires var url := call.candidate.value.url;
             url in later && later[url] == ResolveSpec(parses, cache, call).cache[url]
    ensures Within(call, next) ==> ResolveSpec(parses, later, next).sent == None
    ensures var c, body := next.candidate.value, call.network.response.body;
            Within(call, next) && c.status == "" && c.command == [] && next.mode != Off ==>
              ResolveSpec(parses, later, next).resolution
              == Resolution(c.provider, CacheHit, c.url, Some(Parsed(body)), Of(c.provider, Sha256(body)))
    ensures !Within(call, next) && next.candidate.value.status == "" && next.mode == Auto && next.urlAllowed
            && (next.candidate.value.command == [] || !next.commandsAllowed) ==>
              ResolveSpec(parses, later, next).sent
              == Some(Headers(call.network.response.etag, call.network.response.lastModified))
  {
    AcceptedIsStored(parses, cache, call);
    AcceptedExactly(parses, cache, call);
  }

  /** Over a run: while every call falls within the time to live of an accepted one, by the calls' own
    * clocks and settings, no other request for its URL is sent; and the call after that serves its
    * body or, past the time to live, asks again with its validators.
    */
  lemma AcceptedThenQuiet(parses: Bytes -> bool, cache: Cache, call: Call, calls: seq<Call>, next: Call)
    requires Accepted(parses, cache, call).Some?
    requires forall k :: 0 <= k < |calls| ==> Within(call, calls[k])
    requires next.candidate.Some? && next.candidate.value.url == call.candidate.value.url
    ensures var url, after := call.candidate.value.url, ResolveSpec(parses, cache, call).cache;
            forall k :: 0 <= k < |calls| && calls[k].candidate.Some? && calls[k].candidate.value.url == url ==>
              ResolveSpec(parses, Replay(parses, after, calls[..k]), calls[k]).sent == None
    ensures var c, r := next.candidate.value, call.network.response;
            var last := ResolveSpec(parses, Replay(parses, ResolveSpec(parses, cache, call).cache, calls), next);
            && (Within(call, next) ==> last.sent == None)
            && (Within(call, next) && c.status == "" && c.command == [] && next.mode != Off ==>
                  && last.resolution.schema == Some(Parsed(r.body)) && last.resolution.status == CacheHit
                  && last.resolution.provider == c.provider && last.resolution.source == c.url
                  && last.resolution.fingerprint == Of(c.provider, Sha256(r.body)))
            && (!Within(call, next) && c.status == "" && next.mode == Auto && next.urlAllowed &&
                (c.command == [] || !next.commandsAllowed) ==>
                  last.sent == Some(Headers(r.etag, r.lastModified)))
  {
    var url, after := call.candidate.value.url, ResolveSpec(parses, cache, call).cache;
    AcceptedIsStored(parses, cache, call);
    SendsExactly(parses, cache, call);
    hide ResolveSpec, Replay;
    QuietUntilExpiry(parses, after, url, calls);
    AcceptedServesUntilExpiry(parses, cache, call, Replay(parses, after, calls), next);
  }

  /** A write that tears the file loses the entry and the schema. */
  lemma TornWriteLoses(parses: Bytes -> bool, cache: Cache, call: Call)
    requires Accepted(parses, cache, call.(write := Stored)).Some? && call.write == Torn
    ensures ResolveSpec(parses, cache, call).cache == cache - {call.candidate.value.url}
    ensures ResolveSpec(parses, cache, call).resolution.status == Error
    ensures ResolveSpec(parses, cache, call).resolution.schema == None
  {
  }

  /* ----- The other outcomes. ----- */

  lemma RunsCommandExactly(parses: Bytes -> bool, cache: Cache, call: Call)
    ensures ResolveSpec(parses, cache, call).ran <==>
            && call.candidate.Some? && call.candidate.value.status == "" && call.mode == Auto
            && call.candidate.value.command != [] && call.commandsAllowed
  {
  }

  /** A command whose output parses answers the call, and leaves the cache alone. */
  lemma CommandAnswers(parses: Bytes -> bool, cache: Cache, call: Call)
    requires ResolveSpec(parses, cache, call).ran && call.command.Some? && parses(call.command.value)
    ensures var c, output := call.candidate.value, call.command.value;
            var fingerprint := Of(c.provider, Sha256(output));
            ResolveSpec(parses, cache, call)
            == Outcome(Resolution(c.provider, Command, "", Some(Parsed(output)), fingerprint), cache, None, true)
  {
  }

  /** What is reported without looking anything up, and what when there is nothing to find. */
  lemma WithoutSchema(parses: Bytes -> bool, cache: Cache, call: Call)
    ensures call.candidate.None? ==>
              ResolveSpec(parses, cache, call).resolution == Resolution("none", NotFound, "", None, Nothing)
    ensures call.candidate.Some? && call.candidate.value.status != "" ==>
              var c := call.candidate.value;
              var source := if c.advisory != "" then c.advisory else c.url;
              ResolveSpec(parses, cache, call).resolution
              == Resolution(c.provider, Reported(c.status), source, None, Nothing)
    ensures call.candidate.Some? && call.candidate.value.status == "" && call.mode == Off ==>
              var c := call.candidate.value;
              ResolveSpec(parses, cache, call).resolution
              == Resolution(c.provider, Disabled, if c.advisory != "" then c.advisory else c.url, None, Nothing)
    ensures call.candidate.Some? && call.candidate.value.status == "" && call.mode != Off
            && call.candidate.value.url == "" && call.candidate.value.command == [] ==>
              ResolveSpec(parses, cache, call).resolution
              == Resolution(call.candidate.value.provider, NotFound, "", None, Nothing)
    ensures call.candidate.Some? && call.candidate.value.status == "" && call.mode == CacheOnly
            && (call.candidate.value.url != "" || call.candidate.value.command != [])
            && KeyOf(call.candidate.value) !in cache ==>
              ResolveSpec(parses, cache, call).resolution
              == Resolution(call.candidate.value.provider, CacheMiss, call.candidate.value.url, None, Nothing)
    ensures call.candidate.Some? && call.candidate.value.status == "" && call.mode == Auto
            && call.candidate.value.url == "" && call.candidate.value.command != []
            && KeyOf(call.candidate.value) !in cache
            && !(call.commandsAllowed && call.command.Some? && parses(call.command.value)) ==>
              ResolveSpec(parses, cache, call).resolution
              == Resolution(call.candidate.value.provider, if call.commandsAllowed then Error else CommandDisabled,
                            "", None, Nothing)
  {
  }

  /** A fetch that ends without a schema is an error that names its provider and URL. */
  lemma FailedFetch(parses: Bytes -> bool, cache: Cache, call: Call)
    requires call.candidate.Some? && call.candidate.value.status == "" && call.mode == Auto
    requires call.candidate.value.url != "" && ResolveSpec(parses, cache, call).resolution.schema == None
    ensures var c := call.candidate.value;
            ResolveSpec(parses, cache, call).resolution == Resolution(c.provider, Error, c.url, None, Nothing)
  {
  }

  /** Which file a candidate uses: its URL's, or its command line's, or its provider's. */
  lemma KeyMeaning(c: Candidate, words: seq<string>, word: string)
    ensures c.url != "" ==> KeyOf(c) == c.url
    ensures c.url == "" && c.command == [] ==> KeyOf(c) == c.provider
    ensures c.url == "" && c.command == words + [word] && words != [] ==> KeyOf(c) == Join(words) + " " + word
    ensures c.url == "" && c.command == [word] ==> KeyOf(c) == if word != "" then word else c.provider
  {
    JoinSnoc(words, word);
  }

  lemma {:induction false} JoinSnoc(words: seq<string>, word: string)
    ensures Join(words + [word]) == if words == [] then word else Join(words) + " " + word
  {
    if words != [] {
      assert (words + [word])[1..] == words[1..] + [word];
      JoinSnoc(words[1..], word);
    }
  }
}
