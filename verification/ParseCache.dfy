/** The parse cache over a replaceable Wasm artifact: SemanticDiffer._cached_process and
  * _wasm_hash_for (src/intentumdiff/differ.py), LoadedPlugin reloads (src/intentumdiff/plugins/loader.py).
  *
  * SHA-256, cache keys and parse results are symbolic: equal only when everything they
  * were made from is equal.
  */
module ParseCache {
  import opened ByteStrings
  import opened Common

  datatype Error = NoArtifact | ChangedWhileHashing | Unverifiable | DiffersFromArtifact
                 | ReloadFailed | Trapped | IdentityChanged

  datatype Result<T> = Ok(value: T) | Err(error: Error)

  type Identity = nat

  /** One state of the artifact's path; a path goes through a history of them. */
  datatype Version = Missing | File(id: Identity, bytes: Bytes)

  /** What a parser object says about the component it runs. */
  datatype Report = Unreported | Garbled | Hex(digest: Digest)

  datatype Request = Request(input: string, language: string, filename: string)

  /** The tree a component yields for a request. */
  datatype Tree = Tree(component: Bytes, request: Request)

  datatype Key = Key(request: Request, grammar: string, hash: Digest)

  class Parser {
    const adapter: bool
    const history: seq<Version>
    var compiled: Bytes
    var reported: Report
    var tainted: bool
    var grammar: Option<string>

    /** The loader reports the digest of the very buffer it compiled. */
    predicate Honest()
      reads this
    {
      reported.Hex? ==> reported.digest == Sha256(compiled)
    }

    constructor (adapter: bool, history: seq<Version>, compiled: Bytes)
      ensures this.adapter == adapter && this.history == history && this.compiled == compiled
      ensures Honest() && reported.Hex? && !tainted && grammar == None
    {
      this.adapter, this.history, this.compiled := adapter, history, compiled;
      reported, tainted, grammar := Hex(Sha256(compiled)), false, None;
    }

    /** A guest call traps; the next call reloads. */
    method Trap()
      modifies this`tainted
      ensures tainted
    {
      tainted := true;
    }

    /** _reload, when a call finds the plugin tainted. */
    method Ready(t: nat) returns (ok: bool)
      requires t < |history| && Honest()
      modifies this`compiled, this`reported, this`tainted
      ensures Honest()
      ensures ok <==> !(old(tainted) && history[t].Missing?)
      ensures ok ==> !tainted && compiled == (if old(tainted) then history[t].bytes else old(compiled))
      ensures ok && old(tainted) ==> reported == Hex(Sha256(compiled))
      ensures !ok || !old(tainted) ==> compiled == old(compiled) && reported == old(reported) && tainted == old(tainted)
    {
      if !tainted {
        return true;
      }
      match history[t] {
        case Missing => return false;
        case File(_, bytes) =>
          compiled, reported, tainted := bytes, Hex(Sha256(bytes)), false;
          return true;
      }
    }

    /** grammar_id: memoised, otherwise a guest call made at time t. */
    method GrammarId(t: nat, call: Option<string>) returns (r: Result<string>)
      requires t < |history| && Honest()
      modifies this
      ensures Honest()
      ensures r.Ok? <==> old(grammar).Some? || (call.Some? && !(old(tainted) && history[t].Missing?))
      ensures r.Ok? ==> grammar == Some(r.value)
      ensures r.Ok? ==> r.value == if old(grammar).Some? then old(grammar).value else call.value
      ensures r.Ok? ==> compiled == (if old(grammar).None? && old(tainted) then history[t].bytes else old(compiled))
      ensures r.Ok? ==>
                reported == if old(grammar).None? && old(tainted) then Hex(Sha256(compiled)) else old(reported)
      ensures r.Ok? && old(grammar).None? ==> !tainted
      ensures old(grammar).Some? ==> tainted == old(tainted)
    {
      if grammar.Some? {
        return Ok(grammar.value);
      }
      var ready := Ready(t);
      if !ready {
        return Err(ReloadFailed);
      }
      if call.None? {
        tainted := true;
        return Err(Trapped);
      }
      grammar := call;
      return Ok(call.value);
    }

    /** process: the tree comes from the component compiled when the call ends. */
    method Process(t: nat, request: Request, completes: bool) returns (r: Result<Tree>)
      requires t < |history| && Honest()
      modifies this`compiled, this`reported, this`tainted
      ensures Honest()
      ensures r.Ok? <==> completes && !(old(tainted) && history[t].Missing?)
      ensures r.Ok? ==> r.value == Tree(compiled, request)
      ensures r.Ok? ==> compiled == (if old(tainted) then history[t].bytes else old(compiled))
      ensures r.Ok? ==> reported == (if old(tainted) then Hex(Sha256(compiled)) else old(reported))
    {
      var ready := Ready(t);
      if !ready {
        return Err(ReloadFailed);
      }
      if !completes {
        tainted := true;
        return Err(Trapped);
      }
      return Ok(Tree(compiled, request));
    }
  }

  /** When each observation of the artifact happens. */
  datatype Clock = Clock(stat: nat, read: nat, restat: nat)

  predicate Runs(c: Clock, history: seq<Version>) {
    c.stat <= c.read <= c.restat < |history|
  }

  /** The digest step: memo hit, or stat, read, stat again. */
  function Digested(memo: map<Identity, Digest>, history: seq<Version>, c: Clock): Result<Digest>
    requires Runs(c, history)
  {
    match history[c.stat]
    case Missing => Err(NoArtifact)
    case File(id, _) =>
      if id in memo then Ok(memo[id])
      else if history[c.read].Missing? || history[c.restat].Missing? then Err(NoArtifact)
      else if history[c.restat].id != id then Err(ChangedWhileHashing)
      else Ok(Sha256(history[c.read].bytes))
  }

  function Learned(memo: map<Identity, Digest>, history: seq<Version>, c: Clock): map<Identity, Digest>
    requires Runs(c, history)
  {
    match Digested(memo, history, c)
    case Ok(d) => memo[history[c.stat].id := d]
    case Err(_) => memo
  }

  /** A file identity never comes back, here or on another path, with other bytes. */
  ghost predicate Fresh(history: seq<Version>, content: Identity -> Bytes) {
    && (forall i, j :: 0 <= i < j < |history|
                       && history[i].File? && history[j].File? && history[i].id == history[j].id ==>
          forall k :: i <= k <= j ==> history[k] == history[i])
    && (forall i :: 0 <= i < |history| && history[i].File? ==> history[i].bytes == content(history[i].id))
  }

  ghost predicate MemoTrue(memo: map<Identity, Digest>, content: Identity -> Bytes) {
    forall id :: id in memo ==> memo[id] == Sha256(content(id))
  }

  /** The two stats bracket the read, so a digest belongs to the file first seen. */
  lemma DigestIsOfArtifact(memo: map<Identity, Digest>, history: seq<Version>, c: Clock, content: Identity -> Bytes)
    requires Runs(c, history) && MemoTrue(memo, content) && Fresh(history, content)
    ensures Digested(memo, history, c).Ok? ==>
              && history[c.stat].File?
              && Digested(memo, history, c).value == Sha256(history[c.stat].bytes)
    ensures MemoTrue(Learned(memo, history, c), content)
  {
  }

  /** A file replaced between the first stat and the read is never digested. */
  lemma ReplacedFileIsRefused(memo: map<Identity, Digest>, history: seq<Version>, c: Clock, content: Identity -> Bytes)
    requires Runs(c, history) && Fresh(history, content)
    requires history[c.stat].File? && history[c.stat].id !in memo && history[c.read] != history[c.stat]
    ensures Digested(memo, history, c).Err?
  {
  }

  /** A file that stays put while it is looked at is digested; a remembered one is not read again. */
  lemma SteadyFileIsDigested(memo: map<Identity, Digest>, history: seq<Version>, c: Clock, content: Identity -> Bytes)
    requires Runs(c, history) && MemoTrue(memo, content) && Fresh(history, content)
    requires history[c.stat].File?
    ensures history[c.stat] == history[c.read] == history[c.restat] ==>
              Digested(memo, history, c) == Ok(Sha256(history[c.stat].bytes))
    ensures history[c.stat].id in memo ==> Digested(memo, history, c) == Ok(memo[history[c.stat].id])
  {
  }

  /** How a digest is refused: no file at one of the looks, or another file at the last one. */
  lemma RefusedExactly(memo: map<Identity, Digest>, history: seq<Version>, c: Clock)
    requires Runs(c, history)
    ensures Digested(memo, history, c) == Err(NoArtifact) <==>
            || history[c.stat] == Missing
            || (history[c.stat].id !in memo && (history[c.read] == Missing || history[c.restat] == Missing))
    ensures Digested(memo, history, c) == Err(ChangedWhileHashing) <==>
            && history[c.stat] != Missing && history[c.read] != Missing && history[c.restat] != Missing
            && history[c.stat].id !in memo && history[c.restat].id != history[c.stat].id
    ensures Digested(memo, history, c).Err? ==> Digested(memo, history, c).error in {NoArtifact, ChangedWhileHashing}
  {
  }

  /** A digest once made is remembered for its file, and nothing else is learned. */
  lemma LearnedExactly(memo: map<Identity, Digest>, history: seq<Version>, c: Clock, id: Identity)
    requires Runs(c, history)
    ensures Digested(memo, history, c).Ok? && history[c.stat] == File(id, history[c.stat].bytes) ==>
              id in Learned(memo, history, c) && Ok(Learned(memo, history, c)[id]) == Digested(memo, history, c)
    ensures id in memo ==> id in Learned(memo, history, c) && Learned(memo, history, c)[id] == memo[id]
    ensures id in Learned(memo, history, c) && id !in memo ==>
              history[c.stat].File? && history[c.stat].id == id && Digested(memo, history, c).Ok?
  {
  }

  /** A grammar id the caller gave; an empty one counts as none. */
  predicate Named(given: Option<string>) {
    given.Some? && given.value != ""
  }

  /** The artifact on disk and the compiled component are the same bytes. */
  predicate Verified(memo: map<Identity, Digest>, history: seq<Version>, c: Clock, reported: Report)
    requires Runs(c, history)
  {
    Digested(memo, history, c).Ok? && reported == Hex(Digested(memo, history, c).value)
  }

  /** A plugin that reports what it compiled is verified exactly when a digest can be made and
    * the file first seen holds the compiled bytes.
    */
  lemma VerifiedExactly(memo: map<Identity, Digest>, history: seq<Version>, c: Clock, compiled: Bytes,
                        content: Identity -> Bytes)
    requires Runs(c, history) && MemoTrue(memo, content) && Fresh(history, content)
    ensures Verified(memo, history, c, Hex(Sha256(compiled))) <==>
            Digested(memo, history, c).Ok? && history[c.stat].File? && history[c.stat].bytes == compiled
    ensures !Verified(memo, history, c, Unreported) && !Verified(memo, history, c, Garbled)
  {
    DigestIsOfArtifact(memo, history, c, content);
  }

  /** The grammar id that enters the key: the caller's, the remembered one, or the guest's
    * answer, for which a tainted plugin must first find an artifact to reload.
    */
  function GrammarText(given: Option<string>, remembered: Option<string>, tainted: bool, found: Version,
                       call: Option<string>)
    : Option<string>
  {
    if Named(given) then given
    else if remembered.Some? then remembered
    else if tainted && found.Missing? then None
    else call
  }

  lemma GrammarTextExactly(given: Option<string>, remembered: Option<string>, tainted: bool, found: Version,
                           call: Option<string>, g: string)
    ensures GrammarText(given, remembered, tainted, found, call) == Some(g) <==>
            || (given == Some(g) && g != "")
            || (given in {None, Some("")} && remembered == Some(g))
            || (given in {None, Some("")} && remembered == None && call == Some(g) && (tainted ==> found != Missing))
  {
  }

  class Differ {
    var memo: map<Identity, Digest>
    var store: map<Key, Tree>

    /** Every stored tree is the tree of the component its key names. */
    ghost predicate Sound()
      reads this
    {
      forall k :: k in store ==> store[k] == Tree(k.hash.of, k.request)
    }

    constructor ()
      ensures memo == map[] && store == map[] && Sound()
    {
      memo, store := map[], map[];
    }

    method Evict(keys: set<Key>)
      requires Sound()
      modifies this`store
      ensures Sound() && store == old(store) - keys
    {
      store := store - keys;
    }

    /** _wasm_hash_for */
    method HashFor(p: Parser, c: Clock) returns (r: Result<Digest>)
      requires Runs(c, p.history)
      modifies this`memo
      ensures r.Ok? <==>
              && Digested(old(memo), p.history, c).Ok?
              && (p.adapter ==> p.reported.Hex?)
              && (p.reported.Hex? ==> p.reported.digest == Digested(old(memo), p.history, c).value)
      ensures r.Ok? ==> r == Digested(old(memo), p.history, c)
      ensures r.Ok? && p.adapter && p.Honest() ==> r.value == Sha256(p.compiled)
      ensures memo == Learned(old(memo), p.history, c)
    {
      match p.history[c.stat] {
        case Missing => return Err(NoArtifact);
        case File(id, _) =>
          var digest;
          if id in memo {
            digest := memo[id];
          } else {
            if p.history[c.read].Missing? || p.history[c.restat].Missing? {
              return Err(NoArtifact);
            }
            if p.history[c.restat].id != id {
              return Err(ChangedWhileHashing);
            }
            digest := Sha256(p.history[c.read].bytes);
          }
          memo := memo[id := digest];
          if p.adapter && !p.reported.Hex? {
            return Err(Unverifiable);
          }
          if p.reported.Hex? && p.reported.digest != digest {
            return Err(DiffersFromArtifact);
          }
          return Ok(digest);
      }
    }

    /** _cached_process on a parser adapter.  `given` is the caller's grammar id, `call` and
      * `completes` the guest's behaviour, `lost` a backend that no longer holds the entry.
      */
    method CachedProcess(p: Parser, request: Request, given: Option<string>,
                         first: Clock, lookup: nat, run: nat, last: Clock,
                         call: Option<string>, completes: bool, lost: bool) returns (r: Result<Tree>, hit: bool)
      requires p.adapter && p.Honest() && Sound()
      requires Runs(first, p.history) && first.restat <= lookup <= run <= last.stat && Runs(last, p.history)
      modifies this, p
      ensures p.Honest() && Sound()
      // The answer is that of the component that was verified, for this very request.
      ensures r.Ok? ==> old(p.reported).Hex? && r.value == Tree(old(p.compiled), request)
      // A parse that really ran also leaves that component in place.
      ensures r.Ok? && !hit ==> p.compiled == old(p.compiled)
      // After a hit it is in place unless the grammar-id lookup reloaded other bytes.
      ensures r.Ok? && hit ==>
                (p.compiled == old(p.compiled) <==>
                 Named(given) || old(p.grammar).Some? || !old(p.tainted)
                 || (p.history[lookup].File? && p.history[lookup].bytes == old(p.compiled)))
      // What a call that answers leaves in the plugin and in the digest memo.
      ensures Named(given) || old(p.grammar).Some? ==> p.grammar == old(p.grammar)
      ensures r.Ok? && !Named(given) ==>
                p.grammar == GrammarText(given, old(p.grammar), old(p.tainted), p.history[lookup], call)
      ensures r.Ok? && !old(p.tainted) ==> p.reported == old(p.reported)
      ensures hit && !Named(given) && old(p.grammar).None? && old(p.tainted) ==>
                p.history[lookup].File? && p.compiled == p.history[lookup].bytes
      ensures memo == Learned(old(memo), p.history, first)
              || memo == Learned(Learned(old(memo), p.history, first), p.history, last)
      // When it answers, and what it stores.
      ensures hit <==> Verified(old(memo), p.history, first, old(p.reported)) && !lost
                       && GrammarText(given, old(p.grammar), old(p.tainted), p.history[lookup], call).Some?
                       && var g := GrammarText(given, old(p.grammar), old(p.tainted), p.history[lookup], call).value;
                          Key(request, g, Sha256(old(p.compiled))) in old(store)
      ensures r.Ok? <==>
                hit || (
                  && Verified(old(memo), p.history, first, old(p.reported))
                  && GrammarText(given, old(p.grammar), old(p.tainted), p.history[lookup], call).Some?
                  && completes
                  && (old(p.tainted) ==>
                        var loaded := p.history[if Named(given) || old(p.grammar).Some? then run else lookup];
                        loaded.File? && loaded.bytes == old(p.compiled))
                  && Digested(Learned(old(memo), p.history, first), p.history, last) == Ok(Sha256(old(p.compiled))))
      ensures store == if r.Err? || hit then old(store)
                       else var g := GrammarText(given, old(p.grammar), old(p.tainted), p.history[lookup], call).value;
                            old(store)[Key(request, g, Sha256(old(p.compiled))) := Tree(old(p.compiled), request)]
    {
      hit := false;
      var hash := HashFor(p, first);
      if hash.Err? {
        return Err(hash.error), false;
      }
      var grammar;
      if Named(given) {
        grammar := given.value;
      } else {
        var g := p.GrammarId(lookup, call);
        if g.Err? {
          return Err(g.error), false;
        }
        grammar := g.value;
      }
      var key := Key(request, grammar, hash.value);
      if key in store && !lost {
        return Ok(store[key]), true;
      }
      var tree := p.Process(run, request, completes);
      if tree.Err? {
        return Err(tree.error), false;
      }
      var again := HashFor(p, last);
      if again.Err? {
        return Err(again.error), false;
      }
      if again.value != hash.value {
        return Err(IdentityChanged), false;
      }
      store := store[key := tree.value];
      return tree, false;
    }
  }

  /** Asking twice about an artifact that stays put: one parse, and its tree again from the cache. */
  method AskTwice(bytes: Bytes, request: Request, given: Option<string>, guest: string)
    returns (first: Result<Tree>, hit: bool, again: Result<Tree>, hitAgain: bool)
    ensures first == again == Ok(Tree(bytes, request)) && !hit && hitAgain
  {
    var c := Clock(0, 0, 0);
    var p := new Parser(true, [File(0, bytes)], bytes);
    var d := new Differ();
    first, hit := d.CachedProcess(p, request, given, c, 0, 0, c, Some(guest), true, false);
    again, hitAgain := d.CachedProcess(p, request, given, c, 0, 0, c, Some(guest), true, false);
  }

  /** The case the hit path misses: a trapped plugin, no grammar id at hand, and a file
    * replaced between the hash and the lookup.  The tree served is the old component's,
    * while the plugin already runs the new one.
    */
  method StaleHit(a: Bytes, b: Bytes, request: Request) returns (served: Bytes, running: Bytes)
    requires a != b
    ensures served == a && running == b
  {
    var start, swap := Clock(0, 0, 0), Clock(1, 1, 1);
    var p := new Parser(true, [File(0, a), File(1, b)], a);
    var d := new Differ();
    var tree, hit := d.CachedProcess(p, request, Some("python"), start, 0, 0, start, None, true, false);
    assert tree.Ok? && !hit;
    p.Trap();
    tree, hit := d.CachedProcess(p, request, None, start, 1, 1, swap, Some("python"), true, false);
    assert hit && tree.Ok?;
    served, running := tree.value.component, p.compiled;
  }
}
