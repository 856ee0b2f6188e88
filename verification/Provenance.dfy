/** Component provenance: scripts/wasm_provenance.py and scripts/provision_build_inputs.py.
  *
  * SHA-256 is symbolic: digests are equal only for equal bytes.
  */
module Provenance {
  import opened ByteStrings
  import opened Common

  type Directory = map<string, Bytes>

  const SCHEMA_VERSION := 1
  const REPOSITORY := "https://github.com/buchochelliq-labs/intentumdiff-"
  const PARSER_ARTIFACT := "parser-wasm"
  const RENDERER_ARTIFACT := "renderer-components"
  const HTML := "html_renderer.wasm"
  const LLM := "llm_renderer.wasm"
  const PATCH := "patch_renderer.wasm"
  const TERMINAL := "terminal_renderer.wasm"
  const REQUIRED: set<string> := {HTML, LLM, PATCH, TERMINAL}

  /** A manifest row; a field a hand-made manifest lacks is None. */
  datatype Row = Row(sha: Option<Digest>, size: Option<int>, source: Option<Source>)

  datatype Manifest = Manifest(version: Option<int>, artifacts: map<string, Row>)

  datatype Source = Source(exactFields: bool, repository: string, commit: string, artifact: string, artifactId: int,
                           archiveSha: string, abiIsTextOrNull: bool)

  predicate IsWasm(name: string) {
    EndsWith(name, ".wasm")
  }

  /** _staged_wasm */
  function Staged(dir: Directory): Directory {
    map name | name in dir && IsWasm(name) :: dir[name]
  }

  /* ----- The manifest. ----- */

  method GenerateManifest(dir: Directory) returns (m: Manifest)
    ensures m.version == Some(SCHEMA_VERSION)
    ensures m.artifacts.Keys == Staged(dir).Keys
    ensures forall name :: name in m.artifacts ==>
              m.artifacts[name] == Row(Some(Sha256(dir[name])), Some(|dir[name]|), None)
  {
    var artifacts: map<string, Row> := map[];
    var left := Staged(dir).Keys;
    while left != {}
      invariant left <= Staged(dir).Keys
      invariant artifacts.Keys == Staged(dir).Keys - left
      invariant forall name :: name in artifacts ==>
                  artifacts[name] == Row(Some(Sha256(dir[name])), Some(|dir[name]|), None)
      decreases left
    {
      ghost var some := Member(left);
      var name :| name in left;
      artifacts := artifacts[name := Row(Some(Sha256(dir[name])), Some(|dir[name]|), None)];
      left := left - {name};
    }
    m := Manifest(Some(SCHEMA_VERSION), artifacts);
  }

  predicate RowMatches(row: Row, bytes: Bytes) {
    row.sha == Some(Sha256(bytes)) && row.size == Some(|bytes|)
  }

  datatype Mismatch = Mismatch(stale: set<string>, missing: set<string>, mismatched: set<string>)

  predicate Clean(m: Mismatch) {
    m.stale == {} && m.missing == {} && m.mismatched == {}
  }

  method DiffManifest(dir: Directory, m: Manifest) returns (d: Mismatch)
    ensures d.stale == Staged(dir).Keys - m.artifacts.Keys
    ensures d.missing == m.artifacts.Keys - Staged(dir).Keys
    ensures forall name :: name in d.mismatched <==>
              name in Staged(dir) && name in m.artifacts && !RowMatches(m.artifacts[name], dir[name])
  {
    var staged := Staged(dir);
    var mismatched: set<string> := {};
    var left := staged.Keys * m.artifacts.Keys;
    while left != {}
      invariant left <= staged.Keys * m.artifacts.Keys
      invariant forall name :: name in mismatched <==>
                  name in staged && name in m.artifacts && name !in left && !RowMatches(m.artifacts[name], dir[name])
      decreases left
    {
      ghost var some := Member(left);
      var name :| name in left;
      if m.artifacts[name].sha != Some(Sha256(staged[name])) || m.artifacts[name].size != Some(|staged[name]|) {
        mismatched := mismatched + {name};
      }
      left := left - {name};
    }
    d := Mismatch(staged.Keys - m.artifacts.Keys, m.artifacts.Keys - staged.Keys, mismatched);
  }

  /** Directory and manifest agree as maps from name to digest and size. */
  predicate Attests(m: Manifest, dir: Directory) {
    && m.version == Some(SCHEMA_VERSION)
    && m.artifacts.Keys == Staged(dir).Keys
    && forall name :: name in m.artifacts ==> RowMatches(m.artifacts[name], dir[name])
  }

  /** verify_manifest accepts exactly an attested directory. */
  method VerifyManifest(dir: Directory, m: Manifest) returns (ok: bool)
    ensures ok <==> Attests(m, dir)
  {
    if m.version != Some(SCHEMA_VERSION) {
      return false;
    }
    var d := DiffManifest(dir, m);
    ok := Clean(d);
    if ok {
      forall name | name in m.artifacts ensures name in Staged(dir) && RowMatches(m.artifacts[name], dir[name]) {
        assert name !in d.missing && name !in d.mismatched;
      }
      assert forall name :: name in Staged(dir) ==> name !in d.stale;
    }
  }

  /** Generating from one directory and verifying against another is an equality test on
    * the wasm files: any file added, dropped or changed fails, nothing else does.
    */
  method GenerateThenVerify(dir: Directory, other: Directory) returns (ok: bool)
    ensures ok <==> Staged(dir) == Staged(other)
  {
    var m := GenerateManifest(dir);
    ok := VerifyManifest(other, m);
    if ok {
      forall name | name in Staged(other) ensures name in Staged(dir) && Staged(dir)[name] == Staged(other)[name] {
        assert name in m.artifacts && RowMatches(m.artifacts[name], other[name]);
      }
      assert Staged(dir).Keys == Staged(other).Keys;
    }
  }

  lemma IsWasmExactly(name: string)
    ensures IsWasm(name) <==> exists stem: string :: name == stem + ".wasm"
  {
    EndsWithExactly(name, ".wasm");
  }

  /** A manifest of version 1 that lists the wasm files, each by its digest and size. */
  lemma AttestsExactly(m: Manifest, dir: Directory)
    ensures Attests(m, dir) <==>
            && m.version == Some(1)
            && (forall name :: name in m.artifacts <==> name in dir && IsWasm(name))
            && (forall name :: name in m.artifacts && name in dir ==>
                  && m.artifacts[name].sha == Some(Sha256(dir[name]))
                  && m.artifacts[name].size == Some(|dir[name]|))
  {
    assert forall name :: name in Staged(dir) <==> name in dir && IsWasm(name);
    if Attests(m, dir) {
      assert forall name :: name in m.artifacts <==> name in Staged(dir).Keys;
    }
  }

  /* ----- The renderer archive. ----- */

  datatype ZipMember = ZipMember(name: string, directory: bool, payload: Bytes)

  predicate Relevant(z: ZipMember) {
    !z.directory && IsWasm(z.name)
  }

  ghost predicate Holds(members: seq<ZipMember>, name: string, k: int) {
    0 <= k < |members| && Relevant(members[k]) && members[k].name == name
  }

  /** Every wasm member is one of the four, with its pinned digest, and none comes twice. */
  ghost predicate Reviewed(members: seq<ZipMember>, pins: map<string, Digest>) {
    && (forall k :: 0 <= k < |members| && Relevant(members[k]) ==>
          members[k].name in REQUIRED && members[k].name in pins && pins[members[k].name] == Sha256(members[k].payload))
    && (forall i, k :: 0 <= i < k < |members| && Relevant(members[i]) && Relevant(members[k]) ==>
          members[i].name != members[k].name)
  }

  ghost predicate Present(members: seq<ZipMember>, name: string) {
    exists k :: Holds(members, name, k)
  }

  /** What the archive loop has established after i members. */
  ghost predicate Checked(members: seq<ZipMember>, pins: map<string, Digest>, i: nat, found: Directory)
    requires i <= |members|
  {
    && Reviewed(members[..i], pins)
    && found.Keys <= pins.Keys
    && (forall name :: name in found <==> Present(members[..i], name))
    && (forall name :: name in found ==> Sha256(found[name]) == pins[name])
  }

  lemma PresentGrows(members: seq<ZipMember>, i: nat, name: string)
    requires i < |members|
    ensures Present(members[..i + 1], name) <==>
            Present(members[..i], name) || (Relevant(members[i]) && members[i].name == name)
  {
    var before, after := members[..i], members[..i + 1];
    if Present(before, name) {
      var k :| Holds(before, name, k);
      assert Holds(after, name, k);
    }
    if Relevant(members[i]) && members[i].name == name {
      assert Holds(after, name, i);
    }
    if Present(after, name) {
      var k :| Holds(after, name, k);
      assert k < i ==> Holds(before, name, k);
    }
  }

  lemma ReviewedGrows(members: seq<ZipMember>, pins: map<string, Digest>, i: nat)
    requires i < |members| && pins.Keys == REQUIRED && Reviewed(members[..i], pins)
    ensures Reviewed(members[..i + 1], pins) <==>
            Relevant(members[i]) ==>
              && members[i].name in REQUIRED && pins[members[i].name] == Sha256(members[i].payload)
              && !Present(members[..i], members[i].name)
  {
    var before, after, z := members[..i], members[..i + 1], members[i];
    assert after[i] == z && forall k :: 0 <= k < i ==> after[k] == before[k];
    if Relevant(z) {
      if Present(before, z.name) {
        var k :| Holds(before, z.name, k);
        assert after[k].name == after[i].name;
      }
      forall k | 0 <= k < i && Relevant(after[k]) && after[k].name == z.name ensures Present(before, z.name) {
        assert Holds(before, z.name, k);
      }
    }
  }

  lemma ReviewedPrefix(members: seq<ZipMember>, pins: map<string, Digest>, i: nat)
    requires i <= |members| && Reviewed(members, pins)
    ensures Reviewed(members[..i], pins)
  {
  }

  /** Succeeds exactly for the four required components, once each, as pinned; other
    * members of the archive are ignored.
    */
  method VerifiedRendererArchive(members: seq<ZipMember>, pins: map<string, Digest>)
    returns (checked: Option<Directory>)
    ensures checked.Some? <==>
              && pins.Keys == REQUIRED && Reviewed(members, pins)
              && forall name :: name in REQUIRED ==> Present(members, name)
    ensures checked.Some? ==>
              checked.value.Keys == REQUIRED
              && forall name :: name in REQUIRED ==> Sha256(checked.value[name]) == pins[name]
  {
    hide Reviewed, Present, Relevant;
    if pins.Keys != REQUIRED {
      return None;
    }
    var found: Directory := map[];
    var i := 0;
    NothingChecked(members, pins);
    while i < |members|
      invariant 0 <= i <= |members|
      invariant Checked(members, pins, i, found)
    {
      var z := members[i];
      ReviewedGrows(members, pins, i);
      forall name: string {
        PresentGrows(members, i, name);
      }
      if Relevant(z) {
        if z.name !in REQUIRED || z.name in found || pins[z.name] != Sha256(z.payload) {
          if Reviewed(members, pins) {
            ReviewedPrefix(members, pins, i + 1);
          }
          return None;
        }
        found := found[z.name := z.payload];
      }
      i := i + 1;
    }
    assert members[..i] == members;
    if found.Keys != REQUIRED {
      return None;
    }
    return Some(found);
  }

  lemma NothingChecked(members: seq<ZipMember>, pins: map<string, Digest>)
    ensures Checked(members, pins, 0, map[])
  {
  }

  /* ----- The reviewed manifest. ----- */

  predicate Hex(s: string, n: nat) {
    |s| == n && forall k :: 0 <= k < |s| ==> '0' <= s[k] <= '9' || 'a' <= s[k] <= 'f'
  }

  predicate Attributed(s: Source, renderer: bool) {
    && s.exactFields
    && StartsWith(s.repository, REPOSITORY) && Hex(s.commit, 40)
    && Hex(s.archiveSha, 64)
    && s.artifactId >= 1
    && (s.artifact == PARSER_ARTIFACT || s.artifact == RENDERER_ARTIFACT)
    && (s.artifact == RENDERER_ARTIFACT <==> renderer)
    && s.abiIsTextOrNull
  }

  lemma HexDigit(c: char)
    ensures c in "0123456789abcdef" <==> '0' <= c <= '9' || 'a' <= c <= 'f'
  {
    var digits := "0123456789abcdef";
    if '0' <= c <= '9' {
      assert digits[c as int - '0' as int] == c;
    } else if 'a' <= c <= 'f' {
      assert digits[c as int - 'a' as int + 10] == c;
    }
  }

  /** The pin of a commit or an archive: this many hexadecimal digits in lower case. */
  lemma HexExactly(s: string, n: nat)
    ensures Hex(s, n) <==> |s| == n && forall c :: c in s ==> c in "0123456789abcdef"
  {
    forall c: char { HexDigit(c); }
    assert forall c :: c in s ==> exists k :: 0 <= k < |s| && s[k] == c;
    assert forall k :: 0 <= k < |s| ==> s[k] in s;
  }

  /** An attributable source: the exact fields, of a repository of this project, at a full
    * commit, in an archive of known digest, by the artifact its kind of component comes from.
    */
  lemma AttributedExactly(s: Source, renderer: bool)
    ensures Attributed(s, renderer) <==>
            && s.exactFields && s.abiIsTextOrNull
            && (exists rest: string :: s.repository == "https://github.com/buchochelliq-labs/intentumdiff-" + rest)
            && Hex(s.commit, 40) && Hex(s.archiveSha, 64) && s.artifactId > 0
            && s.artifact == if renderer then "renderer-components" else "parser-wasm"
  {
    StartsWithExactly(s.repository, "https://github.com/buchochelliq-labs/intentumdiff-");
  }

  /** The staged files are exactly the pinned ones, byte for byte, and each has a source. */
  ghost predicate Shippable(dir: Directory, parserPins: map<string, Digest>, rendererPins: map<string, Digest>,
                            sources: map<string, Source>)
  {
    && (forall name :: name in parserPins ==> name !in rendererPins)
    && parserPins.Keys + rendererPins.Keys != {}
    && Staged(dir).Keys == parserPins.Keys + rendererPins.Keys == sources.Keys
    && (forall name :: name in parserPins ==> parserPins[name] == Sha256(dir[name]))
    && (forall name :: name in rendererPins ==> rendererPins[name] == Sha256(dir[name]))
    && (forall name :: name in sources ==> Attributed(sources[name], name in rendererPins))
  }

  predicate Vouched(name: string, pin: Digest, bytes: Bytes, source: Source, renderer: bool) {
    pin == Sha256(bytes) && Attributed(source, renderer)
  }

  /** The attribution loop over the pinned names. */
  method Attribute(files: Directory, expected: map<string, Digest>, rendererPins: map<string, Digest>,
                   sources: map<string, Source>, rows: map<string, Row>) returns (ok: bool, staged: map<string, Row>)
    requires rows.Keys == expected.Keys == sources.Keys == files.Keys
    requires forall name :: name in rows ==> RowMatches(rows[name], files[name])
    ensures ok <==> forall name :: name in expected ==>
                      Vouched(name, expected[name], files[name], sources[name], name in rendererPins)
    ensures ok ==> staged.Keys == rows.Keys
                   && forall name :: name in staged ==>
                        RowMatches(staged[name], files[name]) && staged[name].source == Some(sources[name])
  {
    staged := rows;
    var left := expected.Keys;
    while left != {}
      invariant left <= expected.Keys && staged.Keys == rows.Keys
      invariant forall name :: name in staged ==> RowMatches(staged[name], files[name])
      invariant forall name :: name in expected && name !in left ==>
                  && Vouched(name, expected[name], files[name], sources[name], name in rendererPins)
                  && staged[name].source == Some(sources[name])
      decreases left
    {
      hide Attributed;
      ghost var some := Member(left);
      var name :| name in left;
      if staged[name].sha != Some(expected[name]) || !Attributed(sources[name], name in rendererPins) {
        return false, staged;
      }
      staged := staged[name := staged[name].(source := Some(sources[name]))];
      left := left - {name};
    }
    ok := true;
  }

  /** write_reviewed_wasm_manifest: writes exactly when everything staged is reviewed, and
    * what it writes attests the directory; its own closing verification cannot fail.
    */
  method WriteReviewedManifest(dir: Directory, parserPins: map<string, Digest>, rendererPins: map<string, Digest>,
                               sources: map<string, Source>) returns (written: Option<Manifest>)
    ensures written.Some? <==> Shippable(dir, parserPins, rendererPins, sources)
    ensures written.Some? ==>
              && Attests(written.value, dir)
              && forall name :: name in sources ==> written.value.artifacts[name].source == Some(sources[name])
  {
    hide Attributed;
    if parserPins.Keys * rendererPins.Keys != {} {
      var both := Member(parserPins.Keys * rendererPins.Keys);
      return None;
    }
    forall name | name in parserPins ensures name !in rendererPins {
      assert name in rendererPins ==> name in parserPins.Keys * rendererPins.Keys;
    }
    var expected := parserPins + rendererPins;
    if expected.Keys == {} {
      return None;
    }
    var manifest := GenerateManifest(dir);
    if manifest.artifacts.Keys != expected.Keys || sources.Keys != expected.Keys {
      return None;
    }
    var ok, staged := Attribute(Staged(dir), expected, rendererPins, sources, manifest.artifacts);
    VouchedIsShippable(dir, parserPins, rendererPins, sources);
    if !ok {
      return None;
    }
    manifest := manifest.(artifacts := staged);
    var verified := VerifyManifest(dir, manifest);
    assert verified;
    return Some(manifest);
  }

  lemma VouchedIsShippable(dir: Directory, parserPins: map<string, Digest>, rendererPins: map<string, Digest>,
                           sources: map<string, Source>)
    requires forall name :: name in parserPins ==> name !in rendererPins
    requires var expected := parserPins + rendererPins;
             expected.Keys != {} && expected.Keys == sources.Keys == Staged(dir).Keys
    ensures var expected := parserPins + rendererPins;
            Shippable(dir, parserPins, rendererPins, sources) <==>
            forall name :: name in expected ==>
              Vouched(name, expected[name], dir[name], sources[name], name in rendererPins)
  {
    hide Attributed;
    var expected := parserPins + rendererPins;
    if Shippable(dir, parserPins, rendererPins, sources) {
    } else if forall name :: name in expected ==>
                Vouched(name, expected[name], dir[name], sources[name], name in rendererPins)
    {
      forall name | name in parserPins ensures parserPins[name] == Sha256(dir[name]) {
        assert name in expected && name !in rendererPins;
      }
      forall name | name in rendererPins ensures rendererPins[name] == Sha256(dir[name]) {
        assert name in expected;
      }
    }
  }

  /* ----- Staging. ----- */

  datatype Download = Unusable | Fetched(artifactId: int, archiveSha: string, members: seq<ZipMember>)

  /** A parser repository: its pinned commit, its declared target and what was downloaded. */
  datatype Repo = Repo(name: string, ref: string, abi: string, download: Download)

  /** Path(member).name on a `/`-separated archive path. */
  function Basename(path: string): string {
    if path == "" then ""
    else if path[|path| - 1] == '/' then ""
    else Basename(path[..|path| - 1]) + [path[|path| - 1]]
  }

  function Unprefixed(name: string): string {
    if StartsWith(name, "intentumdiff_") then name[|"intentumdiff_"|..]
    else if StartsWith(name, "intentdiff_") then name[|"intentdiff_"|..]
    else name
  }

  /** The crate prefix, old or new, is dropped once; other names are kept. */
  lemma UnprefixedExactly(name: string, rest: string)
    ensures Unprefixed("intentumdiff_" + rest) == rest && Unprefixed("intentdiff_" + rest) == rest
    ensures !StartsWith(name, "intentumdiff_") && !StartsWith(name, "intentdiff_") ==> Unprefixed(name) == name
  {
    var old' := "intentdiff_" + rest;
    assert old'[6] != "intentumdiff_"[6];
  }

  /** The file name is what follows the last slash. */
  lemma {:induction false} BasenameExactly(path: string, base: string)
    ensures Basename(path) == base <==>
            '/' !in base && (path == base || exists folder: string :: path == folder + "/" + base)
  {
    BasenameSplits(path);
    if '/' !in base && path == base {
      BasenameOf("", base);
    }
    if folder: string :| '/' !in base && path == folder + "/" + base {
      BasenameOf(folder + "/", base);
      assert folder + "/" + base == (folder + "/") + base;
    }
  }

  lemma {:induction false} BasenameSplits(path: string)
    ensures '/' !in Basename(path)
    ensures path == Basename(path) || exists folder: string :: path == folder + "/" + Basename(path)
  {
    if path != "" {
      var before, last := path[..|path| - 1], path[|path| - 1];
      assert path == before + [last];
      if last == '/' {
        assert path == before + "/" + Basename(path);
      } else {
        BasenameSplits(before);
        if before != Basename(before) {
          var folder: string :| before == folder + "/" + Basename(before);
          assert path == folder + "/" + Basename(path);
        }
      }
    }
  }

  lemma {:induction false} BasenameOf(folder: string, base: string)
    requires '/' !in base && (folder == "" || folder[|folder| - 1] == '/')
    ensures Basename(folder + base) == base
  {
    var path := folder + base;
    if base == "" {
      assert path == folder;
    } else {
      assert path[..|path| - 1] == folder + base[..|base| - 1];
      BasenameOf(folder, base[..|base| - 1]);
    }
  }

  function MemberName(z: ZipMember): string {
    Unprefixed(Basename(z.name))
  }

  const ORGANISATION := "https://github.com/buchochelliq-labs/"

  function SourceOf(repo: Repo, artifact: string): Source
    requires repo.download.Fetched?
  {
    Source(true, ORGANISATION + repo.name, repo.ref, artifact, repo.download.artifactId, repo.download.archiveSha, true)
  }

  /** What staging changes: the directory, the recorded sources, the number of complaints. */
  datatype Books = Books(dir: Directory, sources: map<string, Source>, missing: nat)

  predicate Pinned(pins: map<string, Digest>, z: ZipMember) {
    MemberName(z) in pins && pins[MemberName(z)] == Sha256(z.payload)
  }

  function AfterMember(pins: map<string, Digest>, repo: Repo, b: Books, z: ZipMember): Books
    requires repo.download.Fetched?
  {
    if !IsWasm(z.name) then b
    else if Pinned(pins, z) && MemberName(z) !in b.sources && repo.abi != "" then
      Books(b.dir[MemberName(z) := z.payload], b.sources[MemberName(z) := SourceOf(repo, PARSER_ARTIFACT)], b.missing)
    else b.(missing := b.missing + 1)
  }

  function AfterMembers(pins: map<string, Digest>, repo: Repo, b: Books, members: seq<ZipMember>): Books
    requires repo.download.Fetched?
  {
    if members == [] then b
    else AfterMember(pins, repo, AfterMembers(pins, repo, b, members[..|members| - 1]), members[|members| - 1])
  }

  predicate Downloaded(repo: Repo) {
    Hex(repo.ref, 40) && repo.download.Fetched?
  }

  function AfterRepo(pins: map<string, Digest>, b: Books, repo: Repo): Books {
    if Downloaded(repo) then AfterMembers(pins, repo, b, repo.download.members) else b.(missing := b.missing + 1)
  }

  function AfterRepos(pins: map<string, Digest>, b: Books, repos: seq<Repo>): Books {
    if repos == [] then b else AfterRepo(pins, AfterRepos(pins, b, repos[..|repos| - 1]), repos[|repos| - 1])
  }

  /** The one archive of renderers can be staged. */
  ghost predicate RenderersGood(pins: map<string, Digest>, renderers: Repo) {
    && renderers.download.Fetched? && pins.Keys == REQUIRED
    && Reviewed(renderers.download.members, pins)
    && forall name :: name in REQUIRED ==> Present(renderers.download.members, name)
  }

  /** All four renderers, with the bytes their pins name, or none. */
  ghost function AfterRenderers(pins: map<string, Digest>, b: Books, renderers: Repo): Books {
    if RenderersGood(pins, renderers) then
      Books(b.dir + map name | name in REQUIRED :: pins[name].of,
            b.sources + map name | name in REQUIRED :: SourceOf(renderers, RENDERER_ARTIFACT), b.missing)
    else b.(missing := b.missing + 1)
  }

  datatype Exit = Returned(missing: nat, manifest: Option<Manifest>) | Aborted

  /** The staging directory and the books kept while filling it. */
  class Staging {
    const pins: map<string, Digest>
    const rendererPins: map<string, Digest>
    ghost const initial: Directory
    var dir: Directory
    var sources: map<string, Source>
    var missing: nat

    constructor (pins: map<string, Digest>, rendererPins: map<string, Digest>, dir: Directory)
      ensures this.pins == pins && this.rendererPins == rendererPins && this.initial == dir
      ensures View() == Books(dir, map[], 0) && Vetted()
    {
      this.pins, this.rendererPins, this.initial, this.dir := pins, rendererPins, dir, dir;
      sources, missing := map[], 0;
    }

    function View(): Books
      reads this
    {
      Books(dir, sources, missing)
    }

    /** Whatever is in the directory was there before or carries its reviewed digest. */
    ghost predicate Vetted()
      reads this
    {
      forall name :: name in dir ==>
        || (name in initial && dir[name] == initial[name])
        || (name in pins && pins[name] == Sha256(dir[name]))
        || (name in rendererPins && rendererPins[name] == Sha256(dir[name]))
    }

    /** One member of a parser archive: staged only under its pinned digest, once. */
    method StageMember(repo: Repo, z: ZipMember)
      requires Vetted() && repo.download.Fetched?
      modifies this`dir, this`sources, this`missing
      ensures Vetted() && View() == AfterMember(pins, repo, old(View()), z)
    {
      if !IsWasm(z.name) {
        return;
      }
      var out := Unprefixed(Basename(z.name));
      if out !in pins || pins[out] != Sha256(z.payload) || out in sources || repo.abi == "" {
        missing := missing + 1;
        return;
      }
      sources := sources[out := SourceOf(repo, PARSER_ARTIFACT)];
      dir := dir[out := z.payload];
    }

    method StageRepo(repo: Repo)
      requires Vetted()
      modifies this`dir, this`sources, this`missing
      ensures Vetted() && View() == AfterRepo(pins, old(View()), repo)
    {
      if !Hex(repo.ref, 40) || repo.download.Unusable? {
        missing := missing + 1;
        return;
      }
      var members := repo.download.members;
      var i := 0;
      while i < |members|
        invariant 0 <= i <= |members|
        invariant Vetted() && View() == AfterMembers(pins, repo, old(View()), members[..i])
      {
        hide AfterMember, Vetted;
        assert members[..i + 1][..i] == members[..i];
        StageMember(repo, members[i]);
        i := i + 1;
      }
      assert members[..i] == members;
    }

    method StageRenderers(repo: Repo)
      requires Vetted()
      modifies this`dir, this`sources, this`missing
      ensures Vetted() && View() == AfterRenderers(rendererPins, old(View()), repo)
    {
      if repo.download.Unusable? {
        missing := missing + 1;
        return;
      }
      var checked := VerifiedRendererArchive(repo.download.members, rendererPins);
      if checked.None? {
        missing := missing + 1;
        return;
      }
      sources := sources + map name | name in checked.value.Keys :: SourceOf(repo, RENDERER_ARTIFACT);
      assert checked.value == map name | name in REQUIRED :: rendererPins[name].of;
      dir := dir + checked.value;
    }

    /** stage_wasm_from_artifacts, from the downloads on: it returns the number of complaints,
      * or with none it writes the manifest exactly over a shippable directory and else aborts.
      * However it ends, no unreviewed byte has been written.
      */
    method Provision(repos: seq<Repo>, renderers: Repo) returns (exit: Exit)
      requires Vetted()
      modifies this`dir, this`sources, this`missing
      ensures Vetted()
      ensures View() == AfterRenderers(rendererPins, AfterRepos(pins, old(View()), repos), renderers)
      ensures exit.Returned? <==> missing != 0 || Shippable(dir, pins, rendererPins, sources)
      ensures exit.Returned? ==> exit.missing == missing && (exit.manifest.Some? <==> missing == 0)
      ensures exit.Returned? && missing == 0 ==> Attests(exit.manifest.value, dir)
    {
      var i := 0;
      while i < |repos|
        invariant 0 <= i <= |repos|
        invariant Vetted() && View() == AfterRepos(pins, old(View()), repos[..i])
      {
        hide AfterRepo, Vetted;
        assert repos[..i + 1][..i] == repos[..i];
        StageRepo(repos[i]);
        i := i + 1;
      }
      assert repos[..i] == repos;
      StageRenderers(renderers);
      if missing != 0 {
        return Returned(missing, None);
      }
      var manifest := WriteReviewedManifest(dir, pins, rendererPins, sources);
      if manifest.None? {
        return Aborted;
      }
      return Returned(0, manifest);
    }
  }

  /* ----- When nothing is missing. ----- */

  /** Every wasm member is pinned, under a name not taken before or in the archive. */
  ghost predicate CleanMembers(pins: map<string, Digest>, repo: Repo, taken: set<string>, members: seq<ZipMember>) {
    && (forall k :: 0 <= k < |members| && IsWasm(members[k].name) ==>
          Pinned(pins, members[k]) && repo.abi != "" && MemberName(members[k]) !in taken)
    && (forall i, k :: 0 <= i < k < |members| && IsWasm(members[i].name) && IsWasm(members[k].name) ==>
          MemberName(members[i]) != MemberName(members[k]))
  }

  /** The names a member list stages. */
  function NamesIn(members: seq<ZipMember>): set<string> {
    if members == [] then {}
    else NamesIn(members[..|members| - 1])
         + if IsWasm(members[|members| - 1].name) then {MemberName(members[|members| - 1])} else {}
  }

  lemma {:induction false} NamesInExact(members: seq<ZipMember>, name: string)
    ensures name in NamesIn(members) <==>
            exists k :: 0 <= k < |members| && IsWasm(members[k].name) && MemberName(members[k]) == name
  {
    hide IsWasm, MemberName;
    if members != [] {
      var before := members[..|members| - 1];
      NamesInExact(before, name);
      assert forall k :: 0 <= k < |before| ==> before[k] == members[k];
    }
  }

  /** An archive adds no complaint exactly when it is clean; it then stages all its names. */
  lemma {:induction false} MembersExact(pins: map<string, Digest>, repo: Repo, b: Books, members: seq<ZipMember>)
    requires repo.download.Fetched?
    ensures var after := AfterMembers(pins, repo, b, members);
            && after.missing >= b.missing
            && (after.missing == b.missing <==> CleanMembers(pins, repo, b.sources.Keys, members))
            && (after.missing == b.missing ==> after.sources.Keys == b.sources.Keys + NamesIn(members))
  {
    hide IsWasm, MemberName, Pinned;
    if members != [] {
      var before, z := members[..|members| - 1], members[|members| - 1];
      MembersExact(pins, repo, b, before);
      NamesInExact(before, MemberName(z));
      CleanGrows(pins, repo, b.sources.Keys, before, z);
      assert members == before + [z];
    }
  }

  lemma CleanGrows(pins: map<string, Digest>, repo: Repo, taken: set<string>, before: seq<ZipMember>, z: ZipMember)
    ensures CleanMembers(pins, repo, taken, before + [z]) <==>
            && CleanMembers(pins, repo, taken, before)
            && (IsWasm(z.name) ==>
                  && Pinned(pins, z) && repo.abi != "" && MemberName(z) !in taken
                  && forall k :: 0 <= k < |before| && IsWasm(before[k].name) ==> MemberName(before[k]) != MemberName(z))
  {
    hide IsWasm, MemberName, Pinned;
    var all := before + [z];
    assert all[|before|] == z && forall k :: 0 <= k < |before| ==> all[k] == before[k];
  }

  /** Every repository was downloaded and is clean after those before it. */
  ghost predicate CleanRepos(pins: map<string, Digest>, taken: set<string>, repos: seq<Repo>) {
    repos == [] ||
    var before, repo := repos[..|repos| - 1], repos[|repos| - 1];
    && CleanRepos(pins, taken, before)
    && Downloaded(repo)
    && CleanMembers(pins, repo, taken + NamesOf(before), repo.download.members)
  }

  function NamesOf(repos: seq<Repo>): set<string> {
    if repos == [] then {}
    else NamesOf(repos[..|repos| - 1])
         + if repos[|repos| - 1].download.Fetched? then NamesIn(repos[|repos| - 1].download.members) else {}
  }

  lemma {:induction false} ReposExact(pins: map<string, Digest>, b: Books, repos: seq<Repo>)
    ensures var after := AfterRepos(pins, b, repos);
            && after.missing >= b.missing
            && (after.missing == b.missing <==> CleanRepos(pins, b.sources.Keys, repos))
            && (after.missing == b.missing ==> after.sources.Keys == b.sources.Keys + NamesOf(repos))
  {
    hide CleanMembers, NamesIn, AfterMembers, Hex;
    if repos != [] {
      var before, repo := repos[..|repos| - 1], repos[|repos| - 1];
      ReposExact(pins, b, before);
      if Downloaded(repo) {
        MembersExact(pins, repo, AfterRepos(pins, b, before), repo.download.members);
      }
    }
  }

  /** Provisioning from scratch complains of nothing exactly when every parser repository is
    * downloaded, every component in it is pinned and comes once, and the renderers are good.
    */
  lemma NothingMissingExactly(pins: map<string, Digest>, rendererPins: map<string, Digest>, dir: Directory,
                              repos: seq<Repo>, renderers: Repo)
    ensures AfterRenderers(rendererPins, AfterRepos(pins, Books(dir, map[], 0), repos), renderers).missing == 0
            <==> CleanRepos(pins, {}, repos) && RenderersGood(rendererPins, renderers)
  {
    hide CleanRepos, RenderersGood, AfterRepos;
    ReposExact(pins, Books(dir, map[], 0), repos);
    var none: map<string, Source> := map[];
    assert none.Keys == {};
  }

  /* ----- What counts as a complaint. ----- */

  /** Every wasm member that is not pinned, comes a second time or has no target is one complaint. */
  lemma MemberComplaint(pins: map<string, Digest>, repo: Repo, b: Books, z: ZipMember)
    requires repo.download.Fetched?
    ensures var after, name := AfterMember(pins, repo, b, z), MemberName(z);
            if && IsWasm(z.name)
               && (name !in pins || pins[name] != Sha256(z.payload) || name in b.sources || repo.abi == "")
            then after == Books(b.dir, b.sources, b.missing + 1)
            else after.missing == b.missing
  {
  }

  /** A repository without a full pinned commit, or without an archive, is one complaint. */
  lemma RepoComplaint(pins: map<string, Digest>, b: Books, repo: Repo)
    ensures !Hex(repo.ref, 40) || repo.download == Unusable ==>
              AfterRepo(pins, b, repo) == Books(b.dir, b.sources, b.missing + 1)
    ensures Hex(repo.ref, 40) && repo.download != Unusable ==>
              AfterRepo(pins, b, repo) == AfterMembers(pins, repo, b, repo.download.members)
  {
    hide Hex, AfterMembers;
  }

  /** So are renderers that are not good, whatever is wrong with them. */
  lemma RenderersComplaint(pins: map<string, Digest>, b: Books, renderers: Repo)
    requires !RenderersGood(pins, renderers)
    ensures AfterRenderers(pins, b, renderers) == Books(b.dir, b.sources, b.missing + 1)
  {
  }

  /** The name stands at place i of the archive, and at no other. */
  predicate OnlyAt(members: seq<ZipMember>, name: string, i: int) {
    && 0 <= i < |members| && !members[i].directory && members[i].name == name
    && forall k :: 0 <= k < |members| && !members[k].directory && members[k].name == name ==> k == i
  }

  /** Every file of the archive with the wasm extension has the digest its name is pinned to. */
  ghost predicate AllPinned(members: seq<ZipMember>, pins: map<string, Digest>) {
    forall z :: z in members && !z.directory && IsWasm(z.name) ==> z.name in pins && pins[z.name] == Sha256(z.payload)
  }

  lemma ReviewedMeans(members: seq<ZipMember>, pins: map<string, Digest>, name: string)
    requires Reviewed(members, pins) && Present(members, name) && name in REQUIRED
    ensures AllPinned(members, pins) && exists i :: OnlyAt(members, name, i)
  {
    RequiredAreWasm(name);
    var i :| Holds(members, name, i);
    hide IsWasm;
    assert OnlyAt(members, name, i);
  }

  lemma ReviewedIfOnce(members: seq<ZipMember>, pins: map<string, Digest>)
    requires pins.Keys == REQUIRED && AllPinned(members, pins)
    requires forall name :: name in REQUIRED ==> exists i :: OnlyAt(members, name, i)
    ensures Reviewed(members, pins) && forall name :: name in REQUIRED ==> Present(members, name)
  {
    hide IsWasm;
    forall name | name in REQUIRED ensures Present(members, name) {
      RequiredAreWasm(name);
      var i :| OnlyAt(members, name, i);
      assert Holds(members, name, i);
    }
    forall k | 0 <= k < |members| && Relevant(members[k])
      ensures members[k].name in pins.Keys && pins[members[k].name] == Sha256(members[k].payload)
    {
      assert members[k] in members;
    }
    forall i, k | 0 <= i < k < |members| && Relevant(members[i]) && Relevant(members[k])
      ensures members[i].name != members[k].name
    {
      assert members[i].name in pins.Keys;
      var at :| OnlyAt(members, members[i].name, at);
    }
  }

  /** Good renderers: the four names are the pinned ones, each comes once, and all is pinned. */
  lemma RenderersGoodExactly(pins: map<string, Digest>, renderers: Repo)
    requires renderers.download.Fetched?
    ensures RenderersGood(pins, renderers) <==>
            && pins.Keys == {"html_renderer.wasm", "llm_renderer.wasm", "patch_renderer.wasm", "terminal_renderer.wasm"}
            && (forall name :: name in pins.Keys ==> exists i :: OnlyAt(renderers.download.members, name, i))
            && AllPinned(renderers.download.members, pins)
  {
    var members := renderers.download.members;
    hide Reviewed, AllPinned, OnlyAt, Present;
    if RenderersGood(pins, renderers) {
      forall name | name in REQUIRED ensures AllPinned(members, pins) && exists i :: OnlyAt(members, name, i) {
        ReviewedMeans(members, pins, name);
      }
      assert HTML in REQUIRED;
    } else if && pins.Keys == REQUIRED && AllPinned(members, pins)
              && (forall name :: name in pins.Keys ==> exists i :: OnlyAt(members, name, i))
    {
      ReviewedIfOnce(members, pins);
    }
  }

  /** Without any pin nothing is ever shipped. */
  lemma NothingToShip(dir: Directory, sources: map<string, Source>)
    ensures !Shippable(dir, map[], map[], sources)
  {
    var none: map<string, Digest> := map[];
    assert none.Keys == {};
  }

  /* ----- When provisioning from an empty directory succeeds. ----- */

  /** A source this repository's artifacts can be attributed to. */
  predicate Citable(repo: Repo) {
    && repo.download.Fetched?
    && StartsWith(repo.name, "intentumdiff-")
    && Hex(repo.ref, 40) && Hex(repo.download.archiveSha, 64) && repo.download.artifactId >= 1
  }

  lemma CitableExactly(repo: Repo)
    requires repo.download.Fetched?
    ensures Attributed(SourceOf(repo, "parser-wasm"), false) <==> Citable(repo)
    ensures Attributed(SourceOf(repo, "renderer-components"), true) <==> Citable(repo)
  {
    hide Hex;
    var organisation := "https://github.com/buchochelliq-labs/";
    var url := organisation + repo.name;
    assert organisation + "intentumdiff-" == REPOSITORY;
    if StartsWith(repo.name, "intentumdiff-") {
      assert url[..|REPOSITORY|] == organisation + repo.name[..|"intentumdiff-"|];
    }
    if StartsWith(url, REPOSITORY) {
      assert url[|organisation|..|REPOSITORY|] == "intentumdiff-";
      assert url[|organisation|..|REPOSITORY|] == repo.name[..|"intentumdiff-"|];
    }
  }

  /** A staged name keeps the extension. */
  lemma MemberNameIsWasm(z: ZipMember)
    requires IsWasm(z.name)
    ensures IsWasm(MemberName(z))
  {
    var base := Basename(z.name);
    BasenameSplits(z.name);
    if z.name != base {
      var folder: string :| z.name == folder + "/" + base;
      assert forall k :: |z.name| - 5 <= k < |z.name| ==> z.name[k] == ".wasm"[k - |z.name| + 5];
      assert z.name[|folder|] == '/';
      assert base[|base| - 5..] == z.name[|z.name| - 5..];
    }
    UnprefixedIsWasm(base);
  }

  lemma UnprefixedIsWasm(name: string)
    requires IsWasm(name)
    ensures IsWasm(Unprefixed(name))
  {
    if StartsWith(name, "intentumdiff_") {
      SuffixIsWasm(name, |"intentumdiff_"|);
    } else if StartsWith(name, "intentdiff_") {
      SuffixIsWasm(name, |"intentdiff_"|);
    }
  }

  lemma SuffixIsWasm(name: string, n: nat)
    requires IsWasm(name) && 0 < n <= |name| && name[n - 1] == '_'
    ensures IsWasm(name[n..])
  {
    assert forall k :: |name| - 5 <= k < |name| ==> name[k] == ".wasm"[k - |name| + 5];
    assert name[n..][|name| - n - 5..] == name[|name| - 5..];
  }

  /** What one archive without a complaint has staged: every name with its pinned bytes and its source. */
  lemma {:induction false} MembersStaged(pins: map<string, Digest>, repo: Repo, b: Books, members: seq<ZipMember>,
                                         name: string)
    requires repo.download.Fetched? && AfterMembers(pins, repo, b, members).missing == b.missing
    ensures var after := AfterMembers(pins, repo, b, members);
            if name in NamesIn(members) then
              && IsWasm(name) && name in pins && name in after.dir && Sha256(after.dir[name]) == pins[name]
              && name in after.sources && after.sources[name] == SourceOf(repo, PARSER_ARTIFACT)
            else Untouched(b, after, name)
  {
    hide IsWasm, MemberName;
    if members != [] {
      var before, z := members[..|members| - 1], members[|members| - 1];
      MembersExact(pins, repo, b, before);
      MembersStaged(pins, repo, b, before, name);
      if IsWasm(z.name) {
        MemberNameIsWasm(z);
      }
    }
  }

  /** The name is staged, or not, as it was before. */
  predicate Untouched(before: Books, after: Books, name: string) {
    && (name in after.dir <==> name in before.dir) && (name in before.dir ==> after.dir[name] == before.dir[name])
    && (name in after.sources <==> name in before.sources)
    && (name in before.sources ==> after.sources[name] == before.sources[name])
  }

  lemma {:induction false} NamesOfExact(repos: seq<Repo>, name: string)
    ensures name in NamesOf(repos) <==> exists repo :: repo in repos && Supplies(repo, name)
  {
    if repos != [] {
      var before, last := repos[..|repos| - 1], repos[|repos| - 1];
      NamesOfExact(before, name);
      assert name in NamesOf(repos) <==> name in NamesOf(before) || Supplies(last, name);
      hide NamesOf, Supplies;
      assert repos == before + [last];
    }
  }

  predicate Supplies(repo: Repo, name: string) {
    repo.download.Fetched? && name in NamesIn(repo.download.members)
  }

  /** All repositories without a complaint: every name from its own repository, nothing else. */
  lemma {:induction false} ReposStaged(pins: map<string, Digest>, b: Books, repos: seq<Repo>, name: string)
    requires AfterRepos(pins, b, repos).missing == b.missing
    ensures var after := AfterRepos(pins, b, repos);
            && (name !in NamesOf(repos) ==> Untouched(b, after, name))
            && (name in NamesOf(repos) ==>
                  && IsWasm(name) && name in pins && name in after.dir && Sha256(after.dir[name]) == pins[name]
                  && name in after.sources)
            && forall repo :: repo in repos && Supplies(repo, name) ==>
                 name in after.sources && after.sources[name] == SourceOf(repo, PARSER_ARTIFACT)
  {
    hide CleanMembers, NamesIn, AfterMembers, Hex, IsWasm;
    if repos != [] {
      var before, repo := repos[..|repos| - 1], repos[|repos| - 1];
      assert repos == before + [repo];
      var middle := AfterRepos(pins, b, before);
      ReposExact(pins, b, before);
      NamesOfExact(before, name);
      ReposExact(pins, b, repos);
      MembersExact(pins, repo, middle, repo.download.members);
      ReposStaged(pins, b, before, name);
      MembersStaged(pins, repo, middle, repo.download.members, name);
      if name in NamesOf(before) {
        NotTwice(pins, repo, b.sources.Keys + NamesOf(before), repo.download.members, name);
      }
    }
  }

  lemma NotTwice(pins: map<string, Digest>, repo: Repo, taken: set<string>, members: seq<ZipMember>, name: string)
    requires CleanMembers(pins, repo, taken, members) && name in taken
    ensures name !in NamesIn(members)
  {
    NamesInExact(members, name);
  }

  /** Provisioning an empty directory ends with a shippable one, and so with a manifest, exactly when
    * the repositories are downloaded and clean and supply all the pinned names, the renderers are
    * good and no parser takes a renderer's name, and all of them can be cited.
    */
  lemma ProvisionsExactly(pins: map<string, Digest>, rendererPins: map<string, Digest>, repos: seq<Repo>,
                          renderers: Repo)
    ensures var end := AfterRenderers(rendererPins, AfterRepos(pins, Books(map[], map[], 0), repos), renderers);
            end.missing == 0 && Shippable(end.dir, pins, rendererPins, end.sources) <==>
            && CleanRepos(pins, {}, repos) && RenderersGood(rendererPins, renderers)
            && NamesOf(repos) == pins.Keys && pins.Keys !! REQUIRED
            && Citable(renderers)
            && forall repo, name :: repo in repos && Supplies(repo, name) ==> Citable(repo)
  {
    NothingMissingExactly(pins, rendererPins, map[], repos, renderers);
    var end := AfterRenderers(rendererPins, AfterRepos(pins, Books(map[], map[], 0), repos), renderers);
    if CleanRepos(pins, {}, repos) && RenderersGood(rendererPins, renderers) {
      assert renderers.download.Fetched? && rendererPins.Keys == REQUIRED;
      forall name { Filled(pins, rendererPins, repos, renderers, name); }
      hide AfterRepos, AfterRenderers, NamesOf, CleanRepos, RenderersGood, Supplies, Shippable, FilledAt, Citable;
      if Shippable(end.dir, pins, rendererPins, end.sources) {
        ShippableWasFilled(pins, rendererPins, repos, renderers, end);
      } else if && NamesOf(repos) == pins.Keys && pins.Keys !! REQUIRED && Citable(renderers)
                && forall repo, name :: repo in repos && Supplies(repo, name) ==> Citable(repo)
      {
        FilledIsShippable(pins, rendererPins, repos, renderers, end);
      }
    }
  }

  lemma RequiredAreWasm(name: string)
    requires name in {"html_renderer.wasm", "llm_renderer.wasm", "patch_renderer.wasm", "terminal_renderer.wasm"}
    ensures IsWasm(name) && name in REQUIRED
  {
  }

  /** Good renderers are staged with their pinned bytes and their source; nothing else changes. */
  lemma RenderersStaged(rendererPins: map<string, Digest>, b: Books, renderers: Repo, name: string)
    requires RenderersGood(rendererPins, renderers)
    ensures var after := AfterRenderers(rendererPins, b, renderers);
            if name in REQUIRED then
              && IsWasm(name) && name in rendererPins
              && name in after.dir && Sha256(after.dir[name]) == rendererPins[name]
              && name in after.sources && after.sources[name] == SourceOf(renderers, RENDERER_ARTIFACT)
            else Untouched(b, after, name)
  {
    hide Reviewed, Present, IsWasm, SourceOf;
    if name in REQUIRED {
      RequiredAreWasm(name);
    }
  }

  /** What a directory filled without a complaint holds under a name. */
  ghost predicate FilledAt(pins: map<string, Digest>, rendererPins: map<string, Digest>, repos: seq<Repo>,
                           renderers: Repo, end: Books, name: string)
    requires renderers.download.Fetched?
  {
    && (name in end.dir ==> IsWasm(name))
    && (name in end.dir <==> name in NamesOf(repos) || name in REQUIRED)
    && (name in end.sources <==> name in NamesOf(repos) || name in REQUIRED)
    && (name in NamesOf(repos) ==> name in pins)
    && (name in REQUIRED ==>
          && name in rendererPins && Sha256(end.dir[name]) == rendererPins[name]
          && end.sources[name] == SourceOf(renderers, RENDERER_ARTIFACT))
    && (name in NamesOf(repos) && name !in REQUIRED ==>
          && Sha256(end.dir[name]) == pins[name]
          && (exists repo :: repo in repos && Supplies(repo, name))
          && forall repo :: repo in repos && Supplies(repo, name) ==>
               end.sources[name] == SourceOf(repo, PARSER_ARTIFACT))
  }

  lemma Filled(pins: map<string, Digest>, rendererPins: map<string, Digest>, repos: seq<Repo>, renderers: Repo,
               name: string)
    requires CleanRepos(pins, {}, repos) && RenderersGood(rendererPins, renderers)
    ensures FilledAt(pins, rendererPins, repos, renderers,
                     AfterRenderers(rendererPins, AfterRepos(pins, Books(map[], map[], 0), repos), renderers), name)
  {
    var none: Books := Books(map[], map[], 0);
    assert none.sources.Keys == {};
    assert renderers.download.Fetched?;
    hide AfterRepos, AfterRenderers, NamesOf, CleanRepos, RenderersGood, Supplies, IsWasm, SourceOf;
    ReposExact(pins, none, repos);
    ReposStaged(pins, none, repos, name);
    NamesOfExact(repos, name);
    RenderersStaged(rendererPins, AfterRepos(pins, none, repos), renderers, name);
  }

  lemma FilledIsShippable(pins: map<string, Digest>, rendererPins: map<string, Digest>, repos: seq<Repo>,
                          renderers: Repo, end: Books)
    requires renderers.download.Fetched? && rendererPins.Keys == REQUIRED && Citable(renderers)
    requires forall name :: FilledAt(pins, rendererPins, repos, renderers, end, name)
    requires NamesOf(repos) == pins.Keys && pins.Keys !! REQUIRED
    requires forall repo, name :: repo in repos && Supplies(repo, name) ==> Citable(repo)
    ensures Shippable(end.dir, pins, rendererPins, end.sources)
  {
    FilledKeys(pins, rendererPins, repos, renderers, end);
    assert "html_renderer.wasm" in rendererPins.Keys;
    hide FilledAt, NamesOf, Supplies, Attributed, Citable, Staged;
    forall name | name in end.sources
      ensures name in pins ==> pins[name] == Sha256(end.dir[name])
      ensures name in rendererPins ==> rendererPins[name] == Sha256(end.dir[name])
      ensures Attributed(end.sources[name], name in rendererPins)
    {
      FilledIsVouched(pins, rendererPins, repos, renderers, end, name);
    }
    forall name | name in pins ensures name in end.sources && name !in rendererPins {
      assert name in pins.Keys + rendererPins.Keys;
    }
    forall name | name in rendererPins ensures name in end.sources {
      assert name in pins.Keys + rendererPins.Keys;
    }
  }

  lemma FilledIsVouched(pins: map<string, Digest>, rendererPins: map<string, Digest>, repos: seq<Repo>,
                        renderers: Repo, end: Books, name: string)
    requires renderers.download.Fetched? && rendererPins.Keys == REQUIRED && Citable(renderers)
    requires FilledAt(pins, rendererPins, repos, renderers, end, name) && name in end.sources
    requires NamesOf(repos) == pins.Keys && pins.Keys !! REQUIRED
    requires forall repo :: repo in repos && Supplies(repo, name) ==> Citable(repo)
    ensures name in end.dir
    ensures name in pins ==> pins[name] == Sha256(end.dir[name])
    ensures name in rendererPins ==> rendererPins[name] == Sha256(end.dir[name])
    ensures Attributed(end.sources[name], name in rendererPins)
  {
    hide NamesOf, Supplies, Attributed, SourceOf, IsWasm, Citable;
    assert name in rendererPins <==> name in REQUIRED;
    assert name in pins <==> name in NamesOf(repos);
    if name in REQUIRED {
      CitableExactly(renderers);
    } else {
      var repo :| repo in repos && Supplies(repo, name);
      SuppliesFetched(repo, name);
      CitableExactly(repo);
    }
  }

  lemma FilledKeys(pins: map<string, Digest>, rendererPins: map<string, Digest>, repos: seq<Repo>,
                   renderers: Repo, end: Books)
    requires renderers.download.Fetched? && rendererPins.Keys == REQUIRED && NamesOf(repos) == pins.Keys
    requires forall name :: FilledAt(pins, rendererPins, repos, renderers, end, name)
    ensures Staged(end.dir).Keys == pins.Keys + rendererPins.Keys == end.sources.Keys
  {
    hide NamesOf, Supplies, SourceOf, IsWasm;
    forall name
      ensures name in pins.Keys + rendererPins.Keys <==> name in Staged(end.dir).Keys
      ensures name in pins.Keys + rendererPins.Keys <==> name in end.sources.Keys
    {
      assert FilledAt(pins, rendererPins, repos, renderers, end, name);
      assert name in rendererPins.Keys <==> name in REQUIRED;
      assert name in pins.Keys <==> name in NamesOf(repos);
    }
  }

  lemma SuppliesFetched(repo: Repo, name: string)
    requires Supplies(repo, name)
    ensures repo.download.Fetched?
  {
  }

  lemma ShippableWasFilled(pins: map<string, Digest>, rendererPins: map<string, Digest>, repos: seq<Repo>,
                           renderers: Repo, end: Books)
    requires renderers.download.Fetched? && rendererPins.Keys == REQUIRED
    requires forall name :: FilledAt(pins, rendererPins, repos, renderers, end, name)
    requires Shippable(end.dir, pins, rendererPins, end.sources)
    ensures NamesOf(repos) == pins.Keys && pins.Keys !! REQUIRED && Citable(renderers)
    ensures forall repo, name :: repo in repos && Supplies(repo, name) ==> Citable(repo)
  {
    CitableExactly(renderers);
    hide NamesOf, Supplies, Attributed, SourceOf, IsWasm, Citable;
    assert FilledAt(pins, rendererPins, repos, renderers, end, "html_renderer.wasm");
    assert pins.Keys !! REQUIRED;
    forall name ensures name in NamesOf(repos) <==> name in pins {
      assert FilledAt(pins, rendererPins, repos, renderers, end, name);
      assert name in end.sources <==> name in pins.Keys + rendererPins.Keys;
    }
    forall repo, name | repo in repos && Supplies(repo, name) ensures Citable(repo) {
      assert FilledAt(pins, rendererPins, repos, renderers, end, name);
      NamesOfExact(repos, name);
      SuppliesFetched(repo, name);
      CitableExactly(repo);
    }
  }

  /** A shippable directory is determined by the pins: two of them hold the same wasm files. */
  lemma ShippableIsUnique(a: Directory, b: Directory, pins: map<string, Digest>, rendererPins: map<string, Digest>,
                          sources: map<string, Source>, sources': map<string, Source>)
    requires Shippable(a, pins, rendererPins, sources) && Shippable(b, pins, rendererPins, sources')
    ensures Staged(a) == Staged(b)
  {
    forall name | name in Staged(a) ensures name in Staged(b) && Staged(a)[name] == Staged(b)[name] {
      assert name in pins || name in rendererPins;
    }
    assert Staged(a).Keys == Staged(b).Keys;
  }

  /** A leftover wasm file that no pin names makes every provisioning fail. */
  lemma LeftoverBlocks(dir: Directory, pins: map<string, Digest>, rendererPins: map<string, Digest>,
                       sources: map<string, Source>, name: string)
    requires name in Staged(dir) && name !in pins && name !in rendererPins
    ensures !Shippable(dir, pins, rendererPins, sources)
  {
    assert name !in pins.Keys + rendererPins.Keys;
  }
}
