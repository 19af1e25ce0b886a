/**
  `nativeSW`: the three Vite plugins it returns, sharing the normalised
  entries, the `versions` record and the resolved config.

  - `sw-plugin` (build): draws versions, loads `sw-import:` ids, rewrites the
    imports of worker entries, and stamps versions into the emitted bundle.
  - `sw-plugin:dev` (serve): maps `/<dist>` to the entry's source and serves it
    with the placeholder set to `dev`.
  - `sw-plugin:virtual`: the `virtual:sw-plugin` module listing every worker
    and the script type to register it with.

  File reads are a map from path to contents (a missing path is a failed
  read); the parser's output for a file is passed in beside its text.
 */
module Plugin {
  import opened Wrappers
  import opened Text
  import opened Reveal
  import opened Rewrite
  import opened Options
  import opened Versions

  /** Prepended to a served worker when the config has `define`s. */
  const EnvImport: string := "import '/@vite/env'\n\n"

  /** The version every worker has while serving. */
  const DevVersion: string := "dev"

  const VirtualId: string := "virtual:sw-plugin"

  const Production: string := "production"

  /** What of Vite's resolved config the plugins read. */
  datatype Config = Config(mode: string, define: Option<map<string, string>>)

  /** A `load` hook's answer: `undefined`, the module's text, or a rejected file read. */
  datatype LoadResult = Skip | Code(text: string) | ReadFailed(path: string)

  /** `generateBundle` either returns or throws. */
  datatype Outcome = Pass | Fail(message: string)

  datatype ScriptType = Classic | Module

  /** One element of `packedSW()`; a `version` of `undefined` is dropped by `JSON.stringify`. */
  datatype PackedEntry = PackedEntry(dist: string, version: Option<string>)

  /** What the virtual module's text is rendered from. */
  datatype VirtualModule = VirtualModule(packed: seq<PackedEntry>, scriptType: ScriptType)

  /** `Array.prototype.findIndex`, as an option: the first index whose element satisfies `p`. */
  function FindFirst<T>(s: seq<T>, p: T -> bool): (r: Option<nat>)
    ensures r.None? <==> forall i :: 0 <= i < |s| ==> !p(s[i])
    ensures r.Some? ==> r.value < |s| && p(s[r.value]) && forall i :: 0 <= i < r.value ==> !p(s[i])
  {
    if s == [] then None
    else if p(s[0]) then Some(0)
    else
      match FindFirst(s[1..], p)
      case None => None
      case Some(i) =>
        assert forall j :: 1 <= j <= i ==> s[j] == s[1..][j - 1];
        Some(i + 1)
  }

  /** The first entry whose `dist` is not a key of the bundle. */
  function MissingDist(entries: seq<Entry>, keys: set<string>): Option<nat>
  {
    FindFirst(entries, (e: Entry) => e.dist !in keys)
  }

  /** Index i is the first entry missing from the bundle once the entries before it were found. */
  lemma MissingDistAt(entries: seq<Entry>, keys: set<string>, i: nat)
    requires i <= |entries| && forall j :: 0 <= j < i ==> entries[j].dist in keys
    ensures i < |entries| && entries[i].dist !in keys ==> MissingDist(entries, keys) == Some(i)
    ensures i == |entries| ==> MissingDist(entries, keys) == None
  {
  }

  /** One more entry stamped: the chunk of its `dist` gets its placeholders replaced. */
  lemma StampedStep(chunks: map<string, string>, entries: seq<Entry>, versions: map<string, string>, i: nat)
    requires i < |entries| && forall j :: 0 <= j <= i ==> entries[j].dist in chunks
    ensures
      var before := Stamped(chunks, entries[..i], versions);
      var dist := entries[i].dist;
      Stamped(chunks, entries[..i + 1], versions) == before[dist := ReplaceAll(before[dist], Placeholder, VersionOf(versions, dist))]
  {
    assert entries[..i + 1][..i] == entries[..i];
  }

  /** The config defines at least one key (a missing `define` counts as none). */
  predicate HasDefines(define: Option<map<string, string>>)
  {
    define.Some? && |define.value| > 0
  }

  /** The text the dev `load` puts in front of a worker. */
  function EnvPrefix(define: Option<map<string, string>>): string
  {
    if HasDefines(define) then EnvImport else ""
  }

  /** The specifier rewriting `transform` applies to the imports of entry `entry`. */
  function RevealIn(host: Host, entry: string): string -> string
  {
    s => RevealFile(host, entry, s)
  }

  /**
    The path the build `load` reads for a tagged id: what follows the prefix, short of the
    id's last character; the empty string when nothing follows the prefix.
   */
  function ImportPath(id: string): (path: string)
    requires StartsWith(id, ImportPrefix)
    ensures |id| == |ImportPrefix| ==> path == []
    ensures |id| > |ImportPrefix| ==> id == ImportPrefix + path + [id[|id| - 1]]
  {
    if |id| > |ImportPrefix| then id[|ImportPrefix|..|id| - 1] else []
  }

  /** The build `load`: ids tagged `sw-import:` are read from disk, all others are left to Vite. */
  function LoadImport(id: string, files: map<string, string>): (r: LoadResult)
    ensures r.Skip? <==> !StartsWith(id, ImportPrefix)
    ensures r.Code? ==> ImportPath(id) in files && r.text == files[ImportPath(id)]
    ensures r.ReadFailed? ==> ImportPath(id) !in files && r.path == ImportPath(id)
  {
    if !StartsWith(id, ImportPrefix) then Skip
    else
      var path := ImportPath(id);
      if path in files then Code(files[path]) else ReadFailed(path)
  }

  /**
    What the build `load` does with an id `revealFile` produced: it reads the
    resolved file with its extension cut to `.t` or `.j`, the last character
    having been sliced off.
   */
  lemma LoadAfterReveal(host: Host, entry: string, source: string, files: map<string, string>)
    requires PathLike(source)
    ensures
      var file := ResolvedFile(host, entry, source);
      var path := if file + ".ts" in host.existing then file + ".t" else file + ".j";
      LoadImport(RevealFile(host, entry, source), files)
        == if path in files then Code(files[path]) else ReadFailed(path)
  {
    var file := ResolvedFile(host, entry, source);
    var id := RevealFile(host, entry, source);
    var ext := if file + ".ts" in host.existing then ".ts" else ".js";
    assert id == ImportPrefix + file + ext;
    assert id == ImportPrefix + (file + [ext[0], ext[1]]) + [ext[2]];
    assert |id| > |ImportPrefix|;
    assert ImportPath(id) == file + [ext[0], ext[1]];
  }

  /** An entry whose imports are all bare specifiers comes out of `replaceImports` as it went in. */
  lemma BareImportsKeepText(host: Host, entry: string, code: string, spans: seq<Span>)
    requires WellFormed(code, spans) && LiteralsAsWritten(code, spans)
    requires forall j :: 0 <= j < |spans| ==> !PathLike(Specifier(spans[j].raw))
    ensures Rewritten(code, spans, VirtualLiterals(RevealIn(host, entry), spans), |spans|) == code
  {
    KeptImportsKeepText(RevealIn(host, entry), code, spans);
  }

  /**
    The `packed` list of the virtual module: every entry's `dist` in order, with
    `versions[dist]` in production (absent when there is none) and `dev` otherwise.
   */
  function Packed(entries: seq<Entry>, versions: map<string, string>, mode: string): (r: seq<PackedEntry>)
    ensures |r| == |entries|
    ensures forall i :: 0 <= i < |r| ==> r[i].dist == entries[i].dist
    ensures mode != Production ==> forall i :: 0 <= i < |r| ==> r[i].version == Some(DevVersion)
    ensures mode == Production ==> forall i :: 0 <= i < |r| ==>
      (r[i].version.Some? <==> entries[i].dist in versions) &&
      (r[i].version.Some? ==> r[i].version.value == versions[entries[i].dist])
  {
    seq(|entries|, i requires 0 <= i < |entries| =>
      PackedEntry(entries[i].dist,
        if mode != Production then Some(DevVersion)
        else if entries[i].dist in versions then Some(versions[entries[i].dist])
        else None))
  }

  /**
    After `configResolved` in a production build, the version the page
    registers a worker with is the one stamped into that worker's chunk, when
    its `dist` is its own or the `genVersion` results are clean; and it is the
    entry's own token when the entry makes the last write to its `dist`.
   */
  lemma PackedMatchesStamp(entries: seq<Entry>, random: seq<seq<byte>>, chunks: map<string, string>, j: nat)
    requires RandomFor(entries, random) && j < |entries|
    requires forall i :: 0 <= i < |entries| ==> entries[i].dist in chunks
    ensures
      var versions := Assigned(map[], entries, random);
      Packed(entries, versions, Production)[j].version == Some(VersionOf(versions, entries[j].dist))
    ensures GenVersionsClean(entries) || Unique(entries, j) ==>
      var versions := Assigned(map[], entries, random);
      var dist := entries[j].dist;
      Stamped(chunks, entries, versions)[dist] == ReplaceAll(chunks[dist], Placeholder, VersionOf(versions, dist))
    ensures LastWrite(entries, j) ==>
      VersionOf(Assigned(map[], entries, random), entries[j].dist) == TokenFor(entries[j], random[j])
  {
    var versions := Assigned(map[], entries, random);
    assert entries[j].dist in Dists(entries);
    if GenVersionsClean(entries) {
      AssignedClean(map[], entries, random);
    }
    if GenVersionsClean(entries) || Unique(entries, j) {
      StampedChunk(chunks, entries, versions, j);
    }
    if LastWrite(entries, j) {
      AssignedLastWins(map[], entries, random, j);
    }
  }

  /** The output bundle of a build: chunk file names and the code of each. */
  class OutputBundle {
    var chunks: map<string, string>

    constructor(chunks: map<string, string>)
      ensures this.chunks == chunks
    {
      this.chunks := chunks;
    }
  }

  /** The state the three plugins share. */
  class NativeSW {
    const entries: seq<Entry>
    var versions: map<string, string>
    var conf: Option<Config>

    /** The plugins as `nativeSW` creates them: entries normalised, no versions, no config yet. */
    constructor(options: seq<Entry>)
      ensures entries == NormalizeEntries(options) && Normalized(entries)
      ensures versions == map[] && conf == None
    {
      entries := NormalizeEntries(options);
      versions := map[];
      conf := None;
      NormalizeEntriesNormalized(options);
    }

    /** The first entry whose `src` is `id`. */
    function SrcIndex(id: string): Option<nat>
    {
      FindFirst(entries, (e: Entry) => e.src == id)
    }

    /**
      The build `configResolved`. `entries.map` runs each callback up to its
      first `await`, so the entries without `genVersion` write their random
      tokens first, in order; the awaited `genVersion` results are written
      after them.
     */
    method ConfigResolvedBuild(random: seq<seq<byte>>)
      requires RandomFor(entries, random)
      modifies this`versions
      ensures versions == Assigned(old(versions), entries, random)
    {
      for i := 0 to |entries|
        invariant versions == Written(old(versions), entries, random, false, i)
      {
        if entries[i].genVersion.None? {
          versions := versions[entries[i].dist := DefaultToken(random[i])];
        }
      }
      ghost var drawn := versions;
      for i := 0 to |entries|
        invariant versions == Written(drawn, entries, random, true, i)
      {
        if entries[i].genVersion.Some? {
          versions := versions[entries[i].dist := entries[i].genVersion.value];
        }
      }
    }

    /** `configResolved` of the dev and virtual plugins: remember the config. */
    method ConfigResolved(config: Config)
      modifies this`conf
      ensures conf == Some(config)
    {
      conf := Some(config);
    }

    /**
      `transform`: the code of an entry's source file has its imports rewritten
      against that file; any other module is left to Vite.
     */
    method Transform(host: Host, code: string, id: string, body: seq<Stmt>) returns (r: Option<string>)
      requires SrcIndex(id).Some? ==> WellFormed(code, ImportSpans(body))
      ensures r.Some? <==> exists j :: 0 <= j < |entries| && entries[j].src == id
      ensures r.Some? ==>
        var spans := ImportSpans(body);
        var lits := VirtualLiterals(RevealIn(host, id), spans);
        && r.value == Rewritten(code, spans, lits, |spans|)
        && |r.value| == |code| + Drift(spans, lits, |spans|)
    {
      for i := 0 to |entries|
        invariant forall j :: 0 <= j < i ==> entries[j].src != id
      {
        if entries[i].src == id {
          var out := ReplaceImports(RevealIn(host, id), code, body);
          return Some(out);
        }
      }
      return None;
    }

    /**
      The build `generateBundle`: entries in order, each `dist` must be in the
      bundle (otherwise it throws, the earlier entries already stamped), and
      its chunk's placeholders are replaced by its version in place.
     */
    method GenerateBundle(bundle: OutputBundle) returns (outcome: Outcome)
      modifies bundle
      ensures MissingDist(entries, old(bundle.chunks).Keys).None? ==>
        && outcome == Pass
        && bundle.chunks == Stamped(old(bundle.chunks), entries, versions)
      ensures MissingDist(entries, old(bundle.chunks).Keys).Some? ==>
        var j := MissingDist(entries, old(bundle.chunks).Keys).value;
        && outcome == Fail(entries[j].dist + " not found in bundle")
        && bundle.chunks == Stamped(old(bundle.chunks), entries[..j], versions)
    {
      for i := 0 to |entries|
        invariant forall j :: 0 <= j < i ==> entries[j].dist in old(bundle.chunks)
        invariant bundle.chunks == Stamped(old(bundle.chunks), entries[..i], versions)
      {
        var dist := entries[i].dist;
        if dist !in bundle.chunks {
          MissingDistAt(entries, old(bundle.chunks).Keys, i);
          return Fail(dist + " not found in bundle");
        }
        StampedStep(old(bundle.chunks), entries, versions, i);
        bundle.chunks := bundle.chunks[dist := ReplaceAll(bundle.chunks[dist], Placeholder, VersionOf(versions, dist))];
      }
      assert entries[..|entries|] == entries;
      MissingDistAt(entries, old(bundle.chunks).Keys, |entries|);
      return Pass;
    }

    /** The dev `resolveId`: `/<dist>` names the source of the first entry with that `dist`. */
    function ResolveId(source: string): (r: Option<string>)
      ensures r.None? <==> forall j :: 0 <= j < |entries| ==> "/" + entries[j].dist != source
      ensures r.Some? ==> exists j :: (0 <= j < |entries| && "/" + entries[j].dist == source
        && r.value == entries[j].src
        && forall i :: 0 <= i < j ==> "/" + entries[i].dist != source)
    {
      match FindFirst(entries, (e: Entry) => "/" + e.dist == source)
      case None => None
      case Some(j) => Some(entries[j].src)
    }

    /**
      The dev `load`: an entry's source is read and served with the env import
      in front when the config has `define`s, every placeholder becoming `dev`.
     */
    method Load(id: string, files: map<string, string>) returns (r: LoadResult)
      requires SrcIndex(id).Some? ==> conf.Some?
      ensures r.Skip? <==> forall j :: 0 <= j < |entries| ==> entries[j].src != id
      ensures r.ReadFailed? <==> SrcIndex(id).Some? && id !in files
      ensures r.ReadFailed? ==> r.path == id
      ensures r.Code? ==>
        && id in files && conf.Some?
        && r.text == EnvPrefix(conf.value.define) + ReplaceAll(files[id], Placeholder, DevVersion)
        && !Occurs(r.text, Placeholder)
    {
      for i := 0 to |entries|
        invariant forall j :: 0 <= j < i ==> entries[j].src != id
      {
        if entries[i].src == id {
          if id !in files {
            return ReadFailed(id);
          }
          var code := files[id];
          if HasDefines(conf.value.define) {
            code := EnvImport + code;
          }
          ReplaceAllAfterPrefix(EnvPrefix(conf.value.define), files[id], Placeholder, DevVersion);
          NoOccurrenceLeft(code, Placeholder, DevVersion);
          return Code(ReplaceAll(code, Placeholder, DevVersion));
        }
      }
      return Skip;
    }

    /** The virtual plugin's `resolveId`: only its own id is claimed. */
    function ResolveVirtualId(source: string): (r: Option<string>)
      ensures r.Some? <==> source == VirtualId
      ensures r.Some? ==> r.value == source
    {
      if source == VirtualId then Some(source) else None
    }

    /**
      The virtual plugin's `load`: the packed list of workers and the script
      type, `classic` exactly in production.
     */
    function LoadVirtual(id: string): (r: Option<VirtualModule>)
      requires id == VirtualId ==> conf.Some?
      reads this
      ensures r.Some? <==> id == VirtualId
      ensures r.Some? ==> r.value.packed == Packed(entries, versions, conf.value.mode)
      ensures r.Some? ==> (r.value.scriptType == Classic <==> conf.value.mode == Production)
    {
      if id != VirtualId then None
      else
        var mode := conf.value.mode;
        Some(VirtualModule(Packed(entries, versions, mode), if mode == Production then Classic else Module))
    }
  }
}
