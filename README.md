# vite-plugin-native-sw, modelled in Dafny

This project models `nativeSW` from `src/index.ts`. The function returns three
Vite plugins that build service workers as standalone bundles:

- the build plugin `sw-plugin`;
- the serve plugin `sw-plugin:dev`;
- the virtual plugin `sw-plugin:virtual`.

The modules follow the source:

- `Text` covers prefixes, occurrences, and `String.prototype.replaceAll` with a literal
  search string.
- `Reveal` covers `revealFile`. A specifier whose second character is `.` or `/`
  becomes `sw-import:<resolved>.ts` when that file exists, and `sw-import:<resolved>.js`
  otherwise. Every other specifier is returned as it is.
- `Rewrite` covers `replaceImports`.
  - The method keeps the source's loop, with its running `offset`, over the top-level
    statements.
  - It is proved against `Rewritten`, the original text with the first k import
    literals replaced.
  - Lemmas about `Rewritten` state three things. Every byte outside the literals is
    kept, shifted by the drift before it. Every literal is replaced in place. An entry
    whose specifiers are all bare keeps its text byte for byte.
- `Options` covers the `dist` normalisation that runs before anything else: leading
  `/` are stripped.
- `Versions` covers three things:
  - the default version token, which is the first 8 hex digits of 20 random bytes;
  - the `configResolved` fill of `versions`;
  - the stamping of `%SW_VERSION%` that `generateBundle` does.
- `Plugin` holds the shared state of the three plugins as class `NativeSW`.
  - The state is the normalised entries, `versions`, and the resolved config.
  - It also has the hooks as methods and functions: build `load`, `transform`,
    `generateBundle`, dev `resolveId` and `load`, and virtual `resolveId` and `load`.
  - Class `OutputBundle` is the bundle whose chunk code `generateBundle` edits in place.

The host is passed in as parameters:

- `node:path`'s `resolve` is a function parameter.
- The files `stat` finds are a set.
- The files `fs.readFile` can read are a map from path to contents. A missing path is a
  rejected read.
- The output of `@babel/parser` for a file is a sequence of statements. An import
  declaration carries the start offset and raw text of its source literal.
- The random bytes of `randomBytes(20)` are one byte sequence per entry.

Some behaviours of `src/index.ts` are worth stating outright, since the model
follows them:

- `sw-import:` ids carry no entry index.
- Bare specifiers are never resolved through package manifests.
- Duplicate `dist`s are not rejected.
- The virtual module picks its versions and script type by `conf.mode === 'production'`,
  not by build or serve.
- In `configResolved`, the entries without `genVersion` write their random token
  synchronously inside `entries.map`, before any awaited write lands. So a `genVersion`
  result always beats a random token for a shared `dist`, whatever the entry order
  (`AssignedLastWins`).
- The build `load` does not invert `revealFile`. It slices off the id's last character,
  so it asks for `<file>.t` or `<file>.j` (`LoadAfterReveal`).
- The dev `load` prepends the env import exactly when `define` is non-empty. A file that
  already starts with that import therefore starts with it either way. The contract
  states the exact text rather than an if-and-only-if on the prefix.

## Model

| member | source | states |
|---|---|---|
| Text.NoOccurrenceLeft | src/index.ts:95 | after `replaceAll` with a non-empty replacement sharing no character with the placeholder, the placeholder occurs nowhere in the result, neither left over nor newly formed |
| Text.ReplaceAll | src/index.ts:95 | `replaceAll` with a literal search string: replacing the search string by itself leaves the text unchanged, and a replacement of the same length keeps the length |
| Text.ReplaceAllFirst | src/index.ts:95 | the leftmost occurrence is the one replaced: the text before it is copied, the replacement is inserted literally, and the scan resumes after the occurrence, so replaced occurrences never overlap |
| Text.ReplaceAllIdentity | src/index.ts:95 | text without the search string comes out of `replaceAll` unchanged |
| Text.ReplaceAllAfterPrefix | src/index.ts:116-118 | a prefix without the search string's first character passes through `replaceAll` untouched, so prepending the env import commutes with the placeholder replacement |
| Text.CopiedPrefix | src/index.ts:95 | a prefix of the `replaceAll` output holding no replacement character was copied verbatim from the input |
| Reveal.RevealFile | src/index.ts:7-19 | the specifier is returned unchanged exactly when its second character is not `.` or `/` (including specifiers shorter than 2). Otherwise the result is `sw-import:` + resolved file + `.ts` exactly when that file exists, and + `.js` exactly when it does not |
| Rewrite.ImportSpansExactlyImports | src/index.ts:28-29 | the literals the loop rewrites are exactly those of the import declarations among the statements; other statements are skipped |
| Rewrite.Virtual | src/index.ts:33 | the new literal starts and ends with the old literal's first (quote) character |
| Rewrite.VirtualKeepsLiteral | src/index.ts:33 | the new literal equals the old one exactly when the revealed specifier equals the old specifier and the old literal's quotes match |
| Rewrite.ReplaceImports | src/index.ts:21-39 | the loop's result is the original text with every import literal replaced by its new literal, and its length is the original length plus the drift (sum of length changes) |
| Rewrite.SpliceStep | src/index.ts:34-35 | splicing the next literal at `start + offset` over `raw.length` characters turns the text with k literals replaced into the text with k + 1 replaced |
| Rewrite.LoopSplice | src/index.ts:28-35 | one import declaration keeps the loop invariant: the text is the original with the literals so far replaced, and `offset` is their drift |
| Rewrite.ProgressDone | src/index.ts:27-38 | at the end of the loop the text is fully rewritten and its length is the original length plus `offset` |
| Rewrite.HeadLength | src/index.ts:35 | the rewritten text up to the end of literal k is as long as the original up to there plus the drift of the first k literals |
| Rewrite.RewrittenKeepsOutside | src/index.ts:34 | every byte outside the import literals reappears in the output at its position shifted by the drift of the literals before it |
| Rewrite.RewrittenLiteral | src/index.ts:33-35 | each literal's replacement sits in the output at the literal's start shifted by the drift of the literals before it |
| Rewrite.KeptImportsKeepText | src/index.ts:28-36 | when revealing leaves every specifier as it is, the output equals the input byte for byte |
| Options.StripLeadingSlashes | src/index.ts:57 | the normalised `dist` is a suffix of the original, everything removed was `/`, and it does not start with `/` |
| Options.NormalizeEntries | src/index.ts:57 | normalisation keeps the number of entries, and each entry's `src` and `genVersion`; only `dist` is stripped |
| Options.NormalizeEntriesNormalized | src/index.ts:57 | after normalisation no `dist` starts with `/`, and normalising again changes nothing |
| Versions.Hex | src/index.ts:66 | `toString('hex')` gives two lower-case hex digits per byte |
| Versions.HexPrefix | src/index.ts:66 | the first 2n hex digits encode the first n bytes |
| Versions.DefaultToken | src/index.ts:66 | the default token is 8 lower-case hex digits, the encoding of the first 4 random bytes |
| Versions.DefaultTokenClean | src/index.ts:66 | a default token is non-empty and shares no character with `%SW_VERSION%` |
| Versions.TokenFor | src/index.ts:66 | an entry's version is its `genVersion` result when it has one, and otherwise 8 lower-case hex digits encoding the first 4 random bytes |
| Versions.WrittenKeys | src/index.ts:64-67 | the writes of one kind (random tokens, or `genVersion` results) give a version to exactly the `dist`s of that kind, on top of the keys already there |
| Versions.WrittenUntouched | src/index.ts:64-67 | the writes of one kind leave every other `dist`'s version as it was |
| Versions.WrittenLastWins | src/index.ts:64-67 | among the writes of one kind, the last entry of that kind naming a `dist` decides its version |
| Versions.Assigned | src/index.ts:63-68 | after `configResolved` every entry's `dist` has a version, and no other key of `versions` changed; the random tokens are written first, then the `genVersion` results |
| Versions.AssignedLastWins | src/index.ts:64-67 | the version of a `dist` is the token of the entry making the last write to it: the last `genVersion` entry naming it when there is one, whatever the random-token entries around it, and otherwise the last entry naming it |
| Versions.AssignedClean | src/index.ts:66 | when every `genVersion` result is clean, every `versions[dist]` lookup is clean, including a missing one read as `undefined` |
| Versions.Stamped | src/index.ts:88-96 | stamping keeps the bundle's file names and leaves every chunk that no entry names untouched |
| Versions.VersionOf | src/index.ts:95 | `versions[dist]` as `replaceAll` receives it: the stored version when there is one, and otherwise the string `undefined`; clean whenever every stored version is clean |
| Versions.StampedChunk | src/index.ts:95 | an entry's chunk ends up as its original code with every `%SW_VERSION%` replaced by `versions[dist]` whenever no other entry names its `dist`, whatever the version; when several entries share the `dist`, the same holds for a clean version. A clean version leaves no placeholder |
| Plugin.FindFirst | src/index.ts:106 | the index found is the first whose element satisfies the test; none is found exactly when no element does |
| Plugin.ImportPath | src/index.ts:75 | the path read is what follows `sw-import:` minus the id's last character: id = prefix + path + one character, or the path is empty when nothing follows the prefix |
| Plugin.LoadImport | src/index.ts:73-78 | the build `load` leaves ids without the `sw-import:` prefix to Vite; otherwise it returns the contents at `ImportPath(id)` or the failed read of that path |
| Plugin.LoadAfterReveal | src/index.ts:74-75 | loading an id `revealFile` produced for a path-like specifier reads the resolved file with extension `.t` when the `.ts` file exists and `.j` otherwise |
| Plugin.BareImportsKeepText | src/index.ts:8-10 | an entry whose import specifiers are all bare comes out of `replaceImports` byte for byte as it went in |
| Plugin.Packed | src/index.ts:139-142 | the packed list has one element per entry, with that entry's `dist`. Its version is `dev` outside production; in production it is `versions[dist]`, absent when there is none |
| Plugin.PackedMatchesStamp | src/index.ts:139-142 | in a production build the version the page registers a worker with is `versions[dist]`. It is the version stamped into that worker's chunk when the `dist` is the entry's own or every `genVersion` result is clean. It is the entry's own token when the entry makes the last write to its `dist` |
| Plugin.NativeSW.constructor | src/index.ts:54-57 | the plugins start from the normalised entries, no versions and no config |
| Plugin.NativeSW.ConfigResolvedBuild | src/index.ts:63-68 | `versions` becomes `Assigned` of its old value: first the random tokens of the entries without `genVersion`, in order, then the `genVersion` results |
| Plugin.NativeSW.ConfigResolved | src/index.ts:102-104 | the config is remembered (also src/index.ts:125-127) |
| Plugin.NativeSW.Transform | src/index.ts:79-86 | ids that are no entry's `src` give nothing. An entry's code comes back with its import literals rewritten against that file, with the length given by the drift |
| Plugin.NativeSW.GenerateBundle | src/index.ts:87-97 | when every `dist` is in the bundle it passes and the chunks become `Stamped`. Otherwise it fails with `<dist> not found in bundle` for the first missing `dist`, and the entries before it are already stamped |
| Plugin.NativeSW.ResolveId | src/index.ts:105-107 | `/<dist>` resolves to the `src` of the first entry with that `dist`; nothing resolves when no `dist` matches |
| Plugin.NativeSW.Load | src/index.ts:108-122 | ids that are no entry's `src` give nothing, and an unreadable source gives the failed read. Otherwise the text is the env import when `define` is non-empty, then the file with every `%SW_VERSION%` replaced by `dev`, and no placeholder is left |
| Plugin.NativeSW.ResolveVirtualId | src/index.ts:128-133 | only `virtual:sw-plugin` is claimed, and it resolves to itself |
| Plugin.NativeSW.LoadVirtual | src/index.ts:134-147 | only `virtual:sw-plugin` loads. Its packed list is `Packed` of the entries, `versions` and the mode, and its script type is `classic` exactly in production |

## Left out

- `@babel/parser` (src/index.ts:22-25) is an external parser. Its output is an input.
  - Parse errors are not modelled.
  - `WellFormed` and `LiteralsAsWritten` state what the model takes from it: literals in
    textual order, not overlapping, within the text, and quoted.
- `node:path`'s `resolve` is an uninterpreted function, and `stat` is membership in a set.
  - An error `stat` reports for a reason other than absence behaves like absence in the
    source too, so the set covers it.
- `fs.readFile` is a map from path to contents. Encodings and I/O errors other than a
  missing file are not modelled.
- `createHashFromFiles` (src/index.ts:41-44) is not modelled. It is MD5 over read files,
  and the plugins never call it.
- `randomBytes` is not modelled as randomness. The bytes are a parameter, and only the
  hex rendering and the cut to 8 digits are modelled.
- Plugin.NativeSW.ConfigResolvedBuild: the model writes the awaited `genVersion` results
  in entry order.
  - In the source they land in the order their promises settle. That is entry order only
    when no promise settles before an earlier entry's.
  - So for a `dist` that several `genVersion` entries share, `AssignedLastWins` speaks for
    entry order only.
  - The random tokens are written synchronously inside `entries.map` (src/index.ts:65-66),
    before any awaited write. The model follows that order, so a `genVersion` result beats
    a random token for a shared `dist` in the model as in the source.
  - `StampedChunk` and the first two parts of `PackedMatchesStamp` hold for any write order.
  - A `genVersion` that rejects is not modelled.
- Reveal.RevealFile and Rewrite.ReplaceImports: a Dafny `string` is a sequence of Unicode
  scalar values, while JavaScript indexes UTF-16 code units.
  - So `source[1]` (src/index.ts:8) and the `start`, `.length` and `slice` arithmetic
    (src/index.ts:30-35) count scalar values in the model.
  - They differ for text with characters outside the Basic Multilingual Plane. For
    example, for a specifier whose first character is one such character followed by
    `/`, the source sees a lone surrogate as the second character and keeps the specifier.
    The model treats it as path-like.
- Text.ReplaceAll: `$&`, `$1` and other substitution patterns in a version string are not
  interpreted. The replacement is inserted literally.
- Versions.VersionOf and Plugin.NativeSW.GenerateBundle: keys inherited from
  `Object.prototype` (`constructor`, `toString`, …) are not modelled as present in
  `versions` or `bundle`. A bundle item without `code` (an asset) is not modelled.
- Plugin.NativeSW.Load and Plugin.NativeSW.LoadVirtual: the hooks run only after
  `configResolved`.
  - Both require the config to be set when the id is theirs.
  - The source would throw a `TypeError` on `conf.define` or `conf.mode` otherwise.
- The hook lifecycle is not modelled: plugin names, `apply` and `enforce`, which plugin
  runs in which command, and the order Vite calls hooks in.
- `buildStart`'s `emitFile` calls (src/index.ts:69-72) are not modelled. They register
  chunks with Rollup and have no result of their own.
- `console.log` (src/index.ts:94) is not modelled.
- The virtual module's text (src/index.ts:144-147) is represented by its two varying
  parts, the packed list and the script type. The `JSON.stringify` and template rendering
  are not modelled.
- The simple-cache example's `News.tsx` (React UI and worker messaging) and `global.d.ts`
  (type declarations) are not part of this model.
