/**
  The plugin's options: one entry per worker script, and the normalisation
  `nativeSW` applies to them before anything else (leading `/` removed from
  every `dist`).
 */
module Options {
  import opened Wrappers

  /**
    One configured worker: the source file, the output file name, and the
    string its `genVersion` callback resolves to, when it has one.
   */
  datatype Entry = Entry(src: string, dist: string, genVersion: Option<string>)

  /**
    Removing every leading `/` of a `dist`: what is left is a suffix of `dist`, everything cut
    off was `/`, and it does not itself start with `/`.
   */
  function StripLeadingSlashes(dist: string): (r: string)
    ensures |r| <= |dist| && r == dist[|dist| - |r|..]
    ensures forall i :: 0 <= i < |dist| - |r| ==> dist[i] == '/'
    ensures r == [] || r[0] != '/'
  {
    if dist != [] && dist[0] == '/' then StripLeadingSlashes(dist[1..]) else dist
  }

  /** Stripping twice is stripping once. */
  lemma StripLeadingSlashesIdempotent(dist: string)
    ensures StripLeadingSlashes(StripLeadingSlashes(dist)) == StripLeadingSlashes(dist)
  {
  }

  /** Each entry as it was, except that its `dist` has its leading `/` removed. */
  function NormalizeEntries(entries: seq<Entry>): (r: seq<Entry>)
    ensures |r| == |entries|
    ensures forall i :: 0 <= i < |r| ==>
      && r[i].src == entries[i].src
      && r[i].genVersion == entries[i].genVersion
      && r[i].dist == StripLeadingSlashes(entries[i].dist)
  {
    seq(|entries|, i requires 0 <= i < |entries| =>
      entries[i].(dist := StripLeadingSlashes(entries[i].dist)))
  }

  /** After normalisation no `dist` starts with `/`. */
  predicate Normalized(entries: seq<Entry>)
  {
    forall i :: 0 <= i < |entries| ==> entries[i].dist == [] || entries[i].dist[0] != '/'
  }

  lemma NormalizeEntriesNormalized(entries: seq<Entry>)
    ensures Normalized(NormalizeEntries(entries))
    ensures NormalizeEntries(NormalizeEntries(entries)) == NormalizeEntries(entries)
  {
    var once := NormalizeEntries(entries);
    var twice := NormalizeEntries(once);
    forall i | 0 <= i < |entries| ensures twice[i] == once[i] {
      StripLeadingSlashesIdempotent(entries[i].dist);
    }
  }
}
