/**
  Worker versions: the token each entry gets when the build starts
  (`configResolved`), and the stamping of that token over every
  `%SW_VERSION%` in the emitted worker chunks (`generateBundle`).
 */
module Versions {
  import opened Wrappers
  import opened Text
  import opened Options

  /** The marker worker code carries where its version belongs. */
  const Placeholder: string := "%SW_VERSION%"

  /** What `replaceAll` writes for a `dist` that has no version: `String(undefined)`. */
  const Undefined: string := "undefined"

  type byte = x: int | 0 <= x < 256

  predicate IsLowerHex(s: string)
  {
    forall i :: 0 <= i < |s| ==> '0' <= s[i] <= '9' || 'a' <= s[i] <= 'f'
  }

  function HexDigit(n: int): (c: char)
    requires 0 <= n < 16
    ensures '0' <= c <= '9' || 'a' <= c <= 'f'
  {
    if n < 10 then '0' + n as char else 'a' + (n - 10) as char
  }

  /** A buffer rendered in hex: two lower-case hex digits per byte, high nibble first. */
  function Hex(bytes: seq<byte>): (r: string)
    ensures |r| == 2 * |bytes| && IsLowerHex(r)
  {
    if bytes == [] then []
    else [HexDigit(bytes[0] / 16), HexDigit(bytes[0] % 16)] + Hex(bytes[1..])
  }

  /** The first 2n digits encode the first n bytes. */
  lemma {:induction false} HexPrefix(bytes: seq<byte>, n: nat)
    requires n <= |bytes|
    ensures Hex(bytes)[..2 * n] == Hex(bytes[..n])
  {
    if n > 0 {
      HexPrefix(bytes[1..], n - 1);
      assert bytes[..n] == [bytes[0]] + bytes[1..][..n - 1];
    }
  }

  /**
    The default token, the hex rendering of twenty random bytes cut to its
    first eight digits: eight lower-case hex digits, which encode the first
    four bytes.
   */
  function DefaultToken(bytes: seq<byte>): (r: string)
    requires |bytes| == 20
    ensures |r| == 8 && IsLowerHex(r) && r == Hex(bytes[..4])
  {
    HexPrefix(bytes, 4);
    Hex(bytes)[..8]
  }

  /** The version of one entry: what its `genVersion` resolves to, or the random token. */
  function TokenFor(entry: Entry, bytes: seq<byte>): (r: string)
    requires |bytes| == 20
    ensures entry.genVersion.Some? ==> r == entry.genVersion.value
    ensures entry.genVersion.None? ==> |r| == 8 && IsLowerHex(r) && r == Hex(bytes[..4])
  {
    match entry.genVersion
    case Some(v) => v
    case None => DefaultToken(bytes)
  }

  /**
    A version that can be stamped without trace: non-empty, and sharing no
    character with the placeholder, so no placeholder survives or reappears.
   */
  predicate Clean(version: string)
  {
    version != [] && Disjoint(Placeholder, version)
  }

  lemma DefaultTokenClean(bytes: seq<byte>)
    requires |bytes| == 20
    ensures Clean(DefaultToken(bytes))
  {
    var r := DefaultToken(bytes);
    forall i, j | 0 <= i < |Placeholder| && 0 <= j < |r| ensures Placeholder[i] != r[j] {
      assert Placeholder[i] in "%SW_VERSION%";
    }
  }

  lemma UndefinedClean()
    ensures Clean(Undefined)
  {
  }

  /** The `dist` names of a list of entries. */
  function Dists(entries: seq<Entry>): set<string>
  {
    set i | 0 <= i < |entries| :: entries[i].dist
  }

  lemma DistsLast(entries: seq<Entry>)
    requires entries != []
    ensures Dists(entries) == Dists(entries[..|entries| - 1]) + {entries[|entries| - 1].dist}
  {
    var n := |entries| - 1;
    forall d | d in Dists(entries) ensures d in Dists(entries[..n]) + {entries[n].dist} {
      var i :| 0 <= i < |entries| && entries[i].dist == d;
      if i < n {
        assert entries[..n][i] == entries[i];
      }
    }
  }

  predicate RandomFor(entries: seq<Entry>, random: seq<seq<byte>>)
  {
    |random| == |entries| && forall i :: 0 <= i < |random| ==> |random[i]| == 20
  }

  /** Every `genVersion` an entry has resolves to a clean version. */
  predicate GenVersionsClean(entries: seq<Entry>)
  {
    forall i :: 0 <= i < |entries| && entries[i].genVersion.Some? ==> Clean(entries[i].genVersion.value)
  }

  /**
    The `dist`s of the first n entries whose version is awaited from
    `genVersion` (`awaited`), or drawn from random bytes (`!awaited`).
   */
  function DistsWhere(entries: seq<Entry>, awaited: bool, n: nat): set<string>
    requires n <= |entries|
  {
    set i | 0 <= i < n && entries[i].genVersion.Some? == awaited :: entries[i].dist
  }

  lemma DistsWhereStep(entries: seq<Entry>, awaited: bool, n: nat)
    requires n < |entries|
    ensures DistsWhere(entries, awaited, n + 1) == DistsWhere(entries, awaited, n)
      + (if entries[n].genVersion.Some? == awaited then {entries[n].dist} else {})
  {
    forall d | d in DistsWhere(entries, awaited, n + 1)
      ensures d in DistsWhere(entries, awaited, n) || (entries[n].genVersion.Some? == awaited && d == entries[n].dist)
    {
      var i :| 0 <= i < n + 1 && entries[i].genVersion.Some? == awaited && entries[i].dist == d;
    }
  }

  /** Both kinds of entry together name every `dist`. */
  lemma DistsSplit(entries: seq<Entry>)
    ensures Dists(entries) == DistsWhere(entries, false, |entries|) + DistsWhere(entries, true, |entries|)
  {
    forall d | d in Dists(entries) ensures d in DistsWhere(entries, false, |entries|) + DistsWhere(entries, true, |entries|) {
      var i :| 0 <= i < |entries| && entries[i].dist == d;
      assert d in DistsWhere(entries, entries[i].genVersion.Some?, |entries|);
    }
  }

  /**
    `versions` after the writes of one kind by the first n entries have landed,
    in entry order: with `!awaited` the random tokens, which `entries.map`
    writes before anything is awaited; with `awaited` the `genVersion` results,
    written once awaited.
   */
  function Written(versions: map<string, string>, entries: seq<Entry>, random: seq<seq<byte>>, awaited: bool, n: nat): map<string, string>
    requires RandomFor(entries, random) && n <= |entries|
  {
    if n == 0 then versions
    else
      var before := Written(versions, entries, random, awaited, n - 1);
      if entries[n - 1].genVersion.Some? == awaited
      then before[entries[n - 1].dist := TokenFor(entries[n - 1], random[n - 1])]
      else before
  }

  /** The writes of one kind give each `dist` of that kind a version, and add no other key. */
  lemma {:induction false} WrittenKeys(versions: map<string, string>, entries: seq<Entry>, random: seq<seq<byte>>, awaited: bool, n: nat)
    requires RandomFor(entries, random) && n <= |entries|
    ensures Written(versions, entries, random, awaited, n).Keys == versions.Keys + DistsWhere(entries, awaited, n)
  {
    if n > 0 {
      WrittenKeys(versions, entries, random, awaited, n - 1);
      DistsWhereStep(entries, awaited, n - 1);
    }
  }

  /** The writes of one kind leave the version of every other `dist` as it was. */
  lemma {:induction false} WrittenUntouched(versions: map<string, string>, entries: seq<Entry>, random: seq<seq<byte>>, awaited: bool, n: nat, d: string)
    requires RandomFor(entries, random) && n <= |entries|
    requires d in versions && d !in DistsWhere(entries, awaited, n)
    ensures d in Written(versions, entries, random, awaited, n)
    ensures Written(versions, entries, random, awaited, n)[d] == versions[d]
  {
    if n > 0 {
      DistsWhereStep(entries, awaited, n - 1);
      WrittenUntouched(versions, entries, random, awaited, n - 1, d);
    }
  }

  /**
    `versions` after `configResolved`, `random[i]` being the bytes entry i would
    draw: first every random token, then every `genVersion` result. Every `dist`
    gets a version, and no other key changes.
   */
  function Assigned(versions: map<string, string>, entries: seq<Entry>, random: seq<seq<byte>>): (r: map<string, string>)
    requires RandomFor(entries, random)
    ensures r.Keys == versions.Keys + Dists(entries)
    ensures forall d :: d in versions && d !in Dists(entries) ==> r[d] == versions[d]
  {
    DistsSplit(entries);
    var drawn := Written(versions, entries, random, false, |entries|);
    WrittenKeys(versions, entries, random, false, |entries|);
    WrittenKeys(drawn, entries, random, true, |entries|);
    forall d | d in versions && d !in Dists(entries)
      ensures Written(drawn, entries, random, true, |entries|)[d] == versions[d]
    {
      WrittenUntouched(versions, entries, random, false, |entries|, d);
      WrittenUntouched(drawn, entries, random, true, |entries|, d);
    }
    Written(drawn, entries, random, true, |entries|)
  }

  /**
    Entry j makes the last write to its `dist`: no later entry of its own kind
    names it, and, when j draws a random token, no `genVersion` entry names it.
   */
  predicate LastWrite(entries: seq<Entry>, j: nat)
    requires j < |entries|
  {
    && (forall l :: j < l < |entries| && entries[l].genVersion.Some? == entries[j].genVersion.Some? ==>
          entries[l].dist != entries[j].dist)
    && (entries[j].genVersion.None? ==>
          forall l :: 0 <= l < |entries| && entries[l].genVersion.Some? ==> entries[l].dist != entries[j].dist)
  }

  /** No entry other than j names j's `dist`. */
  predicate Unique(entries: seq<Entry>, j: nat)
    requires j < |entries|
  {
    forall i :: 0 <= i < |entries| && i != j ==> entries[i].dist != entries[j].dist
  }

  /** Among the writes of one kind, the last entry naming a `dist` decides it. */
  lemma {:induction false} WrittenLastWins(versions: map<string, string>, entries: seq<Entry>, random: seq<seq<byte>>, awaited: bool, j: nat, n: nat)
    requires RandomFor(entries, random) && j < n <= |entries| && entries[j].genVersion.Some? == awaited
    requires forall l :: j < l < n && entries[l].genVersion.Some? == awaited ==> entries[l].dist != entries[j].dist
    ensures entries[j].dist in Written(versions, entries, random, awaited, n)
    ensures Written(versions, entries, random, awaited, n)[entries[j].dist] == TokenFor(entries[j], random[j])
  {
    if j < n - 1 {
      WrittenLastWins(versions, entries, random, awaited, j, n - 1);
    }
  }

  /**
    The entry making the last write to a `dist` decides its version; a
    `genVersion` result always beats a random token, whatever the entry order.
   */
  lemma AssignedLastWins(versions: map<string, string>, entries: seq<Entry>, random: seq<seq<byte>>, j: nat)
    requires RandomFor(entries, random) && j < |entries| && LastWrite(entries, j)
    ensures Assigned(versions, entries, random)[entries[j].dist] == TokenFor(entries[j], random[j])
  {
    var drawn := Written(versions, entries, random, false, |entries|);
    if entries[j].genVersion.Some? {
      WrittenLastWins(drawn, entries, random, true, j, |entries|);
    } else {
      WrittenLastWins(versions, entries, random, false, j, |entries|);
      WrittenKeys(versions, entries, random, false, |entries|);
      assert entries[j].dist !in DistsWhere(entries, true, |entries|);
      WrittenUntouched(drawn, entries, random, true, |entries|, entries[j].dist);
    }
  }

  /** Writes of clean versions over clean versions leave every version clean. */
  lemma {:induction false} WrittenClean(versions: map<string, string>, entries: seq<Entry>, random: seq<seq<byte>>, awaited: bool, n: nat)
    requires RandomFor(entries, random) && n <= |entries| && GenVersionsClean(entries)
    requires forall d :: d in versions ==> Clean(versions[d])
    ensures forall d :: d in Written(versions, entries, random, awaited, n) ==>
      Clean(Written(versions, entries, random, awaited, n)[d])
  {
    if n > 0 {
      WrittenClean(versions, entries, random, awaited, n - 1);
      if entries[n - 1].genVersion.None? {
        DefaultTokenClean(random[n - 1]);
      }
    }
  }

  /** Clean `genVersion` results and clean earlier versions leave every lookup clean. */
  lemma AssignedClean(versions: map<string, string>, entries: seq<Entry>, random: seq<seq<byte>>)
    requires RandomFor(entries, random) && GenVersionsClean(entries)
    requires forall d :: d in versions ==> Clean(versions[d])
    ensures forall d :: Clean(VersionOf(Assigned(versions, entries, random), d))
  {
    WrittenClean(versions, entries, random, false, |entries|);
    WrittenClean(Written(versions, entries, random, false, |entries|), entries, random, true, |entries|);
  }

  /** `versions[dist]`, as `replaceAll` turns it into a string. */
  function VersionOf(versions: map<string, string>, dist: string): (r: string)
    ensures dist in versions ==> r == versions[dist]
    ensures dist !in versions ==> r == Undefined
    ensures (forall d :: d in versions ==> Clean(versions[d])) ==> Clean(r)
  {
    if dist in versions then versions[dist] else Undefined
  }

  /**
    The bundle's chunks after `generateBundle` has stamped the entries in
    order: each entry's chunk has its placeholders replaced by its version,
    the keys stay as they are, and the chunks no entry names are untouched.
   */
  function Stamped(chunks: map<string, string>, entries: seq<Entry>, versions: map<string, string>): (r: map<string, string>)
    requires forall i :: 0 <= i < |entries| ==> entries[i].dist in chunks
    ensures r.Keys == chunks.Keys
    ensures forall d :: d in chunks && d !in Dists(entries) ==> r[d] == chunks[d]
    decreases |entries|
  {
    if entries == [] then chunks
    else
      var n := |entries| - 1;
      var before := Stamped(chunks, entries[..n], versions);
      var dist := entries[n].dist;
      DistsLast(entries);
      before[dist := ReplaceAll(before[dist], Placeholder, VersionOf(versions, dist))]
  }

  /**
    An entry's chunk ends up as its original code with every placeholder
    replaced by the entry's version, when no other entry names its `dist`, or,
    however many entries name it, when that version is clean; a clean version
    also leaves no placeholder in the chunk.
   */
  lemma {:induction false} StampedChunk(chunks: map<string, string>, entries: seq<Entry>, versions: map<string, string>, j: nat)
    requires forall i :: 0 <= i < |entries| ==> entries[i].dist in chunks
    requires j < |entries|
    requires Clean(VersionOf(versions, entries[j].dist)) || Unique(entries, j)
    ensures var dist := entries[j].dist;
      Stamped(chunks, entries, versions)[dist] == ReplaceAll(chunks[dist], Placeholder, VersionOf(versions, dist))
    ensures var dist := entries[j].dist;
      Clean(VersionOf(versions, dist)) ==> !Occurs(Stamped(chunks, entries, versions)[dist], Placeholder)
    decreases |entries|
  {
    var n := |entries| - 1;
    var dist := entries[j].dist;
    var version := VersionOf(versions, dist);
    var before := Stamped(chunks, entries[..n], versions);
    if Clean(version) {
      NoOccurrenceLeft(chunks[dist], Placeholder, version);
    }
    if entries[n].dist != dist {
      var front := entries[..n];
      assert front[j] == entries[j];
      if !Clean(version) {
        forall i | 0 <= i < n && i != j ensures front[i].dist != front[j].dist {
          assert front[i] == entries[i];
        }
      }
      StampedChunk(chunks, front, versions, j);
    } else if Clean(version) && dist in Dists(entries[..n]) {
      var i :| 0 <= i < n && entries[..n][i].dist == dist;
      StampedChunk(chunks, entries[..n], versions, i);
      ReplaceAllIdentity(before[dist], Placeholder, version);
    } else if !Clean(version) {
      forall i | 0 <= i < n ensures entries[..n][i].dist != dist {
        assert entries[..n][i] == entries[i];
      }
    }
  }
}
