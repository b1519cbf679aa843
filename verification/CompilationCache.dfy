/**
 The compilation cache: two read-only files per key, the artifact and the manifest that binds it.
 Used by one process at a time it is a finite map in which the first bytes stored for a key win
 until the key is pruned. CacheRuns lets writers, readers and crashes overlap.
 */
module CompilationCache {
  import opened Outcomes
  import opened Texts
  import opened Sorting
  import Utf8

  type Bytes = seq<Utf8.Byte>

  const MAXIMUM_ARTIFACT_BYTES := 2097152
  const MAXIMUM_ENTRIES := 256

  /** The hashes an entry is bound to: source, compiler runtime, SDK artifact, worker package, protocol. */
  datatype Bindings = Bindings(source: Text, compiler: Text, sdk: Text, worker: Text, policy: Text)

  datatype Manifest = Manifest(key: Text, artifactHash: Text, artifactLength: nat, bindings: Bindings)

  datatype File<T> = File(content: T, readOnly: bool, written: int)

  datatype CacheError = ArtifactTooLarge | Incomplete | Mutable | BindingInvalid | ArtifactInvalid

  datatype Lookup = Miss | Hit(assembly: Bytes)

  predicate IsStorable(assembly: Bytes) { 1 <= |assembly| <= MAXIMUM_ARTIFACT_BYTES }

  function ManifestFor(sha: Bytes -> Text, key: Text, b: Bindings, assembly: Bytes): Manifest {
    Manifest(key, sha(assembly), |assembly|, b)
  }

  /** The checks of TryRead on the content of the two files. */
  function Check(sha: Bytes -> Text, key: Text, b: Bindings, manifest: File<Manifest>,
      artifact: File<Bytes>): Result<Lookup, CacheError>
  {
    var m := manifest.content;
    if !manifest.readOnly then Err(Mutable)
    else if m.key != key || m.bindings != b || !(1 <= m.artifactLength <= MAXIMUM_ARTIFACT_BYTES)
      then Err(BindingInvalid)
    else if !IsStorable(artifact.content) || !artifact.readOnly then Err(Mutable)
    else if |artifact.content| != m.artifactLength || sha(artifact.content) != m.artifactHash then Err(ArtifactInvalid)
    else Ok(Hit(artifact.content))
  }

  function TryReadFiles(sha: Bytes -> Text, key: Text, b: Bindings, artifact: Option<File<Bytes>>,
      manifest: Option<File<Manifest>>)
      : Result<Lookup, CacheError>
  {
    if artifact.None? && manifest.None? then Ok(Miss)
    else if artifact.None? || manifest.None? then Err(Incomplete)
    else Check(sha, key, b, manifest.value, artifact.value)
  }

  // ---- The abstract cache ----

  datatype Entry = Entry(assembly: Bytes, bindings: Bindings, written: int)

  type Entries = map<Text, Entry>

  /** When each manifest was written. */
  type Dates = map<Text, int>

  /** Newer manifests first, ties by file name. */
  predicate Precedes(dates: Dates, a: Text, b: Text)
    requires a in dates && b in dates
  {
    dates[a] > dates[b] || (dates[a] == dates[b] && TextLe(a, b))
  }

  ghost function Ahead(dates: Dates, key: Text): set<Text>
    requires key in dates
  {
    set other | other in dates && other != key && Precedes(dates, other, key)
  }

  function DatesOf(entries: Entries): Dates {
    map key | key in entries :: entries[key].written
  }

  /** Exactly the newest entries, as many as the cache may hold. */
  ghost function Newest(entries: Entries): Entries {
    map key | key in entries && |Ahead(DatesOf(entries), key)| < MAXIMUM_ENTRIES :: entries[key]
  }

  /** The first bytes stored for a key win; the newest entries stay. */
  ghost function Stored(entries: Entries, key: Text, b: Bindings, assembly: Bytes, now: int): Entries {
    Newest(if key in entries then entries else entries[key := Entry(assembly, b, now)])
  }

  ghost function Found(entries: Entries, key: Text, b: Bindings): Result<Lookup, CacheError> {
    if key !in entries then Ok(Miss)
    else if entries[key].bindings != b then Err(BindingInvalid)
    else Ok(Hit(entries[key].assembly))
  }

  // ---- Ranks in the pruning order ----

  function NewestFirst(dates: Dates): (Text, Text) -> bool {
    (a: Text, b: Text) =>
      if a in dates && b in dates then Precedes(dates, a, b)
      else a in dates || (b !in dates && TextLe(a, b))
  }

  lemma PrecedesTotal(dates: Dates, a: Text, b: Text)
    requires a in dates && b in dates
    ensures Precedes(dates, a, b) || Precedes(dates, b, a)
    ensures Precedes(dates, a, b) && Precedes(dates, b, a) ==> a == b
  {
    TextLeTotal(a, b);
    if TextLe(a, b) && TextLe(b, a) { TextLeAntisymmetric(a, b); }
  }

  lemma NewestFirstPreorder(dates: Dates)
    ensures TotalPreorder(NewestFirst(dates))
  {
    var le := NewestFirst(dates);
    forall a, b ensures le(a, b) || le(b, a) { TextLeTotal(a, b); }
    forall a, b, c | le(a, b) && le(b, c) ensures le(a, c) {
      if TextLe(a, b) && TextLe(b, c) { TextLeTransitive(a, b, c); }
    }
  }

  ghost predicate Lists(names: seq<Text>, dates: Dates) {
    Distinct(names) && forall key :: key in names <==> key in dates
  }

  /** In the sorted listing, the entries ahead of a key are those listed before it. */
  lemma RankIsPosition(names: seq<Text>, dates: Dates, i: nat)
    requires Lists(names, dates) && SortedBy(names, NewestFirst(dates)) && i < |names|
    ensures names[i] in dates && |Ahead(dates, names[i])| == i
  {
    var before := set key | key in names[..i];
    forall key ensures key in Ahead(dates, names[i]) <==> key in before {
      if key in dates && key != names[i] {
        var j :| 0 <= j < |names| && names[j] == key;
        PrecedesTotal(dates, key, names[i]);
        if j < i {
          assert NewestFirst(dates)(names[j], names[i]);
          assert names[..i][j] == key;
        } else {
          assert NewestFirst(dates)(names[i], names[j]);
          assert key !in names[..i];
        }
      }
    }
    assert Ahead(dates, names[i]) == before;
    DistinctSize(names[..i]);
  }

  lemma SortedListing(names: seq<Text>, dates: Dates)
    requires Lists(names, dates)
    ensures var sorted := Sort(names, NewestFirst(dates)); Lists(sorted, dates) && SortedBy(sorted, NewestFirst(dates))
  {
    var sorted := Sort(names, NewestFirst(dates));
    NewestFirstPreorder(dates);
    SortSorted(names, NewestFirst(dates));
    SameMembers(names, sorted);
    DistinctMultiset(names, sorted);
  }

  /** A prune drops every listed entry past the limit and keeps the newest ones. */
  ghost function Without(entries: Entries, names: seq<Text>): Entries {
    map key | key in entries && key !in names :: entries[key]
  }

  lemma PrefixIsNewest(names: seq<Text>, entries: Entries)
    requires Lists(names, DatesOf(entries)) && SortedBy(names, NewestFirst(DatesOf(entries)))
    ensures Newest(entries) == Without(entries, names[if |names| < MAXIMUM_ENTRIES then |names| else MAXIMUM_ENTRIES..])
  {
    var n := if |names| < MAXIMUM_ENTRIES then |names| else MAXIMUM_ENTRIES;
    forall key | key in entries ensures |Ahead(DatesOf(entries), key)| < MAXIMUM_ENTRIES <==> key !in names[n..] {
      assert key in DatesOf(entries);
      assert key in names;
      var i :| 0 <= i < |names| && names[i] == key;
      RankIsPosition(names, DatesOf(entries), i);
      if i >= n { assert names[n..][i - n] == key; }
    }
  }

  // ---- What the map guarantees ----

  /** Two files hit if and only if both are read-only, the manifest is of this key and these bindings, and it gives the
      hash and the length of the artifact, which has 1 to 2097152 bytes. */
  lemma CheckExactly(sha: Bytes -> Text, key: Text, b: Bindings, manifest: File<Manifest>, artifact: File<Bytes>)
    ensures Check(sha, key, b, manifest, artifact) == Ok(Hit(artifact.content)) <==>
      && manifest.readOnly && artifact.readOnly && manifest.content.key == key && manifest.content.bindings == b
      && manifest.content.artifactLength == |artifact.content| && 0 < |artifact.content| && |artifact.content| < 2097153
      && manifest.content.artifactHash == sha(artifact.content)
    ensures Check(sha, key, b, manifest, artifact).Ok? ==>
      Check(sha, key, b, manifest, artifact) == Ok(Hit(artifact.content))
  {
  }

  /** A prune drops no entry that is newer than one it keeps; of equally old ones it keeps those first in name order. */
  lemma NewestIsByDate(entries: Entries, a: Text, b: Text)
    requires a in Newest(entries) && b in entries && b !in Newest(entries)
    ensures entries[a].written > entries[b].written || (entries[a].written == entries[b].written && TextLe(a, b))
  {
    hide Precedes, TextLe;
    var dates := DatesOf(entries);
    var ahead, behind := Ahead(dates, a), Ahead(dates, b);
    PrecedesTotal(dates, a, b);
    if !Precedes(dates, a, b) {
      NewestFirstPreorder(dates);
      forall key | key in behind ensures key in ahead {
        PrecedesTransitive(dates, key, b, a);
      }
      assert b in ahead && b !in behind;
      ProperSubsetSize(behind, ahead, b);
    }
    PrecedesByDate(dates, a, b);
  }

  lemma PrecedesByDate(dates: Dates, a: Text, b: Text)
    requires a in dates && b in dates && Precedes(dates, a, b)
    ensures dates[a] > dates[b] || (dates[a] == dates[b] && TextLe(a, b))
  {
  }

  lemma PrecedesTransitive(dates: Dates, a: Text, b: Text, c: Text)
    requires a in dates && b in dates && c in dates && Precedes(dates, a, b) && Precedes(dates, b, c)
    ensures Precedes(dates, a, c)
  {
    if TextLe(a, b) && TextLe(b, c) { TextLeTransitive(a, b, c); }
  }

  /** A storable artifact of a new key that is newer than all others is found after its own store, however
      full the cache. */
  lemma LatestIsFound(entries: Entries, key: Text, b: Bindings, assembly: Bytes, now: int)
    requires key !in entries && forall other :: other in entries ==> entries[other].written < now
    ensures Found(Stored(entries, key, b, assembly, now), key, b) == Ok(Hit(assembly))
  {
    var all := entries[key := Entry(assembly, b, now)];
    assert Ahead(DatesOf(all), key) == {};
  }

  /** A cache within its limit loses nothing to a prune. */
  lemma NewestOfFew(entries: Entries)
    requires |entries| <= MAXIMUM_ENTRIES
    ensures Newest(entries) == entries
  {
    forall key | key in entries ensures |Ahead(DatesOf(entries), key)| < MAXIMUM_ENTRIES {
      ProperSubsetSize(Ahead(DatesOf(entries), key), entries.Keys, key);
    }
  }

  lemma ProperSubsetSize(a: set<Text>, b: set<Text>, x: Text)
    requires a <= b && x in b && x !in a
    ensures |a| < |b|
  {
    var rest := b - a;
    assert x in rest;
    assert b == a + rest;
  }

  lemma DistinctParts(names: seq<Text>, n: nat)
    requires Distinct(names) && n <= |names|
    ensures forall key :: key in names[..n] ==> key !in names[n..]
  {
    forall key | key in names[..n] ensures key !in names[n..] {
      var i :| 0 <= i < n && names[i] == key;
      assert forall j :: n <= j < |names| ==> names[j] != names[i];
    }
  }

  lemma NewestKeys(names: seq<Text>, entries: Entries, n: nat)
    requires Lists(names, DatesOf(entries)) && SortedBy(names, NewestFirst(DatesOf(entries)))
    requires n == if |names| < MAXIMUM_ENTRIES then |names| else MAXIMUM_ENTRIES
    ensures Newest(entries).Keys == set key | key in names[..n]
  {
    hide Newest, Ahead, NewestFirst;
    PrefixIsNewest(names, entries);
    DistinctParts(names, n);
    assert names == names[..n] + names[n..];
    forall key ensures key in Newest(entries) <==> key in names[..n] {
      assert key in entries <==> key in names;
    }
  }

  /** A prune keeps as many entries as it may, each with its artifact unchanged. */
  lemma NewestSize(names: seq<Text>, entries: Entries)
    requires Lists(names, DatesOf(entries))
    ensures |Newest(entries)| == if |entries| < MAXIMUM_ENTRIES then |entries| else MAXIMUM_ENTRIES
    ensures forall key :: key in Newest(entries) ==> key in entries && Newest(entries)[key] == entries[key]
  {
    hide Ahead, NewestFirst, Sort;
    var sorted := Sort(names, NewestFirst(DatesOf(entries)));
    SortedListing(names, DatesOf(entries));
    var n := if |sorted| < MAXIMUM_ENTRIES then |sorted| else MAXIMUM_ENTRIES;
    NewestKeys(sorted, entries, n);
    DistinctSize(sorted);
    DistinctSize(sorted[..n]);
    assert (set key | key in sorted) == entries.Keys by {
      forall key ensures key in sorted <==> key in entries { assert key in DatesOf(entries) <==> key in entries; }
    }
    assert |Newest(entries)| == |Newest(entries).Keys| && |entries| == |entries.Keys|;
  }

  /** Storing again never replaces bytes, and finding a key returns the first bytes stored for it. */
  lemma FirstBytesWin(entries: Entries, key: Text, b: Bindings, assembly: Bytes, now: int, other: Text)
    ensures var after := Stored(entries, key, b, assembly, now);
      && (other in entries && other in after ==> after[other] == entries[other])
      && (other in after && other !in entries ==> other == key && after[other] == Entry(assembly, b, now))
      && (key in entries && |entries| <= MAXIMUM_ENTRIES ==> after == entries)
      && (key in after && after[key].bindings == b ==>
            Found(after, key, b) == Ok(Hit(if key in entries then entries[key].assembly else assembly)))
  {
    if |entries| <= MAXIMUM_ENTRIES { NewestOfFew(entries); }
  }

  datatype Storing = Storing(key: Text, bindings: Bindings, assembly: Bytes, now: int)

  /** The cache after a run of stores, each pruning behind itself. */
  ghost function After(entries: Entries, run: seq<Storing>): Entries {
    if run == [] then entries
    else
      var last := run[|run| - 1];
      Stored(After(entries, run[..|run| - 1]), last.key, last.bindings, last.assembly, last.now)
  }

  /** However many stores of any keys follow, a key keeps its first bytes for as long as it is not pruned. */
  lemma {:induction false} FirstBytesStay(entries: Entries, run: seq<Storing>, key: Text)
    requires forall n :: 0 <= n <= |run| ==> key in After(entries, run[..n])
    ensures key in entries && key in After(entries, run) && After(entries, run)[key] == entries[key]
  {
    hide Stored;
    assert run[..|run|] == run && run[..0] == [];
    if run != [] {
      var before, last := run[..|run| - 1], run[|run| - 1];
      forall n | 0 <= n <= |before| ensures key in After(entries, before[..n]) {
        assert before[..n] == run[..n];
      }
      FirstBytesStay(entries, before, key);
      FirstBytesWin(After(entries, before), last.key, last.bindings, last.assembly, last.now, key);
    }
  }

  // ---- Files and the entries they stand for ----

  type Artifacts = map<Text, File<Bytes>>

  type Manifests = map<Text, File<Manifest>>

  /** Both files are read-only and belong together. */
  ghost predicate Fits(sha: Bytes -> Text, key: Text, artifact: File<Bytes>, manifest: File<Manifest>) {
    && artifact.readOnly && manifest.readOnly && IsStorable(artifact.content) && manifest.content.key == key
    && manifest.content.artifactHash == sha(artifact.content) && manifest.content.artifactLength == |artifact.content|
  }

  ghost predicate FilesFit(sha: Bytes -> Text, artifacts: Artifacts, manifests: Manifests) {
    artifacts.Keys == manifests.Keys && forall key :: key in manifests ==>
      Fits(sha, key, artifacts[key], manifests[key])
  }

  ghost function ContentsOf(artifacts: Artifacts, manifests: Manifests): Entries {
    map key | key in manifests && key in artifacts ::
      Entry(artifacts[key].content, manifests[key].content.bindings, manifests[key].written)
  }

  lemma DatesOfContents(sha: Bytes -> Text, artifacts: Artifacts, manifests: Manifests)
    requires FilesFit(sha, artifacts, manifests)
    ensures (map key | key in manifests :: manifests[key].written) == DatesOf(ContentsOf(artifacts, manifests))
  {
    hide Fits;
  }

  lemma NothingGone(entries: Entries)
    ensures Without(entries, []) == entries
  {
  }

  lemma RemoveEntry(sha: Bytes -> Text, artifacts: Artifacts, manifests: Manifests, was: Entries, gone: seq<Text>,
      key: Text)
    requires FilesFit(sha, artifacts, manifests) && ContentsOf(artifacts, manifests) == Without(was, gone)
    ensures FilesFit(sha, artifacts - {key}, manifests - {key})
    ensures ContentsOf(artifacts - {key}, manifests - {key}) == Without(was, gone + [key])
  {
    hide Fits;
    var a, m := artifacts - {key}, manifests - {key};
    assert forall k :: k in ContentsOf(artifacts, manifests) <==> k in manifests;
  }

  lemma AddEntry(sha: Bytes -> Text, artifacts: Artifacts, manifests: Manifests, key: Text, artifact: File<Bytes>,
      manifest: File<Manifest>)
    requires FilesFit(sha, artifacts, manifests) && Fits(sha, key, artifact, manifest)
    ensures FilesFit(sha, artifacts[key := artifact], manifests[key := manifest])
    ensures ContentsOf(artifacts[key := artifact], manifests[key := manifest])
         == ContentsOf(artifacts, manifests)[key :=
           Entry(artifact.content, manifest.content.bindings, manifest.written)]
  {
    hide Fits;
  }

  lemma FitsReads(sha: Bytes -> Text, key: Text, b: Bindings, artifact: File<Bytes>, manifest: File<Manifest>)
    requires Fits(sha, key, artifact, manifest)
    ensures Check(sha, key, b, manifest, artifact)
         == if manifest.content.bindings != b then Err(BindingInvalid) else Ok(Hit(artifact.content))
  {
  }

  // ---- The cache as its methods change it ----

  class Cache {
    var artifacts: Artifacts
    var manifests: Manifests
    const sha: Bytes -> Text

    ghost predicate Valid()
      reads this
    {
      FilesFit(sha, artifacts, manifests)
    }

    ghost function Contents(): Entries
      reads this
    {
      ContentsOf(artifacts, manifests)
    }

    constructor (sha: Bytes -> Text)
      ensures Valid() && Contents() == map[] && this.sha == sha
    {
      artifacts, manifests := map[], map[];
      this.sha := sha;
    }

    method TryRead(key: Text, b: Bindings) returns (r: Result<Lookup, CacheError>)
      requires Valid()
      ensures r == Found(Contents(), key, b)
    {
      if key !in artifacts && key !in manifests { return Ok(Miss); }
      if key !in artifacts || key !in manifests { return Err(Incomplete); }
      FitsReads(sha, key, b, artifacts[key], manifests[key]);
      r := Check(sha, key, b, manifests[key], artifacts[key]);
    }

    /** Deletes the manifests past the newest 256 of the listing, each with its artifact. */
    method Prune(listing: seq<Text>)
      requires Valid() && Lists(listing, DatesOf(Contents()))
      modifies this
      ensures Valid() && Contents() == Newest(old(Contents()))
    {
      hide Fits, Newest, NewestFirst, Sort, Without, FilesFit;
      ghost var was := Contents();
      var dates: Dates := map key | key in manifests :: manifests[key].written;
      DatesOfContents(sha, artifacts, manifests);
      var names := Sort(listing, NewestFirst(dates));
      SortedListing(listing, dates);
      PrefixIsNewest(names, was);
      var i := if |names| < MAXIMUM_ENTRIES then |names| else MAXIMUM_ENTRIES;
      ghost var from := i;
      NothingGone(was);
      assert names[from..from] == [];
      while i < |names|
        invariant from <= i <= |names|
        invariant FilesFit(sha, artifacts, manifests)
          && ContentsOf(artifacts, manifests) == Without(was, names[from..i])
      {
        assert names[from..i + 1] == names[from..i] + [names[i]];
        RemoveEntry(sha, artifacts, manifests, was, names[from..i], names[i]);
        manifests := manifests - {names[i]};
        artifacts := artifacts - {names[i]};
        i := i + 1;
      }
      assert names[from..i] == names[from..];
    }

    /** Publishes the artifact and its manifest unless the key has them, prunes, and reads the key back. */
    method Store(key: Text, b: Bindings, assembly: Bytes, now: int, listing: seq<Text>)
        returns (r: Result<Lookup, CacheError>)
      requires Valid()
      requires Lists(listing, if key in Contents() then DatesOf(Contents()) else DatesOf(Contents())[key := now])
      modifies this
      ensures Valid()
      ensures !IsStorable(assembly) ==> r == Err(ArtifactTooLarge) && Contents() == old(Contents())
      ensures IsStorable(assembly) ==>
        Contents() == Stored(old(Contents()), key, b, assembly, now) && r == Found(Contents(), key, b)
    {
      hide Newest, FilesFit;
      if !IsStorable(assembly) { return Err(ArtifactTooLarge); }
      ghost var was := Contents();
      KeysOfContents(sha, artifacts, manifests);
      Publish(key, b, assembly, now);
      assert DatesOf(Contents()) == if key in was then DatesOf(was) else DatesOf(was)[key := now];
      Prune(listing);
      r := TryRead(key, b);
    }

    /** Moves both files into place without overwriting, then marks them read-only. */
    method Publish(key: Text, b: Bindings, assembly: Bytes, now: int)
      requires Valid() && IsStorable(assembly)
      modifies this
      ensures Valid()
      ensures Contents() == if key in old(Contents()) then old(Contents())
        else old(Contents())[key := Entry(assembly, b, now)]
    {
      hide FilesFit, ContentsOf;
      ghost var a, m := artifacts, manifests;
      KeyFits(sha, a, m, key);
      var manifest := ManifestFor(sha, key, b, assembly);
      if key !in artifacts { artifacts := artifacts[key := File(assembly, false, now)]; }
      if key !in manifests { manifests := manifests[key := File(manifest, false, now)]; }
      artifacts := artifacts[key := artifacts[key].(readOnly := true)];
      manifests := manifests[key := manifests[key].(readOnly := true)];
      AddEntry(sha, a, m, key, artifacts[key], manifests[key]);
      assert artifacts == a[key := artifacts[key]] && manifests == m[key := manifests[key]];
      assert key in ContentsOf(a, m) ==>
        ContentsOf(a, m)[key := Entry(artifacts[key].content, manifests[key].content.bindings, manifests[key].written)]
          == ContentsOf(a, m);
    }
  }

  lemma KeyFits(sha: Bytes -> Text, artifacts: Artifacts, manifests: Manifests, key: Text)
    requires FilesFit(sha, artifacts, manifests)
    ensures key in artifacts <==> key in manifests
    ensures key in artifacts <==> key in ContentsOf(artifacts, manifests)
    ensures key in artifacts ==>
      Fits(sha, key, artifacts[key], manifests[key]) &&
      ContentsOf(artifacts, manifests)[key] ==
        Entry(artifacts[key].content, manifests[key].content.bindings, manifests[key].written)
  {
  }

  lemma KeysOfContents(sha: Bytes -> Text, artifacts: Artifacts, manifests: Manifests)
    requires FilesFit(sha, artifacts, manifests)
    ensures ContentsOf(artifacts, manifests).Keys == manifests.Keys
  {
  }
}
