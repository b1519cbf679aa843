/**
 The shared cache of runtime images: pruning by age, count and bytes, and leasing. Everything here runs
 under the pool's gate; PoolRuns interleaves it with lease disposal and crashes, which take no gate.
 */
module RuntimeImagePool {
  import opened Outcomes
  import opened Texts
  import opened Sorting
  import RuntimeWorkspace

  const MAXIMUM_BYTES := 2147483648
  const STAGING_BYTES := 268435456
  const MINIMUM_FREE_BYTES := 1073741824
  const MAXIMUM_ENTRIES := 8
  /** Seven days in 100 ns ticks. Times are ticks since 1601, which a missing file reports as its own. */
  const SEVEN_DAYS := 6048000000000

  /** One identity-named directory of the pool: when its manifest was last written, the bytes of its files, the content
      of its files with their names (nothing only if there are none), whether it is pinned, and its `.leases` directory
      with the marker files in it. */
  datatype Image = Image(manifest: Option<int>, bytes: nat, content: Text, pinned: bool, hasLeases: bool,
      markers: set<nat>)

  /** A directory with nothing in it, not even an empty `.leases`; only such a directory can be removed as it is. */
  const EMPTY_ENTRY := Image(None, 0, [], false, false, {})

  type Images = map<Text, Image>

  datatype PoolError =
    | ByteBudget | CountBudget | ReferencesInvalid | ImageChanged | NoHeadroom | StagingFailed | EntryNotEmpty

  function LastWrite(image: Image): int {
    if image.manifest.Some? then image.manifest.value else 0
  }

  /** `open` are the markers that cannot be reopened, held open by a process or refused for access rights; only such
      markers keep an image. */
  predicate IsLeased(image: Image, open: set<nat>) { image.markers * open != {} }

  predicate IsProtected(image: Image, open: set<nat>) { IsLeased(image, open) || image.pinned }

  predicate IsExpired(image: Image, now: int) { now - LastWrite(image) > SEVEN_DAYS }

  function KeepEntries(reserve: bool): nat { if reserve then MAXIMUM_ENTRIES - 1 else MAXIMUM_ENTRIES }

  function KeepBytes(reserve: bool): nat { if reserve then MAXIMUM_BYTES - STAGING_BYTES else MAXIMUM_BYTES }

  /** The eviction test, given how many images and bytes were kept before this one. */
  predicate Evicts(image: Image, open: set<nat>, now: int, reserve: bool, retained: nat, retainedBytes: nat) {
    !IsProtected(image, open) &&
    (IsExpired(image, now) || retained >= KeepEntries(reserve) || retainedBytes + image.bytes > KeepBytes(reserve))
  }

  function NewerFirst(images: Images): (Text, Text) -> bool {
    (a: Text, b: Text) =>
      LastWrite(if a in images then images[a] else EMPTY_ENTRY)
        >= LastWrite(if b in images then images[b] else EMPTY_ENTRY)
  }

  /** `order` lists every entry once, as a directory enumeration does. */
  ghost predicate Enumerates(order: seq<Text>, images: Images) {
    Distinct(order) && forall name :: name in order <==> name in images
  }

  function Sweep(image: Image, open: set<nat>): Image { image.(markers := image.markers * open) }

  // ---- The specification of a prune ----

  datatype Pruned = Pruned(kept: seq<Text>, bytes: nat)

  function Prune(images: Images, open: set<nat>, names: seq<Text>, now: int, reserve: bool, retained: nat,
      retainedBytes: nat): Pruned
    requires forall name :: name in names ==> name in images
  {
    if names == [] then Pruned([], retainedBytes)
    else
      var image := images[names[0]];
      if Evicts(image, open, now, reserve, retained, retainedBytes) then
        Prune(images, open, names[1..], now, reserve, retained, retainedBytes)
      else
        var rest := Prune(images, open, names[1..], now, reserve, retained + 1, retainedBytes + image.bytes);
        Pruned([names[0]] + rest.kept, rest.bytes)
  }

  function TotalBytes(images: Images, names: seq<Text>): nat
    requires forall name :: name in names ==> name in images
  {
    if names == [] then 0 else images[names[0]].bytes + TotalBytes(images, names[1..])
  }

  /** The entries a prune leaves, with the markers nobody holds gone. */
  function Remaining(images: Images, open: set<nat>, kept: seq<Text>): Images
    requires forall name :: name in kept ==> name in images
  {
    map name | name in kept :: Sweep(images[name], open)
  }

  // ---- Properties of a prune ----

  lemma {:induction false} PruneKeeps(images: Images, open: set<nat>, names: seq<Text>, now: int, reserve: bool,
      retained: nat, retainedBytes: nat)
    requires Distinct(names) && forall name :: name in names ==> name in images
    ensures var r := Prune(images, open, names, now, reserve, retained, retainedBytes);
      && Distinct(r.kept) && |r.kept| <= |names| && (forall name :: name in r.kept ==> name in names)
      && r.bytes == retainedBytes + TotalBytes(images, r.kept)
      && (forall name :: name in names && IsProtected(images[name], open) ==> name in r.kept)
  {
    if names != [] {
      var image := images[names[0]];
      assert forall name :: name in names[1..] ==> name in names;
      if Evicts(image, open, now, reserve, retained, retainedBytes) {
        PruneKeeps(images, open, names[1..], now, reserve, retained, retainedBytes);
      } else {
        PruneKeeps(images, open, names[1..], now, reserve, retained + 1, retainedBytes + image.bytes);
        var rest := Prune(images, open, names[1..], now, reserve, retained + 1, retainedBytes + image.bytes);
        assert names[0] !in names[1..] by { DistinctHead(names); }
      }
    }
  }

  lemma DistinctHead<T>(s: seq<T>)
    requires Distinct(s) && s != []
    ensures s[0] !in s[1..] && Distinct(s[1..])
  {
    forall i | 0 <= i < |s| - 1 ensures s[1..][i] != s[0] { assert s[1..][i] == s[i + 1]; }
  }

  /** Only a protected image can take a prune past its entry or byte target. */
  lemma {:induction false} PruneWithinTargets(images: Images, open: set<nat>, names: seq<Text>, now: int, reserve: bool,
      retained: nat, retainedBytes: nat)
    requires forall name :: name in names ==> name in images
    ensures var r := Prune(images, open, names, now, reserve, retained, retainedBytes);
      (forall name :: name in r.kept ==> name in names) &&
      (r.kept != [] && (forall name :: name in r.kept ==> !IsProtected(images[name], open)) ==>
        r.bytes <= KeepBytes(reserve) && retained + |r.kept| <= KeepEntries(reserve) &&
        forall name :: name in r.kept ==> !IsExpired(images[name], now))
  {
    if names != [] {
      var image := images[names[0]];
      if Evicts(image, open, now, reserve, retained, retainedBytes) {
        PruneWithinTargets(images, open, names[1..], now, reserve, retained, retainedBytes);
      } else {
        PruneWithinTargets(images, open, names[1..], now, reserve, retained + 1, retainedBytes + image.bytes);
        var rest := Prune(images, open, names[1..], now, reserve, retained + 1, retainedBytes + image.bytes);
        var r := Prune(images, open, names, now, reserve, retained, retainedBytes);
        assert forall name :: name in rest.kept ==> name in r.kept;
        assert names[0] in r.kept;
        if rest.kept == [] {
          PruneOfNone(images, open, names[1..], now, reserve, retained + 1, retainedBytes + image.bytes);
        }
      }
    }
  }

  lemma {:induction false} PruneOfNone(images: Images, open: set<nat>, names: seq<Text>, now: int, reserve: bool,
      retained: nat, retainedBytes: nat)
    requires forall name :: name in names ==> name in images
    requires Prune(images, open, names, now, reserve, retained, retainedBytes).kept == []
    ensures Prune(images, open, names, now, reserve, retained, retainedBytes).bytes == retainedBytes
  {
    if names != [] { PruneOfNone(images, open, names[1..], now, reserve, retained, retainedBytes); }
  }

  /** The old images and one newly staged image stay within two gibibytes when nothing kept is protected. */
  lemma ReservedBytesSuffice(images: Images, open: set<nat>, names: seq<Text>, now: int, staged: int)
    requires Distinct(names) && (forall name :: name in names ==> name in images) && staged <= STAGING_BYTES
    requires var kept := Prune(images, open, names, now, true, 0, 0).kept;
      forall name :: name in kept && name in images ==> !IsProtected(images[name], open)
    ensures var r := Prune(images, open, names, now, true, 0, 0);
      (forall name :: name in r.kept ==> name in images) &&
      TotalBytes(images, r.kept) + staged <= MAXIMUM_BYTES && |r.kept| + 1 <= MAXIMUM_ENTRIES
  {
    PruneKeeps(images, open, names, now, true, 0, 0);
    PruneWithinTargets(images, open, names, now, true, 0, 0);
  }

  /** The i-th entry is kept when all entries before it are. */
  predicate KeptAt(images: Images, open: set<nat>, names: seq<Text>, now: int, reserve: bool, retained: nat,
      retainedBytes: nat, i: nat)
    requires i < |names| && forall name :: name in names ==> name in images
  {
    !Evicts(images[names[i]], open, now, reserve, retained + i, retainedBytes + TotalBytes(images, names[..i]))
  }

  lemma KeptAtShift(images: Images, open: set<nat>, names: seq<Text>, now: int, reserve: bool, retained: nat,
      retainedBytes: nat, i: nat)
    requires i < |names| - 1 && forall name :: name in names ==> name in images
    ensures KeptAt(images, open, names, now, reserve, retained, retainedBytes, i + 1) <==>
      KeptAt(images, open, names[1..], now, reserve, retained + 1, retainedBytes + images[names[0]].bytes, i)
  {
    hide Evicts;
    assert names[..i + 1][1..] == names[1..][..i] && names[1..][i] == names[i + 1];
  }

  /** Everything is kept exactly when every entry is kept in its place. */
  lemma {:induction false} PruneKeepsAll(images: Images, open: set<nat>, names: seq<Text>, now: int, reserve: bool,
      retained: nat, retainedBytes: nat)
    requires Distinct(names) && forall name :: name in names ==> name in images
    ensures |Prune(images, open, names, now, reserve, retained, retainedBytes).kept| == |names| <==>
      forall i :: 0 <= i < |names| ==> KeptAt(images, open, names, now, reserve, retained, retainedBytes, i)
  {
    hide Evicts;
    if names != [] {
      var image := images[names[0]];
      var tail, more, bytes := names[1..], retained + 1, retainedBytes + image.bytes;
      assert names[..0] == [];
      PruneKeeps(images, open, tail, now, reserve, retained, retainedBytes);
      assert KeptAt(images, open, names, now, reserve, retained, retainedBytes, 0)
        <==> !Evicts(image, open, now, reserve, retained, retainedBytes);
      PruneKeepsAll(images, open, tail, now, reserve, more, bytes);
      hide KeptAt;
      forall i | 0 <= i < |tail|
        ensures KeptAt(images, open, tail, now, reserve, more, bytes, i)
          <==> KeptAt(images, open, names, now, reserve, retained, retainedBytes, i + 1)
      {
        KeptAtShift(images, open, names, now, reserve, retained, retainedBytes, i);
      }
      if forall i :: 0 <= i < |tail| ==> KeptAt(images, open, tail, now, reserve, more, bytes, i) {
        forall i | 1 <= i < |names| ensures KeptAt(images, open, names, now, reserve, retained, retainedBytes, i) {
          assert KeptAt(images, open, tail, now, reserve, more, bytes, i - 1);
        }
      }
    }
  }

  /** Fresh, and within the byte target together with everything newer. */
  predicate FitsReserve(images: Images, names: seq<Text>, now: int, i: nat)
    requires i < |names| && forall name :: name in names ==> name in images
  {
    !IsExpired(images[names[i]], now) && TotalBytes(images, names[..i + 1]) <= KeepBytes(true)
  }

  lemma KeptInReserve(images: Images, open: set<nat>, names: seq<Text>, now: int, i: nat)
    requires i < |names| && forall name :: name in names ==> name in images
    ensures KeptAt(images, open, names, now, true, 0, 0, i) <==>
      IsProtected(images[names[i]], open) || (i < 7 && FitsReserve(images, names, now, i))
  {
    hide IsProtected, IsExpired;
    TotalBytesSnoc(images, names, i);
  }

  /** After a reserving prune of a pool of at most eight images, no slot is free exactly when there were
      eight, the least recently used of them is protected, and each of the others is protected or is
      fresh and fits the byte target together with everything newer. */
  lemma CountRefusalExact(images: Images, open: set<nat>, names: seq<Text>, now: int)
    requires Distinct(names) && (forall name :: name in names ==> name in images) && |names| <= MAXIMUM_ENTRIES
    ensures |Prune(images, open, names, now, true, 0, 0).kept| >= MAXIMUM_ENTRIES <==>
      (|names| == MAXIMUM_ENTRIES && IsProtected(images[names[7]], open) &&
       forall i :: 0 <= i < 7 ==> IsProtected(images[names[i]], open) || FitsReserve(images, names, now, i))
  {
    hide KeptAt, IsProtected, FitsReserve, Prune;
    PruneKeeps(images, open, names, now, true, 0, 0);
    PruneKeepsAll(images, open, names, now, true, 0, 0);
    forall i | 0 <= i < |names|
      ensures KeptAt(images, open, names, now, true, 0, 0, i) <==>
        IsProtected(images[names[i]], open) || (i < 7 && FitsReserve(images, names, now, i))
    {
      KeptInReserve(images, open, names, now, i);
    }
    if |names| == MAXIMUM_ENTRIES {
      if forall i :: 0 <= i < |names| ==> KeptAt(images, open, names, now, true, 0, 0, i) {
        assert KeptAt(images, open, names, now, true, 0, 0, 7);
        forall i | 0 <= i < 7 ensures IsProtected(images[names[i]], open) || FitsReserve(images, names, now, i) {
          assert KeptAt(images, open, names, now, true, 0, 0, i);
        }
      }
    }
  }

  lemma {:induction false} TotalBytesSnoc(images: Images, names: seq<Text>, i: nat)
    requires i < |names| && forall name :: name in names ==> name in images
    ensures TotalBytes(images, names[..i + 1]) == TotalBytes(images, names[..i]) + images[names[i]].bytes
  {
    if i == 0 {
      assert names[..1][1..] == [] && names[..0] == [];
    } else {
      assert names[..i + 1][1..] == names[1..][..i] && names[..i][1..] == names[1..][..i - 1];
      TotalBytesSnoc(images, names[1..], i - 1);
    }
  }

  function FreshImage(pinned: bool, written: int): Image { Image(Some(written), 1, [], pinned, false, {}) }

  /** Seven fresh unprotected images and one older pinned one: the reserving prune frees no slot, although
      seven of the eight could have been evicted. */
  lemma ReserveCanFail()
    ensures
      var names: seq<Text> := seq(8, i requires 0 <= i < 8 => [i]);
      var images: Images := map name | name in names :: FreshImage(name[0] == 7, 100 - name[0]);
      Enumerates(names, images) && SortedBy(names, NewerFirst(images)) &&
      |Prune(images, {}, names, 100, true, 0, 0).kept| == MAXIMUM_ENTRIES &&
      forall i :: 0 <= i < 7 ==> !IsProtected(images[names[i]], {})
  {
    hide Prune, TotalBytes;
    var names: seq<Text> := seq(8, i requires 0 <= i < 8 => [i]);
    var images: Images := map name | name in names :: FreshImage(name[0] == 7, 100 - name[0]);
    forall i | 0 <= i < 8 ensures names[i] in images && images[names[i]] == FreshImage(i == 7, 100 - i) {
      assert names[i] in names && names[i][0] == i;
    }
    forall i, j | 0 <= i < j < 8 ensures names[i] != names[j] && NewerFirst(images)(names[i], names[j]) {
      assert names[i][0] == i && names[j][0] == j;
    }
    forall i: nat | i <= 7 ensures TotalBytes(images, names[..i]) == i { OneByteEach(images, names, i); }
    CountRefusalExact(images, {}, names, 100);
    PruneKeeps(images, {}, names, 100, true, 0, 0);
  }

  lemma {:induction false} OneByteEach(images: Images, names: seq<Text>, i: nat)
    requires i <= |names| && forall name :: name in names ==> name in images && images[name].bytes == 1
    ensures TotalBytes(images, names[..i]) == i
  {
    if i > 0 {
      TotalBytesSnoc(images, names, i - 1);
      OneByteEach(images, names, i - 1);
    }
  }

  lemma NewerFirstPreorder(images: Images)
    ensures TotalPreorder(NewerFirst(images))
  {
  }

  lemma SortedEnumeration(order: seq<Text>, images: Images)
    requires Enumerates(order, images)
    ensures var names := Sort(order, NewerFirst(images));
      Enumerates(names, images) && SortedBy(names, NewerFirst(images))
  {
    var names := Sort(order, NewerFirst(images));
    NewerFirstPreorder(images);
    SortSorted(order, NewerFirst(images));
    SameMembers(order, names);
    DistinctMultiset(order, names);
  }

  lemma {:induction false} EnumerationSize(order: seq<Text>, images: Images)
    requires Enumerates(order, images)
    ensures |images| == |order|
    decreases |order|
  {
    if order == [] {
      assert images == map[];
    } else {
      DistinctHead(order);
      var fewer := images - {order[0]};
      assert images.Keys == fewer.Keys + {order[0]};
      forall name ensures name in order[1..] <==> name in fewer {
        if name in images { assert name in order; }
      }
      EnumerationSize(order[1..], fewer);
    }
  }

  // ---- Acquire after its prune ----

  function PruneOf(images: Images, open: set<nat>, order: seq<Text>, now: int, reserve: bool): (r: Pruned)
    requires Enumerates(order, images)
    ensures forall name :: name in r.kept ==> name in images
  {
    SortedEnumeration(order, images);
    PruneKeeps(images, open, Sort(order, NewerFirst(images)), now, reserve, 0, 0);
    Prune(images, open, Sort(order, NewerFirst(images)), now, reserve, 0, 0)
  }

  /** The names before the i-th that a prune kept. */
  ghost function KeptBefore(names: seq<Text>, kept: seq<Text>, i: nat): seq<Text>
    requires i <= |names|
  {
    Filter(names[..i], (name: Text) => name in kept)
  }

  lemma FilterIgnores(names: seq<Text>, x: Text, kept: seq<Text>)
    requires x !in names
    ensures Filter(names, (name: Text) => name in [x] + kept) == Filter(names, (name: Text) => name in kept)
  {
    if names != [] { FilterIgnores(names[1..], x, kept); }
  }

  lemma KeptAreListed(names: seq<Text>, kept: seq<Text>, i: nat, images: Images)
    requires i <= |names| && forall name :: name in names ==> name in images
    ensures forall name :: name in KeptBefore(names, kept, i) ==> name in images
  {
    FilterMembers(names[..i], (name: Text) => name in kept);
  }

  /** The i-th entry survives: it is leased, or pinned, or written within seven days and within the target of entries
      and bytes together with what was kept before it. */
  ghost predicate Survives(images: Images, open: set<nat>, names: seq<Text>, kept: seq<Text>, now: int, reserve: bool,
      i: nat, retained: nat, retainedBytes: nat)
    requires i < |names| && forall name :: name in names ==> name in images
  {
    KeptAreListed(names, kept, i, images);
    var image, before := images[names[i]], KeptBefore(names, kept, i);
    || (exists marker :: marker in image.markers && marker in open)
    || image.pinned
    || (&& now - (if image.manifest.Some? then image.manifest.value else 0) <= 6048000000000
        && retained + |before| < (if reserve then 7 else 8)
        && retainedBytes + TotalBytes(images, before) + image.bytes <= if reserve then 1879048192 else 2147483648)
  }

  lemma SurvivesIs(image: Image, open: set<nat>, now: int, reserve: bool, retained: nat, retainedBytes: nat)
    ensures !Evicts(image, open, now, reserve, retained, retainedBytes) <==>
      || (exists marker :: marker in image.markers && marker in open)
      || image.pinned
      || (&& now - (if image.manifest.Some? then image.manifest.value else 0) <= 6048000000000
          && retained < (if reserve then 7 else 8)
          && retainedBytes + image.bytes <= if reserve then 1879048192 else 2147483648)
  {
    if IsLeased(image, open) { var marker :| marker in image.markers * open; }
    if marker :| marker in image.markers && marker in open { assert marker in image.markers * open; }
  }

  lemma FirstSurvives(images: Images, open: set<nat>, names: seq<Text>, kept: seq<Text>, now: int, reserve: bool,
      retained: nat, retainedBytes: nat)
    requires names != [] && forall name :: name in names ==> name in images
    ensures Survives(images, open, names, kept, now, reserve, 0, retained, retainedBytes)
         == !Evicts(images[names[0]], open, now, reserve, retained, retainedBytes)
  {
    hide Evicts;
    assert names[..0] == [];
    SurvivesIs(images[names[0]], open, now, reserve, retained, retainedBytes);
  }

  lemma PruneFirst(images: Images, open: set<nat>, names: seq<Text>, now: int, reserve: bool, retained: nat,
      retainedBytes: nat)
    returns (first: seq<Text>, rest: nat, restBytes: nat)
    requires names != [] && forall name :: name in names ==> name in images
    ensures first == if Evicts(images[names[0]], open, now, reserve, retained, retainedBytes) then [] else [names[0]]
    ensures rest == retained + |first| && restBytes == retainedBytes + if first == [] then 0 else images[names[0]].bytes
    ensures Prune(images, open, names, now, reserve, retained, retainedBytes).kept
         == first + Prune(images, open, names[1..], now, reserve, rest, restBytes).kept
  {
    hide Evicts;
    var evicted := Evicts(images[names[0]], open, now, reserve, retained, retainedBytes);
    first := if evicted then [] else [names[0]];
    rest, restBytes := retained + |first|, retainedBytes + if evicted then 0 else images[names[0]].bytes;
  }

  lemma {:induction false} PruneKeepsSurvivors(images: Images, open: set<nat>, names: seq<Text>, now: int,
      reserve: bool, retained: nat, retainedBytes: nat, i: nat)
    requires Distinct(names) && (forall name :: name in names ==> name in images) && i < |names|
    ensures var kept := Prune(images, open, names, now, reserve, retained, retainedBytes).kept;
      names[i] in kept <==> Survives(images, open, names, kept, now, reserve, i, retained, retainedBytes)
  {
    hide Evicts, Survives, Prune;
    DistinctHead(names);
    var kept := Prune(images, open, names, now, reserve, retained, retainedBytes).kept;
    var first, rest, restBytes := PruneFirst(images, open, names, now, reserve, retained, retainedBytes);
    var later := Prune(images, open, names[1..], now, reserve, rest, restBytes).kept;
    PruneKeeps(images, open, names[1..], now, reserve, rest, restBytes);
    assert names[0] !in later;
    if i == 0 {
      FirstSurvives(images, open, names, kept, now, reserve, retained, retainedBytes);
    } else {
      PruneKeepsSurvivors(images, open, names[1..], now, reserve, rest, restBytes, i - 1);
      SurvivesLater(images, open, names, later, now, reserve, i, retained, retainedBytes, first == []);
      assert names[i] == names[1..][i - 1] && names[i] != names[0];
    }
  }

  /** What was kept before an entry, when the first one is looked at apart. */
  lemma SurvivesLater(images: Images, open: set<nat>, names: seq<Text>, later: seq<Text>, now: int, reserve: bool,
      i: nat, retained: nat, retainedBytes: nat, evicted: bool)
    requires Distinct(names) && (forall name :: name in names ==> name in images) && 0 < i < |names|
    requires names[0] !in later
    ensures var kept := (if evicted then [] else [names[0]]) + later;
      Survives(images, open, names, kept, now, reserve, i, retained, retainedBytes) <==>
        Survives(images, open, names[1..], later, now, reserve, i - 1, if evicted then retained else retained + 1,
                 if evicted then retainedBytes else retainedBytes + images[names[0]].bytes)
  {
    var kept := (if evicted then [] else [names[0]]) + later;
    var front, tail := names[..i], names[1..][..i - 1];
    DistinctHead(names);
    assert front == [names[0]] + tail && front[1..] == tail;
    assert names[0] !in tail;
    assert [] + later == later;
    FilterIgnores(tail, names[0], later);
    KeptAreListed(names, kept, i, images);
    KeptAreListed(names[1..], later, i - 1, images);
  }

  /** A prune lists the entries by the dates of their manifests, newest first, and keeps exactly the survivors. */
  lemma PruneExactly(images: Images, open: set<nat>, order: seq<Text>, now: int, reserve: bool)
      returns (names: seq<Text>)
    requires Enumerates(order, images)
    ensures Enumerates(names, images)
    ensures forall i, j :: 0 <= i < j < |names| ==>
      (if images[names[i]].manifest.Some? then images[names[i]].manifest.value else 0)
        >= if images[names[j]].manifest.Some? then images[names[j]].manifest.value else 0
    ensures var kept := PruneOf(images, open, order, now, reserve).kept;
      forall i :: 0 <= i < |names| ==>
        (names[i] in kept <==> Survives(images, open, names, kept, now, reserve, i, 0, 0))
  {
    names := Sort(order, NewerFirst(images));
    SortedEnumeration(order, images);
    hide Prune, Sort, Survives;
    forall i, j | 0 <= i < j < |names|
      ensures (if images[names[i]].manifest.Some? then images[names[i]].manifest.value else 0)
        >= if images[names[j]].manifest.Some? then images[names[j]].manifest.value else 0
    {
      assert NewerFirst(images)(names[i], names[j]) && names[i] in names && names[j] in names;
    }
    var kept := PruneOf(images, open, order, now, reserve).kept;
    forall i | 0 <= i < |names|
      ensures names[i] in kept <==> Survives(images, open, names, kept, now, reserve, i, 0, 0)
    {
      PruneKeepsSurvivors(images, open, names, now, reserve, 0, 0, i);
    }
  }

  /** What is left of a kept entry: everything but the markers that could be reopened. */
  lemma RemainingExactly(images: Images, open: set<nat>, kept: seq<Text>, name: Text)
    requires forall other :: other in kept ==> other in images
    ensures name in Remaining(images, open, kept) <==> name in kept
    ensures name in kept ==>
      var was, left := images[name], Remaining(images, open, kept)[name];
      && left == was.(markers := left.markers)
      && forall marker :: marker in left.markers <==> marker in was.markers && marker in open
  {
  }

  /** A package copied into a staging directory: the lengths of its files, what they hold, and the length
      of its manifest. */
  datatype Package = Package(lengths: seq<int>, content: Text, manifestBytes: nat)

  function PackageBytes(p: Package): nat
    requires RuntimeWorkspace.WithinBounds(p.lengths)
  {
    RuntimeWorkspace.SumIsNatural(p.lengths);
    RuntimeWorkspace.Sum(p.lengths) + p.manifestBytes
  }

  /** What the foreign calls of one Acquire report: the references match their hashes, the image on disk verifies, the
      free disk space, the staged package with the right identity, and clock readings. */
  datatype Observed = Observed(referencesValid: bool, intact: bool, freeBytes: nat, staged: Option<Package>,
      published: int, touched: int)

  /** Staging got through: a package was copied, and its files are within the bounds. */
  predicate IsStaged(o: Observed) { o.staged.Some? && RuntimeWorkspace.WithinBounds(o.staged.value.lengths) }

  function StagedImage(o: Observed): Image
    requires IsStaged(o)
  {
    Image(Some(o.published), PackageBytes(o.staged.value), o.staged.value.content, false, false, {})
  }

  datatype Attempt = Attempt(images: Images, outcome: Result<(), PoolError>)

  function Admit(images: Images, identity: Text, o: Observed, lease: nat): Attempt {
    if !o.referencesValid then Attempt(images, Err(ReferencesInvalid))
    else if identity !in images && |images| >= MAXIMUM_ENTRIES then Attempt(images, Err(CountBudget))
    else
      var entry := if identity in images then images[identity] else EMPTY_ENTRY;
      var entered := images[identity := entry];
      if entry.manifest.None? && o.freeBytes < MINIMUM_FREE_BYTES + STAGING_BYTES then Attempt(entered, Err(NoHeadroom))
      else if entry.manifest.None? && !IsStaged(o) then Attempt(entered, Err(StagingFailed))
      else if entry.manifest.None? && entry != EMPTY_ENTRY then Attempt(entered, Err(EntryNotEmpty))
      else
        var image := if entry.manifest.Some? then entry else StagedImage(o);
        if !o.intact then Attempt(entered[identity := image], Err(ImageChanged))
        else Attempt(entered[identity :=
          image.(manifest := Some(o.touched), hasLeases := true, markers := image.markers + {lease})], Ok(()))
  }

  lemma UpdateTwice(images: Images, name: Text, first: Image, second: Image)
    ensures images[name := first][name := second] == images[name := second]
  {
  }

  /** An attempt changes at most the entry of its identity, and makes one only while there is room. */
  lemma AdmitShape(images: Images, identity: Text, o: Observed, lease: nat)
    ensures var after := Admit(images, identity, o, lease).images;
      after == images ||
      (identity in after && after == images[identity := after[identity]]
        && (identity in images || |images| < MAXIMUM_ENTRIES))
  {
    var after := Admit(images, identity, o, lease).images;
    var entry := if identity in images then images[identity] else EMPTY_ENTRY;
    if identity in after { UpdateTwice(images, identity, entry, after[identity]); }
  }

  lemma UpdateSize(images: Images, name: Text, image: Image)
    ensures name in images ==> |images[name := image]| == |images| && images[name := image].Keys == images.Keys
    ensures name !in images ==> |images[name := image]| == |images| + 1
    ensures name in images ==> |images - {name}| == |images| - 1
    ensures |images - {name}| <= |images|
  {
    var after := images[name := image];
    assert after.Keys == images.Keys + {name};
    assert |after| == |after.Keys| && |images| == |images.Keys|;
    var without := images - {name};
    assert without.Keys == images.Keys - {name} && |without| == |without.Keys|;
  }

  /** A lease protects a published image, touches nothing else, and the pool stays within eight entries. */
  lemma AdmitLeases(images: Images, open: set<nat>, identity: Text, o: Observed, lease: nat)
    requires |images| <= MAXIMUM_ENTRIES
    ensures
      var a := Admit(images, identity, o, lease);
      && |a.images| <= MAXIMUM_ENTRIES
      && (forall name :: name in images ==> name in a.images && (name != identity ==> a.images[name] == images[name]))
      && (forall name :: name in a.images ==> name in images || name == identity)
      && (a.outcome.Ok? ==>
            identity in a.images && a.images[identity].manifest.Some? &&
            IsLeased(a.images[identity], open + {lease}) && lease in a.images[identity].markers)
  {
    var a := Admit(images, identity, o, lease);
    if a.outcome.Ok? { assert lease in a.images[identity].markers * (open + {lease}); }
    hide Admit;
    AdmitShape(images, identity, o, lease);
    if a.images != images { UpdateSize(images, identity, a.images[identity]); }
  }

  /** A directory with no files, no pin and no lease directory. */
  predicate IsVacant(image: Image) {
    image.manifest.None? && image.bytes == 0 && image.content == [] && !image.pinned && !image.hasLeases
      && image.markers == {}
  }

  /** An attempt succeeds if and only if the references are valid, the image on disk verifies, there is an entry or a
      slot, and the image is published already or can be staged: nothing is in its place, a gibibyte and 256 mebibytes
      are free, and the package has at most 256 files of at most 256 mebibytes. */
  lemma AdmitExactly(images: Images, identity: Text, o: Observed, lease: nat)
    ensures Admit(images, identity, o, lease).outcome.Ok? <==>
      && o.referencesValid && o.intact && (identity in images || |images| < 8)
      && ((identity in images && images[identity].manifest.Some?) ||
            (&& (identity in images ==> IsVacant(images[identity]))
             && o.freeBytes >= 1342177280 && o.staged.Some? && |o.staged.value.lengths| <= 256
             && RuntimeWorkspace.Sum(o.staged.value.lengths) <= 268435456
             && forall i :: 0 <= i < |o.staged.value.lengths| ==> 0 <= o.staged.value.lengths[i] <= 268435456))
  {
  }

  /** A success dates the manifest with this acquire's reading of the clock and adds this lease to the markers; the pin,
      and the files of an image that was published before, are as they were. */
  lemma AdmitTouches(images: Images, identity: Text, o: Observed, lease: nat)
    requires Admit(images, identity, o, lease).outcome.Ok?
    ensures var after := Admit(images, identity, o, lease).images;
      && identity in after && after[identity].manifest == Some(o.touched) && after[identity].hasLeases
      && (if identity in images && images[identity].manifest.Some? then
            && after[identity].markers == images[identity].markers + {lease}
            && after[identity].bytes == images[identity].bytes && after[identity].content == images[identity].content
            && after[identity].pinned == images[identity].pinned
          else after[identity].markers == {lease} && !after[identity].pinned)
  {
  }

  /** A failure leases nothing, and changes nothing but a vacant entry of its identity, which it may make or fill. */
  lemma AdmitRefuses(images: Images, identity: Text, o: Observed, lease: nat)
    requires Admit(images, identity, o, lease).outcome.Err?
    ensures var after := Admit(images, identity, o, lease).images;
      && (forall name :: name in images ==> name in after && (after[name] == images[name] || IsVacant(images[name])))
      && (forall name :: name in after && name !in images ==> name == identity)
      && (forall name :: name in after && (name in images ==> after[name] != images[name]) ==>
            name == identity && after[name].markers == {} && !after[name].pinned && !after[name].hasLeases)
  {
  }

  /** A successful attempt stages exactly the images that were not published. */
  lemma AdmitStages(images: Images, identity: Text, o: Observed, lease: nat)
    requires Admit(images, identity, o, lease).outcome.Ok?
    ensures var after := Admit(images, identity, o, lease).images;
      && identity in after
      && (forall name :: name in images && name != identity ==> name in after && after[name] == images[name])
      && (if identity in images && images[identity].manifest.Some? then after[identity].bytes == images[identity].bytes
          else
            && IsStaged(o) && after[identity].bytes == PackageBytes(o.staged.value)
            && after[identity].content == o.staged.value.content)
  {
  }

  /** After a successful acquire whose prune kept nothing protected, the entries and the files of a package staged for
      it are within two gibibytes. The manifests of the staged package and of the touched entry come on top. */
  lemma AcquiredBytes(images: Images, open: set<nat>, order: seq<Text>, now: int, identity: Text, o: Observed,
      lease: nat)
    requires Enumerates(order, images)
    requires var kept := PruneOf(images, open, order, now, true).kept;
      Admit(Remaining(images, open, kept), identity, o, lease).outcome.Ok? &&
      forall name :: name in kept && name in images ==> !IsProtected(images[name], open)
    ensures var kept := PruneOf(images, open, order, now, true).kept;
      var remaining := Remaining(images, open, kept);
      var a := Admit(remaining, identity, o, lease);
      var isNew := !(identity in remaining && remaining[identity].manifest.Some?);
      && (forall name :: name in kept ==> name in images)
      && (isNew ==>
            && IsStaged(o) && a.images[identity].bytes == PackageBytes(o.staged.value)
            && a.images[identity].content == o.staged.value.content)
      && (forall name :: name in remaining && name != identity ==> a.images[name].bytes == images[name].bytes)
      && TotalBytes(images, kept) + (if isNew then RuntimeWorkspace.Sum(o.staged.value.lengths) else 0) <= MAXIMUM_BYTES
  {
    hide Prune, IsProtected, Sort, TotalBytes;
    var names := Sort(order, NewerFirst(images));
    SortedEnumeration(order, images);
    var kept := PruneOf(images, open, order, now, true).kept;
    if IsStaged(o) { RuntimeWorkspace.SumIsNatural(o.staged.value.lengths); }
    AdmitStages(Remaining(images, open, kept), identity, o, lease);
    hide Admit;
    ReservedBytesSuffice(images, open, names, now, if IsStaged(o) then RuntimeWorkspace.Sum(o.staged.value.lengths)
      else 0);
  }

  lemma RemainingSize(images: Images, open: set<nat>, kept: seq<Text>)
    requires Distinct(kept) && forall name :: name in kept ==> name in images
    ensures |Remaining(images, open, kept)| == |kept|
  {
    EnumerationSize(kept, Remaining(images, open, kept));
  }

  /** A new identity is refused for lack of a slot exactly when all eight images survive the reserving
      prune; the least recently used one is then leased or pinned. */
  lemma CountRefusal(images: Images, open: set<nat>, order: seq<Text>, now: int, identity: Text, o: Observed,
      lease: nat)
    requires Enumerates(order, images) && |images| <= MAXIMUM_ENTRIES && identity !in images && o.referencesValid
    ensures
      var kept := PruneOf(images, open, order, now, true).kept;
      var names := Sort(order, NewerFirst(images));
      && (Admit(Remaining(images, open, kept), identity, o, lease).outcome == Err(CountBudget) <==>
            |images| == MAXIMUM_ENTRIES && Remaining(images, open, kept).Keys == images.Keys)
      && (Admit(Remaining(images, open, kept), identity, o, lease).outcome == Err(CountBudget) ==>
            |names| == 8 && names[7] in images && IsProtected(images[names[7]], open) &&
            forall name :: name in images ==> LastWrite(images[names[7]]) <= LastWrite(images[name]))
  {
    hide Prune, IsProtected, FitsReserve, Sort;
    var names := Sort(order, NewerFirst(images));
    SortedEnumeration(order, images);
    EnumerationSize(order, images);
    var kept := PruneOf(images, open, order, now, true).kept;
    PruneKeeps(images, open, names, now, true, 0, 0);
    RemainingSize(images, open, kept);
    CountRefusalExact(images, open, names, now);
    assert Remaining(images, open, kept).Keys <= images.Keys;
    if |kept| == |images| {
      SubsetOfSize(Remaining(images, open, kept).Keys, images.Keys);
    }
    if |names| == 8 {
      forall name | name in images ensures NewerFirst(images)(name, names[7]) {
        var i :| 0 <= i < |names| && names[i] == name;
        if i < 7 { assert NewerFirst(images)(names[i], names[7]); }
      }
    }
  }

  lemma {:induction false} SubsetOfSize<T>(a: set<T>, b: set<T>)
    requires a <= b && |a| == |b|
    ensures a == b
  {
    assert b == a + (b - a);
    assert |b - a| == 0;
  }

  // ---- The state of a prune between two entries ----

  /** The entries kept so far, swept, and those not yet looked at. */
  ghost function Midway(was: Images, open: set<nat>, names: seq<Text>, kept: seq<Text>, i: nat): Images
    requires i <= |names|
  {
    map name | name in was && (name in kept || name !in names[..i]) ::
      if name in kept then Sweep(was[name], open) else was[name]
  }

  /** What was kept of the first i names, together with a prune of the others, is the prune of all. */
  ghost predicate KeptSoFar(was: Images, open: set<nat>, names: seq<Text>, now: int, reserve: bool, kept: seq<Text>,
      bytes: nat, i: nat)
  {
    && i <= |names| && (forall name :: name in names ==> name in was)
      && (forall name :: name in kept ==> name in names[..i])
    && var rest := Prune(was, open, names[i..], now, reserve, |kept|, bytes);
       Prune(was, open, names, now, reserve, 0, 0) == Pruned(kept + rest.kept, rest.bytes)
  }

  lemma MidwayStart(was: Images, open: set<nat>, names: seq<Text>)
    ensures Midway(was, open, names, [], 0) == was
  {
  }

  lemma MidwayNext(was: Images, open: set<nat>, names: seq<Text>, kept: seq<Text>, i: nat)
    requires Distinct(names) && i < |names| && names[i] in was && names[i] !in kept
    ensures
      var now, name := Midway(was, open, names, kept, i), names[i];
      && name in now && now[name] == was[name]
      && Midway(was, open, names, kept + [name], i + 1) == now[name := Sweep(was[name], open)]
      && Midway(was, open, names, kept, i + 1) == now[name := Sweep(was[name], open)] - {name}
  {
    assert names[..i + 1] == names[..i] + [names[i]];
    assert names[i] !in names[..i];
  }

  lemma KeptStart(was: Images, open: set<nat>, names: seq<Text>, now: int, reserve: bool)
    requires Enumerates(names, was)
    ensures KeptSoFar(was, open, names, now, reserve, [], 0, 0)
  {
    assert names[0..] == names;
    var all := Prune(was, open, names, now, reserve, 0, 0);
    assert [] + all.kept == all.kept;
  }

  lemma KeptEnd(was: Images, open: set<nat>, names: seq<Text>, now: int, reserve: bool, kept: seq<Text>, bytes: nat)
    requires Enumerates(names, was) && KeptSoFar(was, open, names, now, reserve, kept, bytes, |names|)
    ensures Prune(was, open, names, now, reserve, 0, 0) == Pruned(kept, bytes)
    ensures forall name :: name in kept ==> name in was
  {
    assert names[|names|..] == [];
    assert kept + [] == kept;
  }

  lemma MidwayEnd(was: Images, open: set<nat>, names: seq<Text>, kept: seq<Text>)
    requires Enumerates(names, was) && forall name :: name in kept ==> name in was
    ensures Midway(was, open, names, kept, |names|) == Remaining(was, open, kept)
  {
    assert names[..|names|] == names;
  }

  lemma KeptNext(was: Images, open: set<nat>, names: seq<Text>, now: int, reserve: bool, kept: seq<Text>, bytes: nat,
      i: nat)
    requires Distinct(names) && i < |names| && KeptSoFar(was, open, names, now, reserve, kept, bytes, i)
    ensures names[i] in was && names[i] !in kept
    ensures var image := was[names[i]];
      if Evicts(image, open, now, reserve, |kept|, bytes)
        then KeptSoFar(was, open, names, now, reserve, kept, bytes, i + 1)
      else KeptSoFar(was, open, names, now, reserve, kept + [names[i]], bytes + image.bytes, i + 1)
  {
    hide Evicts;
    var rest := names[i..];
    assert rest[0] == names[i] && rest[1..] == names[i + 1..];
    assert names[..i + 1] == names[..i] + [names[i]];
    if !Evicts(was[names[i]], open, now, reserve, |kept|, bytes) {
      var tail := Prune(was, open, names[i + 1..], now, reserve, |kept| + 1, bytes + was[names[i]].bytes);
      assert kept + ([names[i]] + tail.kept) == (kept + [names[i]]) + tail.kept;
    }
  }

  // ---- The pool as its methods change it ----

  class Pool {
    var images: Images
    /** Lease files held open by some process. */
    var open: set<nat>
    /** Lease files that cannot be opened for lack of access rights. */
    var refused: set<nat>
    /** Abandoned or current staging directories. */
    var staging: set<Text>

    constructor ()
      ensures images == map[] && open == {} && refused == {} && staging == {}
    {
      images, open, refused, staging := map[], {}, {}, {};
    }

    /** The markers that cannot be reopened. */
    function Stuck(): set<nat>
      reads `open, `refused
    {
      open + refused
    }

    /** Deletes every marker of an entry that can be reopened, and reports whether one could not. */
    method SweepLeases(name: Text) returns (active: bool)
      requires name in images
      modifies `images
      ensures images == old(images)[name := Sweep(old(images)[name], Stuck())]
      ensures active == IsLeased(old(images)[name], Stuck())
    {
      active := false;
      var todo := images[name].markers;
      assert todo + todo * Stuck() == todo && todo - todo == {};
      assert images[name := images[name]] == images;
      while todo != {}
        invariant todo <= old(images)[name].markers
        invariant images == old(images)[name :=
          old(images)[name].(markers := todo + old(images)[name].markers * Stuck())]
        invariant active <==> (old(images)[name].markers - todo) * Stuck() != {}
        decreases todo
      {
        var marker :| marker in todo;
        todo := todo - {marker};
        if marker in Stuck() {
          active := true;
          assert marker in (old(images)[name].markers - todo) * Stuck();
          assert images[name].markers == todo + old(images)[name].markers * Stuck();
        } else {
          images := images[name := images[name].(markers := images[name].markers - {marker})];
          assert images[name].markers == todo + old(images)[name].markers * Stuck();
          assert (old(images)[name].markers - todo) * Stuck() ==
            (old(images)[name].markers - (todo + {marker})) * Stuck();
        }
      }
      assert {} + old(images)[name].markers * Stuck() == old(images)[name].markers * Stuck();
      assert old(images)[name].markers - {} == old(images)[name].markers;
    }

    /** Keeps the newest images within the count and byte targets, and every leased or pinned one. */
    method PruneLocked(order: seq<Text>, now: int, reserve: bool) returns (r: Result<nat, PoolError>)
      requires Enumerates(order, images)
      modifies `images, `staging
      ensures
        var pruned := PruneOf(old(images), Stuck(), order, now, reserve);
        && images == Remaining(old(images), Stuck(), pruned.kept)
        && r == (if pruned.bytes > MAXIMUM_BYTES then Err(ByteBudget) else Ok(pruned.bytes))
        && staging == (if r.Err? then old(staging) else {})
    {
      hide Prune, KeptSoFar, Midway, Remaining, Sort, NewerFirst, IsLeased;
      var names := Sort(order, NewerFirst(images));
      SortedEnumeration(order, images);
      var retained: nat, retainedBytes: nat := 0, 0;
      ghost var kept: seq<Text> := [];
      ghost var was := images;
      MidwayStart(was, Stuck(), names);
      KeptStart(was, Stuck(), names, now, reserve);
      var i := 0;
      while i < |names|
        invariant 0 <= i <= |names| && retained == |kept| && staging == old(staging)
        invariant images == Midway(was, Stuck(), names, kept, i)
        invariant KeptSoFar(was, Stuck(), names, now, reserve, kept, retainedBytes, i)
      {
        var name := names[i];
        KeptNext(was, Stuck(), names, now, reserve, kept, retainedBytes, i);
        MidwayNext(was, Stuck(), names, kept, i);
        var active := SweepLeases(name);
        var image := images[name];
        if !active && !image.pinned &&
           (IsExpired(image, now) || retained >= KeepEntries(reserve)
             || retainedBytes + image.bytes > KeepBytes(reserve))
        {
          images := images - {name};
        } else {
          retained, retainedBytes := retained + 1, retainedBytes + image.bytes;
          kept := kept + [name];
        }
        i := i + 1;
      }
      KeptEnd(was, Stuck(), names, now, reserve, kept, retainedBytes);
      MidwayEnd(was, Stuck(), names, kept);
      if retainedBytes > MAXIMUM_BYTES {
        r := Err(ByteBudget);
      } else {
        staging := {};
        r := Ok(retainedBytes);
      }
    }

    /** Opens the image or stages it, and takes a lease on it: Acquire after its prune. */
    method OpenOrStage(identity: Text, o: Observed, lease: nat, temporary: Text) returns (r: Result<(), PoolError>)
      requires lease !in open && temporary !in staging
      modifies this
      ensures
        var a := Admit(old(images), identity, o, lease);
        r == a.outcome && images == a.images && staging == old(staging) && refused == old(refused) &&
        open == (if r.Ok? then old(open) + {lease} else old(open))
    {
      if !o.referencesValid { return Err(ReferencesInvalid); }
      if identity !in images && |images| >= MAXIMUM_ENTRIES { return Err(CountBudget); }
      if identity !in images { images := images[identity := EMPTY_ENTRY]; }
      if images[identity].manifest.Some? {
        if !o.intact {
          assert images == images[identity := images[identity]];
          return Err(ImageChanged);
        }
      } else {
        if o.freeBytes < MINIMUM_FREE_BYTES + STAGING_BYTES { return Err(NoHeadroom); }
        r := Stage(identity, o, temporary);
        if r.Err? { return; }
      }
      open := open + {lease};
      images := images[identity :=
        images[identity].(manifest := Some(o.touched), hasLeases := true,
        markers := images[identity].markers + {lease})];
      r := Ok(());
    }

    /** Stages into a temporary directory, removes the empty entry and moves the staged image into its place. */
    method Stage(identity: Text, o: Observed, temporary: Text) returns (r: Result<(), PoolError>)
      requires identity in images && images[identity].manifest.None? && temporary !in staging
      modifies `images, `staging
      ensures staging == old(staging)
      ensures r == (if !IsStaged(o) then Err(StagingFailed) else if old(images)[identity] != EMPTY_ENTRY
        then Err(EntryNotEmpty)
                    else if !o.intact then Err(ImageChanged) else Ok(()))
      ensures images == (if !IsStaged(o) || old(images)[identity] != EMPTY_ENTRY then old(images)
                         else old(images)[identity := StagedImage(o)])
    {
      r := Ok(());
      staging := staging + {temporary};
      var bounds := Err(RuntimeWorkspace.ImageTooLarge);
      if o.staged.Some? { bounds := RuntimeWorkspace.ValidateBounds(o.staged.value.lengths); }
      if bounds.Err? {
        r := Err(StagingFailed);
      } else if images[identity] != EMPTY_ENTRY {
        r := Err(EntryNotEmpty);
      } else {
        images := images - {identity};
        images := images[identity := StagedImage(o)];
        if !o.intact { r := Err(ImageChanged); }
      }
      staging := staging - {temporary};
    }

    /** Prunes with one entry and the staging bytes in reserve, then leases the image. */
    method Acquire(order: seq<Text>, now: int, identity: Text, o: Observed, lease: nat, temporary: Text)
        returns (r: Result<(), PoolError>)
      requires Enumerates(order, images) && lease !in open && temporary !in staging
      modifies this
      ensures
        var pruned := PruneOf(old(images), old(Stuck()), order, now, true);
        var remaining := Remaining(old(images), old(Stuck()), pruned.kept);
        if pruned.bytes > MAXIMUM_BYTES then r == Err(ByteBudget) && images == remaining && open == old(open)
        else
          var a := Admit(remaining, identity, o, lease);
          r == a.outcome && images == a.images && staging == {} &&
          open == (if r.Ok? then old(open) + {lease} else old(open))
    {
      var pruned := PruneLocked(order, now, true);
      if pruned.Err? { return Err(pruned.error); }
      r := OpenOrStage(identity, o, lease, temporary);
    }

    /** Closes the lease file, then deletes it if it is still there. */
    method Dispose(identity: Text, lease: nat)
      modifies `images, `open
      ensures open == old(open) - {lease}
      ensures images.Keys == old(images).Keys
      ensures forall name :: name in images ==>
        images[name] == (if name == identity then old(images)[name].(markers := old(images)[name].markers - {lease})
          else old(images)[name])
    {
      open := open - {lease};
      if identity in images {
        images := images[identity := images[identity].(markers := images[identity].markers - {lease})];
      }
    }
  }
}
