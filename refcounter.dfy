/**
 * getVolCount: how many mounted volumes of one (portal, target) pair the plugin directory
 * holds.  The plugin directory has one sub-directory per iSCSI interface (iface-<name>);
 * inside each, a volume of target <iqn> reached through <portal> is mounted at a directory
 * named <portal>-<iqn>-lun-<lun>.  Every such name, in every interface directory, counts
 * once: a target reached over several interfaces (multipath) counts once per interface.
 *
 * The file system is a value read once: the listing of the plugin directory, in the order
 * ReadDir returns it, and for each interface directory its own listing.
 */
module RefCounter {
  import opened Wrappers
  import opened Strings
  import Identifiers

  /** The names in a directory, in the order ReadDir returns them, or an I/O error. */
  datatype Listing = Listed(names: seq<string>) | Unreadable

  /** An entry of the plugin directory; only directories have a listing that is consulted. */
  datatype Entry = Entry(name: string, isDir: bool, listing: Listing)

  /** The plugin directory: absent, unreadable, or listed. */
  datatype PluginDir = Missing | RootUnreadable | Root(entries: seq<Entry>)

  datatype CountError =
    | ReadRootFailed               // the plugin directory exists but cannot be read
    | ReadIfaceFailed(name: string) // an interface directory cannot be read

  /** The name of the mount directory of a volume: <portal>-<iqn>-lun-<lun>. */
  function VolumeName(portal: string, iqn: string, lun: string): string
  {
    portal + "-" + iqn + "-lun-" + lun
  }

  /** The part of a mount directory name the glob `<portal>-<iqn>-lun-*` fixes. */
  function VolumePrefix(portal: string, iqn: string): string
  {
    portal + "-" + iqn + "-lun-"
  }

  /** `name` matches `<portal>-<iqn>-lun-*`; the `*` matches any rest of the name. */
  predicate IsVolumeOf(name: string, portal: string, iqn: string)
  {
    HasPrefix(name, VolumePrefix(portal, iqn))
  }

  /** The number of names in a listing that are volumes of (portal, iqn). */
  function Matching(names: seq<string>, portal: string, iqn: string): (n: nat)
    ensures n <= |names|
    ensures n == 0 <==> forall k :: 0 <= k < |names| ==> !IsVolumeOf(names[k], portal, iqn)
    ensures n == |names| <==> forall k :: 0 <= k < |names| ==> IsVolumeOf(names[k], portal, iqn)
  {
    if |names| == 0 then 0
    else
      var init := names[..|names| - 1];
      assert forall k :: 0 <= k < |init| ==> init[k] == names[k];
      Matching(init, portal, iqn) + if IsVolumeOf(names[|names| - 1], portal, iqn) then 1 else 0
  }

  /** An interface directory that cannot be read. */
  predicate Unlisted(e: Entry)
  {
    e.isDir && e.listing.Unreadable?
  }

  /**
   * The count over a prefix of the plugin directory, visited in order: entries that are not
   * directories are skipped, and the first unreadable interface directory ends the count.
   */
  function CountIn(entries: seq<Entry>, portal: string, iqn: string): (r: Result<nat, CountError>)
    ensures r.Err? <==> exists i :: 0 <= i < |entries| && Unlisted(entries[i])
  {
    if |entries| == 0 then Ok(0)
    else
      var init := entries[..|entries| - 1];
      var last := entries[|entries| - 1];
      assert forall i :: 0 <= i < |init| ==> init[i] == entries[i];
      match CountIn(init, portal, iqn)
      case Err(e) => Err(e)
      case Ok(c) =>
        if !last.isDir then Ok(c)
        else if last.listing.Unreadable? then Err(ReadIfaceFailed(last.name))
        else Ok(c + Matching(last.listing.names, portal, iqn))
  }

  /**
   * getVolCount: a missing plugin directory holds no volume; one that cannot be read is an
   * error; otherwise the count over all its entries.
   */
  function VolCount(dir: PluginDir, portal: string, iqn: string): Result<nat, CountError>
  {
    match dir
    case Missing => Ok(0)
    case RootUnreadable => Err(ReadRootFailed)
    case Root(entries) => CountIn(entries, portal, iqn)
  }

  /** getVolCount, as the loop over the interface directories of the plugin directory. */
  method GetVolCount(dir: PluginDir, portal: string, iqn: string) returns (r: Result<nat, CountError>)
    ensures r == VolCount(dir, portal, iqn)
  {
    if dir.Missing? {
      return Ok(0);
    }
    if dir.RootUnreadable? {
      return Err(ReadRootFailed);
    }
    var entries := dir.entries;
    var counter := 0;
    var i := 0;
    while i < |entries|
      invariant 0 <= i <= |entries|
      invariant CountIn(entries[..i], portal, iqn) == Ok(counter)
    {
      var e := entries[i];
      CountStep(entries, i, portal, iqn);
      if e.isDir {
        if e.listing.Unreadable? {
          CountStops(entries, i, portal, iqn);
          return Err(ReadIfaceFailed(e.name));
        }
        var found := CountVolumes(e.listing.names, portal, iqn);
        counter := counter + found;
      }
      i := i + 1;
    }
    assert entries[..i] == entries;
    return Ok(counter);
  }

  /** The mounts of one interface directory that match `<portal>-<iqn>-lun-*`, counted. */
  method CountVolumes(names: seq<string>, portal: string, iqn: string) returns (found: nat)
    ensures found == Matching(names, portal, iqn)
  {
    found := 0;
    var j := 0;
    while j < |names|
      invariant 0 <= j <= |names|
      invariant found == Matching(names[..j], portal, iqn)
    {
      assert names[..j + 1][..j] == names[..j];
      if HasPrefix(names[j], portal + "-" + iqn + "-lun-") {
        found := found + 1;
      }
      j := j + 1;
    }
    assert names[..j] == names;
  }

  /** One more entry of the plugin directory visited. */
  lemma CountStep(entries: seq<Entry>, i: nat, portal: string, iqn: string)
    requires i < |entries|
    ensures var e := entries[i];
      CountIn(entries[..i + 1], portal, iqn) ==
        match CountIn(entries[..i], portal, iqn)
        case Err(x) => Err(x)
        case Ok(c) =>
          if !e.isDir then Ok(c)
          else if e.listing.Unreadable? then Err(ReadIfaceFailed(e.name))
          else Ok(c + Matching(e.listing.names, portal, iqn))
  {
    assert entries[..i + 1][..i] == entries[..i];
  }

  /** An error on the way is the error of the whole count. */
  lemma CountStops(entries: seq<Entry>, i: nat, portal: string, iqn: string)
    requires i < |entries| && CountIn(entries[..i + 1], portal, iqn).Err?
    ensures CountIn(entries, portal, iqn) == CountIn(entries[..i + 1], portal, iqn)
  {
    CountAppend(entries[..i + 1], entries[i + 1..], portal, iqn);
    assert entries[..i + 1] + entries[i + 1..] == entries;
  }

  // ------------------------------------------------------------------ properties

  /** Two counts put together: the first error wins, otherwise the counts add up. */
  function Combine(a: Result<nat, CountError>, b: Result<nat, CountError>): Result<nat, CountError>
  {
    match a
    case Err(e) => Err(e)
    case Ok(x) => match b
      case Err(e) => Err(e)
      case Ok(y) => Ok(x + y)
  }

  /** The count over two runs of entries is the combination of the counts over each. */
  lemma {:induction false} CountAppend(a: seq<Entry>, b: seq<Entry>, portal: string, iqn: string)
    ensures CountIn(a + b, portal, iqn) == Combine(CountIn(a, portal, iqn), CountIn(b, portal, iqn))
    decreases |b|
  {
    if |b| == 0 {
      assert a + b == a;
    } else {
      var init := b[..|b| - 1];
      assert (a + b)[..|a + b| - 1] == a + init;
      assert (a + b)[|a + b| - 1] == b[|b| - 1];
      CountAppend(a, init, portal, iqn);
    }
  }

  /** When no directory is unreadable, the order of the interface directories does not matter. */
  lemma CountSwap(a: seq<Entry>, b: seq<Entry>, portal: string, iqn: string)
    requires CountIn(a + b, portal, iqn).Ok?
    ensures CountIn(b + a, portal, iqn) == CountIn(a + b, portal, iqn)
  {
    CountAppend(a, b, portal, iqn);
    CountAppend(b, a, portal, iqn);
  }

  /** A single interface directory counts the volumes in its listing; any other file counts nothing. */
  lemma CountOne(e: Entry, portal: string, iqn: string)
    ensures !e.isDir ==> CountIn([e], portal, iqn) == Ok(0)
    ensures Unlisted(e) ==> CountIn([e], portal, iqn) == Err(ReadIfaceFailed(e.name))
    ensures e.isDir && e.listing.Listed? ==>
              CountIn([e], portal, iqn) == Ok(Matching(e.listing.names, portal, iqn))
  {
    assert [e][..0] == [];
  }

  /** The error names the first interface directory that cannot be read. */
  lemma {:induction false} FirstUnlistedReported(entries: seq<Entry>, i: nat, portal: string, iqn: string)
    requires i < |entries| && Unlisted(entries[i])
    requires forall j :: 0 <= j < i ==> !Unlisted(entries[j])
    ensures CountIn(entries, portal, iqn) == Err(ReadIfaceFailed(entries[i].name))
  {
    var pre := entries[..i];
    assert forall j :: 0 <= j < |pre| ==> pre[j] == entries[j];
    assert CountIn(pre, portal, iqn).Ok?;
    CountOne(entries[i], portal, iqn);
    CountAppend(pre, [entries[i]], portal, iqn);
    CountAppend(pre + [entries[i]], entries[i + 1..], portal, iqn);
    assert pre + [entries[i]] + entries[i + 1..] == entries;
  }

  /**
   * Without read errors, the count is zero exactly when no listed interface directory holds
   * a volume of (portal, iqn).
   */
  lemma {:induction false} CountZeroIff(entries: seq<Entry>, portal: string, iqn: string)
    requires CountIn(entries, portal, iqn).Ok?
    ensures CountIn(entries, portal, iqn).value == 0 <==>
              forall i, k :: 0 <= i < |entries| && entries[i].isDir && entries[i].listing.Listed?
                             && 0 <= k < |entries[i].listing.names|
                             ==> !IsVolumeOf(entries[i].listing.names[k], portal, iqn)
  {
    if |entries| > 0 {
      var init := entries[..|entries| - 1];
      var last := entries[|entries| - 1];
      assert forall i :: 0 <= i < |init| ==> init[i] == entries[i];
      CountZeroIff(init, portal, iqn);
    }
  }

  /** A missing plugin directory counts nothing, and without error. */
  lemma MissingCountsNothing(portal: string, iqn: string)
    ensures VolCount(Missing, portal, iqn) == Ok(0)
  {
  }

  /**
   * A name that counts for (portal, iqn) and ends in a lun without "-" is read back as that
   * portal and target by extractPortalAndIqn.
   */
  lemma CountedNameReadsBack(name: string, portal: string, iqn: string)
    requires IsVolumeOf(name, portal, iqn) && '-' !in name[|VolumePrefix(portal, iqn)|..]
    requires '-' !in portal && !Identifiers.Contains(portal, "iqn.") && !Identifiers.Contains(portal, "eui.")
    requires HasPrefix(iqn, "iqn.")
    ensures Identifiers.ExtractPortalAndIqn(name) == Ok(Identifiers.PortalAndIqn(portal, iqn))
  {
    var lun := name[|VolumePrefix(portal, iqn)|..];
    assert name == portal + "-" + iqn + "-lun-" + lun;
    Identifiers.ExtractPortalAndIqnOfLayout(portal, iqn, lun);
  }

  /** The mount directory of a volume counts for its own portal and target. */
  lemma VolumeNameCounts(portal: string, iqn: string, lun: string)
    ensures IsVolumeOf(VolumeName(portal, iqn, lun), portal, iqn)
  {
    assert VolumeName(portal, iqn, lun) == VolumePrefix(portal, iqn) + lun;
  }

  /** A portal differing at some position shares no volume. */
  lemma PortalMismatch(portal: string, other: string, iqn: string, iqn2: string, lun: string, k: nat)
    requires k < |portal| && k < |other| && portal[k] != other[k]
    ensures !IsVolumeOf(VolumeName(portal, iqn, lun), other, iqn2)
  {
    assert VolumeName(portal, iqn, lun)[k] == portal[k];
    assert VolumePrefix(other, iqn2)[k] == other[k];
  }

  /** Under the same portal, a target differing at some position shares no volume. */
  lemma TargetMismatch(portal: string, iqn: string, other: string, lun: string, k: nat)
    requires k < |iqn| && k < |other| && iqn[k] != other[k]
    ensures !IsVolumeOf(VolumeName(portal, iqn, lun), portal, other)
  {
    var n := |portal| + 1 + k;
    assert VolumeName(portal, iqn, lun)[n] == iqn[k];
    assert VolumePrefix(portal, other)[n] == other[k];
  }

  // ------------------------------------------------------------------ test cases

  /** The plugin directory of TestGetVolCount: two interfaces, three volume directories. */
  const Local := "127.0.0.1:3260"
  const Remote := "192.168.0.1:3260"
  const WrongPortal := "192.168.0.2:3260"
  const Volume1 := "iqn.2003-01.io.k8s:e2e.volume-1"
  const Volume3 := "iqn.2003-01.io.k8s:e2e.volume-3"

  const Lun3 := VolumeName(Local, Volume1, "3")
  const Lun2 := VolumeName(Local, Volume1, "2")
  const Lun1 := VolumeName(Remote, Volume1, "1")

  function Fixture(): PluginDir
  {
    Root([Entry("iface-127.0.0.1:3260:pv1", true, Listed([Lun3])),
          Entry("iface-127.0.0.1:3260:pv2", true, Listed([Lun2, Lun1]))])
  }

  /** The count over the fixture, one term per volume directory. */
  lemma FixtureCount(portal: string, iqn: string)
    ensures VolCount(Fixture(), portal, iqn) ==
              Ok((if IsVolumeOf(Lun3, portal, iqn) then 1 else 0)
                 + (if IsVolumeOf(Lun2, portal, iqn) then 1 else 0)
                 + (if IsVolumeOf(Lun1, portal, iqn) then 1 else 0))
  {
    var e1 := Entry("iface-127.0.0.1:3260:pv1", true, Listed([Lun3]));
    var e2 := Entry("iface-127.0.0.1:3260:pv2", true, Listed([Lun2, Lun1]));
    assert [Lun2, Lun1][..1] == [Lun2];
    assert [Lun3][..0] == [];
    assert [Lun2][..0] == [];
    CountOne(e1, portal, iqn);
    CountOne(e2, portal, iqn);
    CountAppend([e1], [e2], portal, iqn);
    assert [e1] + [e2] == [e1, e2];
  }

  /** "wrong portal, no volumes" */
  lemma WrongPortalCase()
    ensures VolCount(Fixture(), WrongPortal, Volume1) == Ok(0)
  {
    FixtureCount(WrongPortal, Volume1);
    PortalMismatch(Local, WrongPortal, Volume1, Volume1, "3", 1);
    PortalMismatch(Local, WrongPortal, Volume1, Volume1, "2", 1);
    PortalMismatch(Remote, WrongPortal, Volume1, Volume1, "1", 10);
  }

  /** "wrong iqn, no volumes" */
  lemma WrongTargetCase()
    ensures VolCount(Fixture(), Local, Volume3) == Ok(0)
  {
    FixtureCount(Local, Volume3);
    TargetMismatch(Local, Volume1, Volume3, "3", 30);
    TargetMismatch(Local, Volume1, Volume3, "2", 30);
    PortalMismatch(Remote, Local, Volume1, Volume3, "1", 1);
  }

  /** "single volume" */
  lemma SingleVolumeCase()
    ensures VolCount(Fixture(), Remote, Volume1) == Ok(1)
  {
    FixtureCount(Remote, Volume1);
    PortalMismatch(Local, Remote, Volume1, Volume1, "3", 1);
    PortalMismatch(Local, Remote, Volume1, Volume1, "2", 1);
    VolumeNameCounts(Remote, Volume1, "1");
  }

  /** "two volumes": the same target through two interfaces. */
  lemma TwoVolumesCase()
    ensures VolCount(Fixture(), Local, Volume1) == Ok(2)
  {
    FixtureCount(Local, Volume1);
    VolumeNameCounts(Local, Volume1, "3");
    VolumeNameCounts(Local, Volume1, "2");
    PortalMismatch(Remote, Local, Volume1, Volume1, "1", 1);
  }

  /** TestGetVolCount */
  method TestGetVolCount()
  {
    WrongPortalCase();
    WrongTargetCase();
    SingleVolumeCase();
    TwoVolumesCase();
    var count := GetVolCount(Fixture(), WrongPortal, Volume1);
    assert count == Ok(0);
    count := GetVolCount(Fixture(), Local, Volume3);
    assert count == Ok(0);
    count := GetVolCount(Fixture(), Remote, Volume1);
    assert count == Ok(1);
    count := GetVolCount(Fixture(), Local, Volume1);
    assert count == Ok(2);
  }
}
