/**
 * waitForPathToExistInternal: poll for a device node a bounded number of times.
 *
 * With the default transport `tcp` each attempt stats the path itself; with any other
 * transport each attempt expands the path as a glob pattern and, on a hit, overwrites the
 * caller's path with the first match. The file system is abstracted into the two probe
 * functions, which also receive the attempt number so that the world may change between
 * attempts (the one-second sleep between attempts is not modelled).
 */
module Waiter {

  /** What a stat of a path reports: it exists, it does not exist, or some other error. */
  datatype StatOutcome = Present | Absent | Failed

  const DefaultTransport := "tcp"

  /** The caller's device path, which a glob hit overwrites in place. */
  class DevicePath {
    var path: string

    constructor (p: string)
      ensures path == p
    {
      path := p;
    }
  }

  /** The outcome of one attempt: found (at this path), not yet there, or give up. */
  datatype Attempt = Found(path: string) | NotYet | GiveUp

  /** One attempt at `path`. */
  function Probe(transport: string, stat: (nat, string) -> StatOutcome, glob: (nat, string) -> seq<string>,
                 attempt: nat, path: string): Attempt
  {
    if transport == DefaultTransport then
      match stat(attempt, path)
      case Present => Found(path)
      case Absent => NotYet
      case Failed => GiveUp
    else
      var matches := glob(attempt, path);
      if |matches| == 0 then NotYet else Found(matches[0])
  }

  /** The outcome of attempts `attempt` up to `maxRetries - 1`: whether the path exists, and the path. */
  function WaitFrom(attempt: nat, maxRetries: int, transport: string, stat: (nat, string) -> StatOutcome,
                    glob: (nat, string) -> seq<string>, path: string): (r: (bool, string))
    decreases maxRetries - attempt
  {
    if attempt >= maxRetries then (false, path)
    else match Probe(transport, stat, glob, attempt, path)
      case Found(p) => (true, p)
      case GiveUp => (false, path)
      case NotYet => WaitFrom(attempt + 1, maxRetries, transport, stat, glob, path)
  }

  /** waitForPathToExistInternal */
  method WaitForPathToExist(dp: DevicePath?, maxRetries: int, transport: string,
                            stat: (nat, string) -> StatOutcome, glob: (nat, string) -> seq<string>)
    returns (exist: bool)
    modifies dp
    ensures dp == null ==> !exist
    ensures dp != null ==> (exist, dp.path) == WaitFrom(0, maxRetries, transport, stat, glob, old(dp.path))
  {
    if dp == null {
      return false;
    }
    var i := 0;
    while i < maxRetries
      invariant 0 <= i
      invariant dp.path == old(dp.path)
      invariant WaitFrom(i, maxRetries, transport, stat, glob, dp.path)
                == WaitFrom(0, maxRetries, transport, stat, glob, old(dp.path))
      decreases maxRetries - i
    {
      if transport == DefaultTransport {
        var outcome := stat(i, dp.path);
        if outcome == Present {
          return true;
        } else if outcome == Failed {
          return false;
        }
      } else {
        var fpath := glob(i, dp.path);
        if |fpath| > 0 {
          dp.path := fpath[0];
          return true;
        }
      }
      if i == maxRetries - 1 {
        break;
      }
      i := i + 1;
    }
    return false;
  }

  // ------------------------------------------------------------------ properties

  /** With no attempts allowed the path is never found and never changed. */
  lemma NoRetriesNotFound(maxRetries: int, transport: string, stat: (nat, string) -> StatOutcome,
                          glob: (nat, string) -> seq<string>, path: string)
    requires maxRetries <= 0
    ensures WaitFrom(0, maxRetries, transport, stat, glob, path) == (false, path)
  {
  }

  /** With the default transport only `stat` is consulted, and the path is never rewritten. */
  lemma {:induction false} TcpUsesOnlyStat(attempt: nat, maxRetries: int, stat: (nat, string) -> StatOutcome,
                                           glob1: (nat, string) -> seq<string>, glob2: (nat, string) -> seq<string>,
                                           path: string)
    ensures WaitFrom(attempt, maxRetries, DefaultTransport, stat, glob1, path)
            == WaitFrom(attempt, maxRetries, DefaultTransport, stat, glob2, path)
    ensures WaitFrom(attempt, maxRetries, DefaultTransport, stat, glob1, path).1 == path
    decreases maxRetries - attempt
  {
    if attempt < maxRetries && stat(attempt, path) == Absent {
      TcpUsesOnlyStat(attempt + 1, maxRetries, stat, glob1, glob2, path);
    }
  }

  /** With any other transport only `glob` is consulted. */
  lemma {:induction false} OtherUsesOnlyGlob(attempt: nat, maxRetries: int, transport: string,
                                             stat1: (nat, string) -> StatOutcome, stat2: (nat, string) -> StatOutcome,
                                             glob: (nat, string) -> seq<string>, path: string)
    requires transport != DefaultTransport
    ensures WaitFrom(attempt, maxRetries, transport, stat1, glob, path)
            == WaitFrom(attempt, maxRetries, transport, stat2, glob, path)
    decreases maxRetries - attempt
  {
    if attempt < maxRetries && |glob(attempt, path)| == 0 {
      OtherUsesOnlyGlob(attempt + 1, maxRetries, transport, stat1, stat2, glob, path);
    }
  }

  /**
   * With the default transport the path is found exactly when some attempt sees it present
   * and every earlier attempt saw it absent.
   */
  lemma {:induction false} TcpFoundIff(attempt: nat, maxRetries: int, stat: (nat, string) -> StatOutcome,
                                       glob: (nat, string) -> seq<string>, path: string)
    ensures WaitFrom(attempt, maxRetries, DefaultTransport, stat, glob, path).0 <==>
              exists k :: attempt <= k < maxRetries && stat(k, path) == Present
                          && forall j :: attempt <= j < k ==> stat(j, path) == Absent
    decreases maxRetries - attempt
  {
    if attempt < maxRetries {
      TcpFoundIff(attempt + 1, maxRetries, stat, glob, path);
      if stat(attempt, path) == Present {
        assert attempt <= attempt < maxRetries && stat(attempt, path) == Present;
      } else if stat(attempt, path) == Failed {
        forall k | attempt <= k < maxRetries && stat(k, path) == Present
          ensures exists j :: attempt <= j < k && stat(j, path) != Absent
        {
          assert attempt < k;
        }
      } else {
        forall k | attempt + 1 <= k < maxRetries && stat(k, path) == Present
                   && (forall j :: attempt + 1 <= j < k ==> stat(j, path) == Absent)
          ensures forall j :: attempt <= j < k ==> stat(j, path) == Absent
        {
        }
      }
    }
  }

  /**
   * With any other transport the path is found exactly when some attempt's glob has a match,
   * and the caller's path becomes the first match of the first such attempt.
   */
  lemma {:induction false} GlobFoundFirstMatch(attempt: nat, maxRetries: int, transport: string,
                                               stat: (nat, string) -> StatOutcome, glob: (nat, string) -> seq<string>,
                                               path: string)
    requires transport != DefaultTransport
    ensures WaitFrom(attempt, maxRetries, transport, stat, glob, path).0 <==>
              exists k :: attempt <= k < maxRetries && |glob(k, path)| > 0
    ensures forall k :: attempt <= k < maxRetries && |glob(k, path)| > 0
                        && (forall j :: attempt <= j < k ==> |glob(j, path)| == 0) ==>
              WaitFrom(attempt, maxRetries, transport, stat, glob, path).1 == glob(k, path)[0]
    ensures !WaitFrom(attempt, maxRetries, transport, stat, glob, path).0 ==>
              WaitFrom(attempt, maxRetries, transport, stat, glob, path).1 == path
    decreases maxRetries - attempt
  {
    if attempt < maxRetries {
      GlobFoundFirstMatch(attempt + 1, maxRetries, transport, stat, glob, path);
      if |glob(attempt, path)| > 0 {
        forall k | attempt <= k < maxRetries && |glob(k, path)| > 0
                   && (forall j :: attempt <= j < k ==> |glob(j, path)| == 0)
          ensures k == attempt
        {
          assert !(attempt < k);
        }
      }
    }
  }

  /** A path that is present on the first attempt is found at once, and again when asked again. */
  lemma PresentPathIdempotent(maxRetries: int, stat: (nat, string) -> StatOutcome,
                              glob: (nat, string) -> seq<string>, path: string)
    requires maxRetries > 0 && stat(0, path) == Present
    ensures WaitFrom(0, maxRetries, DefaultTransport, stat, glob, path) == (true, path)
    ensures var again := WaitFrom(0, maxRetries, DefaultTransport, stat, glob, path).1;
            WaitFrom(0, maxRetries, DefaultTransport, stat, glob, again) == (true, path)
  {
  }

  // ------------------------------------------------------------------ test cases

  /** The two device paths of TestWaitForPathToExist: a plain one and a glob pattern. */
  const ByPath := "/dev/disk/by-path/"
  const Target := "127.0.0.1:3260-iqn.2014-12" + ".com.example:test.tgt00-lun-0"
  const PlainPath := ByPath + "ip-" + Target
  const PatternPath := ByPath + "pci-*-ip-" + Target
  const MatchedPath := ByPath + "pci-0000:00:00.0-ip-" + Target

  /**
   * TestWaitForPathToExist. fakeOsStat finds every path; on the test machine no device
   * exists, so the real os.Stat finds nothing and the real filepath.Glob matches nothing;
   * fakeFilepathGlob returns the pattern itself and fakeFilepathGlob2 returns one PCI path.
   */
  method TestWaitForPathToExist()
  {
    var fakeOsStat := (i: nat, p: string) => Present;
    var osStat := (i: nat, p: string) => Absent;
    var filepathGlob := (i: nat, p: string) => [];
    var fakeFilepathGlob := (i: nat, p: string) => [p];
    var fakeFilepathGlob2 := (i: nat, p: string) => [MatchedPath];

    var plain := new DevicePath(PlainPath);
    var pattern := new DevicePath(PatternPath);

    var exist := WaitForPathToExist(plain, 1, "tcp", fakeOsStat, filepathGlob);
    assert exist;
    exist := WaitForPathToExist(plain, 1, "fake_iface", fakeOsStat, filepathGlob);
    assert !exist;

    exist := WaitForPathToExist(pattern, 1, "fake_iface", osStat, fakeFilepathGlob);
    assert exist && pattern.path == PatternPath;
    exist := WaitForPathToExist(pattern, 1, "tcp", osStat, fakeFilepathGlob);
    assert !exist;

    exist := WaitForPathToExist(pattern, 1, "fake_iface", osStat, fakeFilepathGlob2);
    assert pattern.path == MatchedPath;
  }
}
