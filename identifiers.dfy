/**
 * Identifier parsing of the iSCSI volume plugin: the mount paths it creates look like
 *   <plugin dir>/iface-<iface name>/<portal>-<target name>-lun-<lun>
 * and these functions take them apart again: device name and path prefix, interface
 * name, portal and target name.  RemoveDuplicate thins a multipath portal list.
 */
module Identifiers {
  import opened Wrappers
  import opened Strings

  datatype PathError =
    | MalformedMountPath(path: string)   // no "/" or no "-lun-" in a mount path
    | NoPortal(device: string)           // no "-" in a device name
    | NoTarget(device: string)           // neither "iqn." nor "eui." in a device name
    | NoLun(device: string)              // no "-lun-" after the target name

  /** `sub` occurs somewhere in `s`. */
  predicate Contains(s: string, sub: string)
  {
    exists i :: 0 <= i <= |s| && OccursAt(s, sub, i)
  }

  // ---------------------------------------------------------------------------
  // extractDeviceAndPrefix

  datatype DeviceAndPrefix = DeviceAndPrefix(device: string, prefix: string)

  /**
   * The device is what follows the last "/" of a mount path; the prefix is everything
   * before the last "-lun-".  A path lacking either marker is malformed.
   */
  function ExtractDeviceAndPrefix(mntPath: string): (r: Result<DeviceAndPrefix, PathError>)
    ensures r.Err? <==> !Contains(mntPath, "/") || !Contains(mntPath, "-lun-")
    ensures r.Err? ==> r.error == MalformedMountPath(mntPath)
    ensures r.Ok? ==>
      var device, prefix := r.value.device, r.value.prefix;
      // mntPath is <dir>/<device>, the device holding no "/"
      && '/' !in device
      && |device| < |mntPath| && mntPath[|mntPath| - |device| - 1] == '/'
      && mntPath[|mntPath| - |device|..] == device
      // mntPath is <prefix>-lun-<rest>, with no later "-lun-"
      && HasPrefix(mntPath, prefix)
      && OccursAt(mntPath, "-lun-", |prefix|)
      && (forall j :: |prefix| < j ==> !OccursAt(mntPath, "-lun-", j))
  {
    var slash := LastIndex(mntPath, "/");
    if slash < 0 then Err(MalformedMountPath(mntPath))
    else
      var lun := LastIndex(mntPath, "-lun-");
      if lun < 0 then Err(MalformedMountPath(mntPath))
      else
        NoSlashAfterLast(mntPath, slash);
        Ok(DeviceAndPrefix(mntPath[slash + 1..], mntPath[..lun]))
  }

  /** What follows the last "/" holds no "/". */
  lemma NoSlashAfterLast(s: string, slash: int)
    requires slash == LastIndex(s, "/") && slash >= 0
    ensures '/' !in s[slash + 1..]
  {
    var device := s[slash + 1..];
    forall k | 0 <= k < |device| ensures device[k] != '/' {
      assert !OccursAt(s, "/", slash + 1 + k);
      assert s[slash + 1 + k..slash + 2 + k] == [device[k]];
    }
  }

  // ---------------------------------------------------------------------------
  // extractIface: the pattern `.+/iface-([^/]+)/.+`, as Go's regexp reads it: `.` is any
  // character but a newline, `[^/]` any character but "/", newline included.

  /**
   * The name captured by `/iface-([^/]+)/.+` when that part of the pattern matches
   * at the start of `t`: the trailing `.+` needs one character after the closing "/"
   * that is not a newline.
   */
  function IfaceMarker(t: string): (r: Option<string>)
    ensures r.Some? ==>
      && r.value != "" && '/' !in r.value
      && HasPrefix(t, "/iface-" + r.value + "/")
      && |"/iface-" + r.value + "/"| < |t|
      && t[|"/iface-" + r.value + "/"|] != '\n'
  {
    if HasPrefix(t, "/iface-") then
      var rest := t[7..];
      var q := Index(rest, "/");
      if 0 < q && 7 + q + 1 < |t| && t[7 + q + 1] != '\n' then
        assert '/' !in rest[..q] by {
          forall k | 0 <= k < q ensures rest[k] != '/' {
            assert !OccursAt(rest, "/", k);
            assert rest[k..k + 1] == [rest[k]];
          }
        }
        assert rest[q..q + 1] == "/";
        assert t[..7 + q + 1] == "/iface-" + rest[..q] + "/";
        Some(rest[..q])
      else None
    else None
  }

  /**
   * The pattern matches with its "/iface-" at position `p`: the leading `.+` needs a
   * character before it that is not a newline.
   */
  function IfaceAt(s: string, p: int): Option<string>
  {
    if 1 <= p < |s| && s[p - 1] != '\n' then IfaceMarker(s[p..]) else None
  }

  /** No newline lies between positions `a` and `b`: they are on one line. */
  predicate SameLine(s: string, a: int, b: int)
    requires 0 <= a <= b <= |s|
  {
    forall k :: a <= k < b ==> s[k] != '\n'
  }

  /** The last position at or before `i` where the pattern's "/iface-" can sit, or -1. */
  function LastIfaceAt(s: string, i: int): (r: int)
    decreases i + 1
    ensures r == -1 || (r <= i && IfaceAt(s, r).Some?)
    ensures forall j :: r < j <= i ==> IfaceAt(s, j).None?
  {
    if i < 0 then -1
    else if IfaceAt(s, i).Some? then i
    else LastIfaceAt(s, i - 1)
  }

  /** The first position at or after `i` where the pattern's "/iface-" can sit, or -1. */
  function FirstIfaceAt(s: string, i: nat): (r: int)
    decreases |s| - i
    ensures r == -1 || (i <= r < |s| && IfaceAt(s, r).Some?)
    ensures forall j :: i <= j && (r == -1 || j < r) ==> IfaceAt(s, j).None?
  {
    if i >= |s| then -1
    else if IfaceAt(s, i).Some? then i
    else FirstIfaceAt(s, i + 1)
  }

  /** The end of the line holding position `i`: the next newline, or the end of `s`. */
  function LineEnd(s: string, i: nat): (e: nat)
    requires i <= |s|
    decreases |s| - i
    ensures i <= e <= |s| && SameLine(s, i, e)
    ensures e < |s| ==> s[e] == '\n'
  {
    if i == |s| || s[i] == '\n' then i else LineEnd(s, i + 1)
  }

  /**
   * extractIface: the interface name of a mount path.  The match starts as far left as it
   * can, so it lies in the first line that holds one; there the leading `.+` is greedy, so
   * of several "/iface-<name>/" segments on that line the last one wins.  Without a match
   * the result is ("", false).
   */
  function ExtractIface(mntPath: string): (r: (string, bool))
    ensures !r.1 <==> forall p :: IfaceAt(mntPath, p).None?
    ensures !r.1 ==> r.0 == ""
    ensures r.1 ==> exists p :: 0 <= p < |mntPath| && IfaceAt(mntPath, p) == Some(r.0)
                                && (forall j :: p < j < |mntPath| && SameLine(mntPath, p, j) ==> IfaceAt(mntPath, j).None?)
                                && (forall j :: 0 <= j < p && !SameLine(mntPath, j, p) ==> IfaceAt(mntPath, j).None?)
    ensures r.1 ==> r.0 != "" && '/' !in r.0 && Contains(mntPath, "/iface-" + r.0 + "/")
  {
    var f := FirstIfaceAt(mntPath, 0);
    if f < 0 then ("", false)
    else
      var p := ChosenIfaceAt(mntPath, f);
      IfaceFound(mntPath, p);
      (IfaceAt(mntPath, p).value, true)
  }

  /** The name captured at `p` is a non-empty "/"-free segment between "/iface-" and "/". */
  lemma IfaceFound(s: string, p: int)
    requires IfaceAt(s, p).Some?
    ensures var name := IfaceAt(s, p).value;
      name != "" && '/' !in name && Contains(s, "/iface-" + name + "/")
  {
    var t := s[p..];
    var name := IfaceMarker(t).value;
    assert t[..|"/iface-" + name + "/"|] == "/iface-" + name + "/";
    assert OccursAt(s, "/iface-" + name + "/", p);
  }

  /** Where the match sits, given the first position `f` where one can sit. */
  function ChosenIfaceAt(s: string, f: nat): (p: nat)
    requires f < |s| && IfaceAt(s, f).Some? && forall j :: 0 <= j < f ==> IfaceAt(s, j).None?
    ensures f <= p < |s| && IfaceAt(s, p).Some?
    ensures forall j :: p < j < |s| && SameLine(s, p, j) ==> IfaceAt(s, j).None?
    ensures forall j :: 0 <= j < p && !SameLine(s, j, p) ==> IfaceAt(s, j).None?
  {
    assert s[f] == '/' by { assert s[f..][0] == s[f]; }
    var e := LineEnd(s, f);
    var p := LastIfaceAt(s, e - 1);
    ChosenOnLine(s, f, e, p);
    p
  }

  /** The match sits on the line of the first possible position, at the last possible one there. */
  lemma ChosenOnLine(s: string, f: nat, e: nat, p: int)
    requires f < e <= |s| && SameLine(s, f, e) && (e < |s| ==> s[e] == '\n')
    requires IfaceAt(s, f).Some? && forall j :: 0 <= j < f ==> IfaceAt(s, j).None?
    requires p == LastIfaceAt(s, e - 1)
    ensures f <= p < e && IfaceAt(s, p).Some?
    ensures forall j :: p < j < |s| && SameLine(s, p, j) ==> IfaceAt(s, j).None?
    ensures forall j :: 0 <= j < p && !SameLine(s, j, p) ==> IfaceAt(s, j).None?
  {
    if e < |s| {
      NoSlashNoIface(s, e);
    }
    LastOnLine(s, j => IfaceAt(s, j).Some?, f, e, p);
  }

  /**
   * For any property `q` of positions: the last position with `q` on the line of the first
   * one has no later one on its line and none on an earlier line.
   */
  lemma LastOnLine(s: string, q: int -> bool, f: nat, e: nat, p: int)
    requires f < e <= |s| && SameLine(s, f, e) && (e < |s| ==> s[e] == '\n' && !q(e))
    requires q(f) && forall j :: 0 <= j < f ==> !q(j)
    requires f <= p < e && q(p) && forall j :: p < j <= e - 1 ==> !q(j)
    ensures forall j :: p < j < |s| && SameLine(s, p, j) ==> !q(j)
    ensures forall j :: 0 <= j < p && !SameLine(s, j, p) ==> !q(j)
  {
    forall j | p < j < |s| && SameLine(s, p, j) ensures j <= e {
    }
    forall j | f <= j <= p ensures SameLine(s, j, p) {
    }
  }

  /** No "/" at position `p` means no match of the pattern there. */
  lemma NoSlashNoIface(s: string, p: int)
    requires 0 <= p < |s| && s[p] != '/'
    ensures IfaceAt(s, p).None?
  {
    if 1 <= p {
      assert s[p..][0] == s[p];
    }
  }

  /** At the interface segment of <root>/iface-<name>/<device> the pattern captures <name>. */
  lemma IfaceAtSegment(root: string, name: string, device: string)
    requires root != "" && root[|root| - 1] != '\n'
    requires name != "" && '/' !in name
    requires device != "" && device[0] != '\n'
    ensures IfaceAt(root + "/iface-" + name + "/" + device, |root|) == Some(name)
  {
    var s := root + "/iface-" + name + "/" + device;
    var t := s[|root|..];
    assert t == "/iface-" + (name + "/" + device);
    assert t[7..] == name + "/" + device;
    IndexOfSingle(name, '/', device);
    assert HasPrefix(t, "/iface-");
    assert t[7..][..|name|] == name;
  }

  /** Past the interface segment of <root>/iface-<name>/<device> the pattern matches nowhere. */
  lemma NoIfaceAfterSegment(root: string, name: string, device: string)
    requires '/' !in name && '/' !in device
    ensures forall j :: |root| < j ==> IfaceAt(root + "/iface-" + name + "/" + device, j).None?
  {
    var s := root + "/iface-" + name + "/" + device;
    var p0 := |root|;
    var p1 := p0 + 7 + |name|;
    var mid := "iface-" + name;
    assert '/' !in mid by {
      forall c | c in mid ensures c != '/' { assert c in "iface-" || c in name; }
    }
    assert s == root + "/" + mid + "/" + device;
    forall j | p0 < j < p1 ensures IfaceAt(s, j).None? {
      assert s[j] == mid[j - p0 - 1];
      assert mid[j - p0 - 1] in mid;
      NoSlashNoIface(s, j);
    }
    forall j | p1 < j < |s| ensures IfaceAt(s, j).None? {
      assert s[j] == device[j - p1 - 1];
      assert device[j - p1 - 1] in device;
      NoSlashNoIface(s, j);
    }
    var u := s[p1..];
    assert u == "/" + device;
    if HasPrefix(u, "/iface-") {
      assert u[7..] == device[6..];
      assert '/' !in device[6..] by {
        forall c | c in device[6..] ensures c != '/' { assert c in device; }
      }
      CharNotOccurring(device[6..], '/');
    }
    assert IfaceAt(s, p1).None?;
  }

  /**
   * The layout of the plugin's mount paths: the interface segment is found and its name
   * returned, whatever the directory before it holds, as long as the path is one line.
   */
  lemma ExtractIfaceOfLayout(root: string, name: string, device: string)
    requires root != "" && '\n' !in root
    requires name != "" && '/' !in name
    requires device != "" && '/' !in device && device[0] != '\n'
    ensures ExtractIface(root + "/iface-" + name + "/" + device) == (name, true)
  {
    var s := root + "/iface-" + name + "/" + device;
    assert root[|root| - 1] in root;
    IfaceAtSegment(root, name, device);
    NoIfaceAfterSegment(root, name, device);
    forall j | 0 <= j <= |root| ensures SameLine(s, j, |root|) {
      forall k | j <= k < |root| ensures s[k] != '\n' {
        assert s[k] == root[k] && root[k] in root;
      }
    }
    ExtractOnlyIface(s, |root|);
  }

  /** A path whose only interface segment starts on its first line yields that segment's name. */
  lemma ExtractOnlyIface(s: string, m: nat)
    requires m < |s| && IfaceAt(s, m).Some?
    requires forall j :: m < j ==> IfaceAt(s, j).None?
    requires forall j :: 0 <= j <= m ==> SameLine(s, j, m)
    ensures ExtractIface(s) == (IfaceAt(s, m).value, true)
  {
    var r := ExtractIface(s);
    var p :| 0 <= p < |s| && IfaceAt(s, p) == Some(r.0)
             && (forall j :: p < j < |s| && SameLine(s, p, j) ==> IfaceAt(s, j).None?)
             && (forall j :: 0 <= j < p && !SameLine(s, j, p) ==> IfaceAt(s, j).None?);
    OnlyOnLine(s, j => IfaceAt(s, j).Some?, p, m);
  }

  /** A position `m` with `q` that no later position shares, on the line's first segment, is the one chosen. */
  lemma OnlyOnLine(s: string, q: int -> bool, p: int, m: int)
    requires 0 <= p < |s| && 0 <= m < |s| && q(p) && q(m)
    requires forall j :: p < j < |s| && SameLine(s, p, j) ==> !q(j)
    requires forall j :: m < j ==> !q(j)
    requires forall j :: 0 <= j <= m ==> SameLine(s, j, m)
    ensures p == m
  {
    assert p <= m ==> SameLine(s, p, m);
  }

  /** A path without the text "/iface-" has no interface segment. */
  lemma ExtractIfaceWithoutMarker(mntPath: string)
    requires !Contains(mntPath, "/iface-")
    ensures ExtractIface(mntPath) == ("", false)
  {
    forall p ensures IfaceAt(mntPath, p).None? {
      NoMarkerNoIface(mntPath, p);
    }
  }

  /** Without "/iface-" at `p` the pattern does not match there. */
  lemma NoMarkerNoIface(s: string, p: int)
    requires 0 <= p ==> !OccursAt(s, "/iface-", p)
    ensures IfaceAt(s, p).None?
  {
    if 1 <= p < |s| && p + 7 <= |s| {
      assert s[p..][..7] == s[p..p + 7];
    }
  }

  /** strings.Index of a character that only occurs after `a`. */
  lemma IndexOfSingle(a: string, c: char, b: string)
    requires c !in a
    ensures Index(a + [c] + b, [c]) == |a|
  {
    var s := a + [c] + b;
    assert s[|a|..|a| + 1] == [c];
    forall j | 0 <= j < |a| ensures !OccursAt(s, [c], j) {
      assert s[j..j + 1] == [a[j]];
      assert a[j] in a;
    }
    IndexIs(s, [c], |a|);
  }

  // ---------------------------------------------------------------------------
  // extractPortalAndIqn

  datatype PortalAndIqn = PortalAndIqn(portal: string, iqn: string)

  /** Where the target name starts: the first "iqn.", or else the first "eui.", or -1. */
  function TargetStart(device: string): (r: int)
    ensures r == -1 || OccursAt(device, "iqn.", r) || OccursAt(device, "eui.", r)
    ensures r >= 0 && OccursAt(device, "iqn.", r) ==> forall k :: 0 <= k < r ==> !OccursAt(device, "iqn.", k)
    ensures r >= 0 && !OccursAt(device, "iqn.", r) ==>
      forall k :: 0 <= k ==> !OccursAt(device, "iqn.", k) && (k < r ==> !OccursAt(device, "eui.", k))
    ensures r == -1 ==> forall k :: 0 <= k ==> !OccursAt(device, "iqn.", k) && !OccursAt(device, "eui.", k)
  {
    var iqn := Index(device, "iqn.");
    if iqn >= 0 then iqn else Index(device, "eui.")
  }

  /** strings.Index finds something exactly when the text occurs. */
  lemma IndexFindsContained(s: string, sub: string)
    ensures Index(s, sub) >= 0 <==> Contains(s, sub)
  {
    var r := Index(s, sub);
    if r >= 0 {
      assert OccursAt(s, sub, r);
    }
  }

  /** strings.LastIndex finds something exactly when the text occurs. */
  lemma LastIndexFindsContained(s: string, sub: string)
    ensures LastIndex(s, sub) >= 0 <==> Contains(s, sub)
  {
    var r := LastIndex(s, sub);
    if r >= 0 {
      assert OccursAt(s, sub, r);
    }
  }

  /**
   * extractPortalAndIqn: the portal runs up to the first "-"; the target name runs from
   * the first "iqn." (or, lacking one, the first "eui.") up to the last "-lun-", so the
   * dashes inside an IQN's date do not cut it.
   */
  function ExtractPortalAndIqn(device: string): (r: Result<PortalAndIqn, PathError>)
    ensures r.Err? <==>
      || !Contains(device, "-")
      || (!Contains(device, "iqn.") && !Contains(device, "eui."))
      || LastIndex(device, "-lun-") < TargetStart(device)
    ensures r.Ok? ==>
      var portal, iqn := r.value.portal, r.value.iqn;
      && '-' !in portal && HasPrefix(device, portal + "-")
      && (HasPrefix(iqn, "iqn.") || HasPrefix(iqn, "eui."))
      && var i := TargetStart(device);
         OccursAt(device, iqn + "-lun-", i) && forall j :: i + |iqn| < j ==> !OccursAt(device, "-lun-", j)
  {
    IndexFindsContained(device, "-");
    IndexFindsContained(device, "iqn.");
    IndexFindsContained(device, "eui.");
    var dash := Index(device, "-");
    if dash < 0 then Err(NoPortal(device))
    else
      var start := TargetStart(device);
      if start < 0 then Err(NoTarget(device))
      else
        var lun := LastIndex(device, "-lun-");
        if lun < start then Err(NoLun(device))
        else
          PortalAndTargetFacts(device, dash, start, lun);
          Ok(PortalAndIqn(device[..dash], device[start..lun]))
  }

  lemma PortalAndTargetFacts(device: string, dash: int, start: int, lun: int)
    requires dash == Index(device, "-") && dash >= 0
    requires start == TargetStart(device) && start >= 0
    requires lun == LastIndex(device, "-lun-") && lun >= start
    ensures '-' !in device[..dash] && HasPrefix(device, device[..dash] + "-")
    ensures var iqn := device[start..lun];
      && (HasPrefix(iqn, "iqn.") || HasPrefix(iqn, "eui."))
      && OccursAt(device, iqn + "-lun-", start)
      && forall j :: start + |iqn| < j ==> !OccursAt(device, "-lun-", j)
  {
    PortalFacts(device, dash);
    TargetFacts(device, start, lun);
  }

  /** The portal is the dash-free text before the first "-". */
  lemma PortalFacts(device: string, dash: int)
    requires dash == Index(device, "-") && dash >= 0
    ensures '-' !in device[..dash] && HasPrefix(device, device[..dash] + "-")
  {
    var portal := device[..dash];
    forall k | 0 <= k < dash ensures portal[k] != '-' {
      assert !OccursAt(device, "-", k);
      assert device[k..k + 1] == [portal[k]];
    }
    assert device[..dash + 1] == portal + "-" by { assert device[dash..dash + 1] == "-"; }
  }

  /** The target name runs from its tag up to the last "-lun-". */
  lemma TargetFacts(device: string, start: int, lun: int)
    requires start == TargetStart(device) && start >= 0
    requires lun == LastIndex(device, "-lun-") && lun >= start
    ensures var iqn := device[start..lun];
      && (HasPrefix(iqn, "iqn.") || HasPrefix(iqn, "eui."))
      && OccursAt(device, iqn + "-lun-", start)
      && forall j :: start + |iqn| < j ==> !OccursAt(device, "-lun-", j)
  {
    var tag := device[start..start + 4];
    assert tag == "iqn." || tag == "eui.";
    LunAfterTag(device, start, lun, tag);
    var iqn := device[start..lun];
    assert iqn[..4] == tag;
    assert device[start..lun + 5] == iqn + device[lun..lun + 5];
  }

  /** A "-lun-" at or after a tag starts after the tag, which holds no "-". */
  lemma LunAfterTag(device: string, start: nat, lun: int, tag: string)
    requires start + 4 <= |device| && tag == device[start..start + 4] && (tag == "iqn." || tag == "eui.")
    requires OccursAt(device, "-lun-", lun) && lun >= start
    ensures lun >= start + 4
  {
    assert device[lun] == '-';
    assert forall i | start <= i < start + 4 :: device[i] == tag[i - start] != '-';
  }

  /** A character of `sub` that `s` lacks rules out every occurrence of `sub`. */
  lemma MissingCharNoOccurrence(s: string, sub: string, k: nat)
    requires k < |sub| && sub[k] !in s
    ensures !Contains(s, sub)
  {
    forall i | 0 <= i <= |s| ensures !OccursAt(s, sub, i) {
      if i + |sub| <= |s| {
        assert s[i..i + |sub|][k] == s[i + k];
        assert s[i + k] in s;
      }
    }
  }

  /** The "-lun-" before a lun without dashes is the last one. */
  lemma LastLunMarker(pre: string, lun: string)
    requires '-' !in lun
    ensures LastIndex(pre + "-lun-" + lun, "-lun-") == |pre|
  {
    var s := pre + "-lun-" + lun;
    var k := |pre|;
    assert s[k..k + 5] == "-lun-";
    forall j | k < j ensures !OccursAt(s, "-lun-", j) {
      if j + 5 > |s| {
      } else if j < k + 4 {
        assert s[j] == "-lun-"[j - k];
        assert s[j] != '-';
        assert s[j..j + 5][0] != "-lun-"[0];
      } else if j == k + 4 {
        assert s[j + 4] == lun[3];
        assert lun[3] in lun;
        assert s[j..j + 5][4] != "-lun-"[4];
      } else {
        assert s[j] == lun[j - k - 5];
        assert lun[j - k - 5] in lun;
        assert s[j..j + 5][0] != "-lun-"[0];
      }
    }
    LastIndexIs(s, "-lun-", k);
  }

  /** The target name of <portal>-<target>... starts right after the portal's dash. */
  lemma TargetStartOfLayout(portal: string, target: string, rest: string)
    requires '-' !in portal && !Contains(portal, "iqn.") && !Contains(portal, "eui.")
    requires HasPrefix(target, "iqn.")
          || (HasPrefix(target, "eui.") && !Contains(portal + "-" + target + rest, "iqn."))
    ensures TargetStart(portal + "-" + target + rest) == |portal| + 1
  {
    var d := portal + "-" + target + rest;
    var start := |portal| + 1;
    var tag := if HasPrefix(target, "iqn.") then "iqn." else "eui.";
    assert d[start..start + 4] == target[..4];
    forall j | 0 <= j < start && j + 4 <= |d| ensures !OccursAt(d, tag, j) {
      if j + 4 <= |portal| {
        assert d[j..j + 4] == portal[j..j + 4];
        assert !OccursAt(portal, tag, j);
      } else {
        assert d[j..j + 4][|portal| - j] == '-';
      }
    }
    if tag == "iqn." {
      IndexIs(d, "iqn.", start);
    } else {
      assert forall i :: !OccursAt(d, "iqn.", i);
      IndexIs(d, "eui.", start);
    }
  }

  /**
   * Round trip of the device names the plugin builds: <portal>-<target>-lun-<lun> is taken
   * apart into exactly that portal and target, when the portal has no "-" and no target
   * marker, the target is an IQN or an EUI name (an EUI device holding no "iqn."),
   * and the lun has no "-".
   */
  lemma ExtractPortalAndIqnOfLayout(portal: string, target: string, lun: string)
    requires '-' !in portal && !Contains(portal, "iqn.") && !Contains(portal, "eui.")
    requires '-' !in lun
    requires HasPrefix(target, "iqn.")
          || (HasPrefix(target, "eui.") && !Contains(portal + "-" + target + "-lun-" + lun, "iqn."))
    ensures ExtractPortalAndIqn(portal + "-" + target + "-lun-" + lun) == Ok(PortalAndIqn(portal, target))
  {
    var device := portal + "-" + target + "-lun-" + lun;
    var start := |portal| + 1;
    var lunAt := start + |target|;
    assert device == portal + "-" + (target + "-lun-" + lun);
    IndexOfSingle(portal, '-', target + "-lun-" + lun);
    assert device == portal + "-" + target + ("-lun-" + lun);
    TargetStartOfLayout(portal, target, "-lun-" + lun);
    LastLunMarker(portal + "-" + target, lun);
    assert device[..|portal|] == portal;
    assert device[start..lunAt] == target;
  }

  /**
   * Round trip of the mount paths the plugin builds: <dir>/<connection>-lun-<lun> gives the
   * device <connection>-lun-<lun> and the prefix <dir>/<connection>, when the connection
   * and the lun hold no "/" and the lun no "-".
   */
  lemma ExtractDeviceAndPrefixOfLayout(dir: string, connection: string, lun: string)
    requires '/' !in connection && '/' !in lun && '-' !in lun
    ensures var device := connection + "-lun-" + lun;
      ExtractDeviceAndPrefix(dir + "/" + device) == Ok(DeviceAndPrefix(device, dir + "/" + connection))
  {
    LayoutMarkers(dir, connection, lun);
    LayoutSlices(dir, connection, lun);
    ExtractDeviceAndPrefixAt(dir + "/" + (connection + "-lun-" + lun), |dir|, |dir| + 1 + |connection|);
  }

  /** Where the last "/" and the last "-lun-" of such a mount path are. */
  lemma LayoutMarkers(dir: string, connection: string, lun: string)
    requires '/' !in connection && '/' !in lun && '-' !in lun
    ensures var s := dir + "/" + (connection + "-lun-" + lun);
      LastIndex(s, "/") == |dir| && LastIndex(s, "-lun-") == |dir| + 1 + |connection|
  {
    var device := connection + "-lun-" + lun;
    assert '/' !in device by { forall c | c in device ensures c != '/' { assert c in connection || c in "-lun-" || c in lun; } }
    IndexOfSingleLast(dir, '/', device);
    assert dir + "/" + device == (dir + "/" + connection) + "-lun-" + lun;
    LastLunMarker(dir + "/" + connection, lun);
  }

  /** The pieces of such a mount path after its "/" and before its "-lun-". */
  lemma LayoutSlices(dir: string, connection: string, lun: string)
    ensures var s := dir + "/" + (connection + "-lun-" + lun);
      s[|dir| + 1..] == connection + "-lun-" + lun && s[..|dir| + 1 + |connection|] == dir + "/" + connection
  {
  }

  /** The result once both markers have been found. */
  lemma ExtractDeviceAndPrefixAt(s: string, slash: int, lun: int)
    requires LastIndex(s, "/") == slash >= 0 && LastIndex(s, "-lun-") == lun >= 0
    ensures ExtractDeviceAndPrefix(s) == Ok(DeviceAndPrefix(s[slash + 1..], s[..lun]))
  {
  }

  /** strings.LastIndex of a character that only occurs before `b`. */
  lemma IndexOfSingleLast(a: string, c: char, b: string)
    requires c !in b
    ensures LastIndex(a + [c] + b, [c]) == |a|
  {
    var s := a + [c] + b;
    assert s[|a|..|a| + 1] == [c];
    forall j | |a| < j && j + 1 <= |s| ensures !OccursAt(s, [c], j) {
      assert s[j..j + 1] == [b[j - |a| - 1]];
      assert b[j - |a| - 1] in b;
    }
    LastIndexIs(s, [c], |a|);
  }

  // ---------------------------------------------------------------------------
  // removeDuplicate

  predicate NoDuplicates<T(==)>(s: seq<T>)
  {
    forall i, j :: 0 <= i < j < |s| ==> s[i] != s[j]
  }

  /** The position of the first occurrence of `x` in `s`. */
  function FirstIndexOf<T(==)>(s: seq<T>, x: T): (k: nat)
    requires x in s
    ensures k < |s| && s[k] == x
    ensures forall i :: 0 <= i < k ==> s[i] != x
  {
    if s[0] == x then 0 else 1 + FirstIndexOf(s[1..], x)
  }

  /**
   * removeDuplicate: the portals of `s` without repeats, each kept where it first occurs.
   */
  function RemoveDuplicate(s: seq<string>): (r: seq<string>)
    ensures forall x :: x in r <==> x in s
    ensures NoDuplicates(r)
  {
    if |s| == 0 then []
    else
      var r := RemoveDuplicate(s[..|s| - 1]);
      assert forall x :: x in s <==> x in s[..|s| - 1] || x == s[|s| - 1] by {
        assert s == s[..|s| - 1] + [s[|s| - 1]];
      }
      if s[|s| - 1] in r then r else r + [s[|s| - 1]]
  }

  lemma FirstIndexOfPrefix<T>(s: seq<T>, n: nat, x: T)
    requires n <= |s| && x in s[..n]
    ensures FirstIndexOf(s, x) == FirstIndexOf(s[..n], x)
  {
    assert forall i :: 0 <= i < n ==> s[..n][i] == s[i];
  }

  /** The elements of `r`, all taken from `s`, are ordered by their first occurrence in `s`. */
  predicate InFirstSeenOrder(s: seq<string>, r: seq<string>)
    requires forall x :: x in r ==> x in s
  {
    forall i, j :: 0 <= i < j < |r| ==> FirstIndexOf(s, r[i]) < FirstIndexOf(s, r[j])
  }

  /** The kept portals appear in the order of their first occurrences in `s`. */
  lemma {:induction false} RemoveDuplicateKeepsFirstOrder(s: seq<string>)
    ensures InFirstSeenOrder(s, RemoveDuplicate(s))
  {
    if |s| > 0 {
      var n := |s| - 1;
      var s' := s[..n];
      var r' := RemoveDuplicate(s');
      RemoveDuplicateKeepsFirstOrder(s');
      forall i | 0 <= i < |r'|
        ensures r'[i] in s' && FirstIndexOf(s, r'[i]) == FirstIndexOf(s', r'[i]) < n
      {
        assert r'[i] in r';
        FirstIndexOfPrefix(s, n, r'[i]);
      }
      var r := RemoveDuplicate(s);
      if s[n] !in r' {
        assert r == r' + [s[n]];
        assert s[n] !in s';
        assert forall i :: 0 <= i < n ==> s[i] == s'[i];
        assert FirstIndexOf(s, s[n]) == n;
        forall i, j | 0 <= i < j < |r| ensures FirstIndexOf(s, r[i]) < FirstIndexOf(s, r[j]) {
          assert r[i] == r'[i];
          assert FirstIndexOf(s, r'[i]) == FirstIndexOf(s', r'[i]) < n;
          if j < |r'| {
            assert r[j] == r'[j];
            assert FirstIndexOf(s, r'[j]) == FirstIndexOf(s', r'[j]);
            assert InFirstSeenOrder(s', r');
            assert FirstIndexOf(s', r'[i]) < FirstIndexOf(s', r'[j]);
          } else {
            assert r[j] == s[n];
          }
        }
      } else {
        assert r == r';
      }
    }
  }

  /** Removing duplicates twice is the same as once. */
  lemma {:induction false} RemoveDuplicateIdempotent(s: seq<string>)
    ensures RemoveDuplicate(RemoveDuplicate(s)) == RemoveDuplicate(s)
  {
    var r := RemoveDuplicate(s);
    NoDuplicatesFixed(r);
  }

  /** A list without repeats is left as it is. */
  lemma {:induction false} NoDuplicatesFixed(s: seq<string>)
    requires NoDuplicates(s)
    ensures RemoveDuplicate(s) == s
  {
    if |s| > 0 {
      var n := |s| - 1;
      assert NoDuplicates(s[..n]);
      NoDuplicatesFixed(s[..n]);
      assert s[n] !in s[..n];
      assert s[..n] + [s[n]] == s;
    }
  }

  // ---------------------------------------------------------------------------
  // The cases of iscsi_util_test.go

  // The literals of the test file, cut into pieces short enough for the verifier to
  // inspect character by character.
  const TestPortal := "127.0.0.1:3260"
  const TestIqn := "iqn.2014-12" + ".com.example:test.tgt00"
  const TestDevicePath := TestPortal + "-" + TestIqn
  const TestPluginDir := "/var/lib/kubelet/plugins" + "/kubernetes.io/iscsi"

  lemma TestLiteralFacts()
    ensures '/' !in TestDevicePath && 'f' !in TestDevicePath && 'f' !in TestPluginDir
    ensures '-' !in TestPortal && 'q' !in TestPortal && 'e' !in TestPortal
    ensures HasPrefix(TestIqn, "iqn.")
  {
    TestIqnFacts();
    TestPortalFacts();
    assert 'f' !in "/var/lib/kubelet/plugins";
    assert 'f' !in "/kubernetes.io/iscsi";
  }

  lemma TestIqnFacts()
    ensures '/' !in TestIqn && 'f' !in TestIqn && HasPrefix(TestIqn, "iqn.")
  {
    assert '/' !in "iqn.2014-12" && '/' !in ".com.example:test.tgt00";
    assert 'f' !in "iqn.2014-12" && 'f' !in ".com.example:test.tgt00";
    assert TestIqn[..4] == "iqn.";
  }

  lemma TestPortalFacts()
    ensures '/' !in TestPortal && 'f' !in TestPortal
    ensures '-' !in TestPortal && 'q' !in TestPortal && 'e' !in TestPortal
  {
  }

  /** TestExtractDeviceAndPrefix */
  lemma ExtractDeviceAndPrefixCase()
    ensures var dir := TestPluginDir + "/iface-default";
      ExtractDeviceAndPrefix(dir + "/" + (TestDevicePath + "-lun-" + "0"))
        == Ok(DeviceAndPrefix(TestDevicePath + "-lun-" + "0", dir + "/" + TestDevicePath))
  {
    TestDeviceFacts();
    ExtractDeviceAndPrefixOfLayout(TestPluginDir + "/iface-default", TestDevicePath, "0");
  }

  lemma TestDeviceFacts()
    ensures '/' !in TestDevicePath && '/' !in TestDevicePath + "-lun-0"
  {
    TestIqnFacts();
    TestPortalFacts();
  }

  /** TestExtractIface: with and without an "iface-default" segment. */
  lemma ExtractIfaceCases()
    ensures ExtractIface(TestPluginDir + "/iface-" + "default" + "/" + (TestDevicePath + "-lun-0"))
              == ("default", true)
    ensures ExtractIface(TestPluginDir + "/" + TestDevicePath + "-lun-0") == ("", false)
  {
    ExtractIfaceDefaultCase();
    ExtractIfaceMissingCase();
  }

  lemma ExtractIfaceDefaultCase()
    ensures ExtractIface(TestPluginDir + "/iface-" + "default" + "/" + (TestDevicePath + "-lun-0"))
              == ("default", true)
  {
    TestDeviceFacts();
    ExtractIfaceOfLayout(TestPluginDir, "default", TestDevicePath + "-lun-0");
  }

  lemma ExtractIfaceMissingCase()
    ensures ExtractIface(TestPluginDir + "/" + TestDevicePath + "-lun-0") == ("", false)
  {
    TestLiteralFacts();
    var bare := TestPluginDir + "/" + TestDevicePath + "-lun-0";
    assert 'f' !in bare;
    MissingCharNoOccurrence(bare, "/iface-", 2);
    ExtractIfaceWithoutMarker(bare);
  }

  /** TestExtractPortalAndIqn, first case: an IQN target, whose date holds a "-". */
  lemma ExtractPortalAndIqnCase()
    ensures ExtractPortalAndIqn(TestDevicePath + "-lun-0") == Ok(PortalAndIqn(TestPortal, TestIqn))
  {
    TestIqnFacts();
    TestPortalFacts();
    MissingCharNoOccurrence(TestPortal, "iqn.", 1);
    MissingCharNoOccurrence(TestPortal, "eui.", 0);
    ExtractPortalAndIqnOfLayout(TestPortal, TestIqn, "0");
    assert TestPortal + "-" + TestIqn + "-lun-" + "0" == TestDevicePath + "-lun-0";
  }

  /** TestExtractPortalAndIqn, second case: an EUI target. */
  lemma ExtractPortalAndEuiCase()
    ensures ExtractPortalAndIqn(TestPortal + "-eui.02004567A425678D-lun-0")
              == Ok(PortalAndIqn(TestPortal, "eui.02004567A425678D"))
  {
    TestPortalFacts();
    MissingCharNoOccurrence(TestPortal, "iqn.", 1);
    MissingCharNoOccurrence(TestPortal, "eui.", 0);
    var eui := "eui.02004567A425678D";
    var euiDevice := TestPortal + "-" + eui + "-lun-" + "0";
    assert "-" + eui + "-lun-" + "0" == "-eui.02004567A425678D-lun-0";
    assert euiDevice == TestPortal + ("-" + eui + "-lun-" + "0");
    assert 'q' !in eui;
    assert 'q' !in euiDevice;
    MissingCharNoOccurrence(euiDevice, "iqn.", 1);
    assert HasPrefix(eui, "eui.");
    ExtractPortalAndIqnOfLayout(TestPortal, eui, "0");
  }

  /** TestRemoveDuplicate */
  lemma RemoveDuplicateCase()
    ensures RemoveDuplicate(["127.0.0.1:3260", "127.0.0.1:3260", "127.0.0.100:3260"])
              == ["127.0.0.1:3260", "127.0.0.100:3260"]
  {
    var a: string, b: string := "127.0.0.1:3260", "127.0.0.100:3260";
    var s := [a, a, b];
    assert s[..2] == [a, a];
    assert [a, a][..1] == [a];
    assert RemoveDuplicate([a]) == [a];
    assert RemoveDuplicate([a, a]) == [a];
    assert a != b by { assert a[12] != b[12]; }
  }
}
