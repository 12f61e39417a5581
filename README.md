# iSCSI volume plugin helpers, modelled in Dafny

This project models the helper layer of the Kubernetes iSCSI volume plugin (`pkg/volume/iscsi`).
That layer takes apart the paths the plugin mounts volumes at. It reads the `show` output of
`iscsiadm`, waits for a device node to appear and clones an iSCSI interface profile, undoing the
clone when an update fails. It also counts the mounts that still refer to a (portal, target) pair.

The implementation file `pkg/volume/iscsi/iscsi_util.go` is not part of this model. Every
operation is reconstructed from `pkg/volume/iscsi/iscsi_util_test.go`, and each one satisfies
every expectation that file states.

Modules, one per concern:

- `Wrappers` (`wrappers.dfy`): `Option` and `Result`, for Go's `(value, error)` returns.
- `Strings` (`strings.dfy`): the parts of Go's `strings` package the helpers use. These are
  `HasPrefix`, `Index`, `LastIndex`, `Split(s, "\n")`, `Join` and `Fields`.
- `Identifiers` (`identifiers.dfy`): `extractDeviceAndPrefix`, `extractIface`,
  `extractPortalAndIqn` and `removeDuplicate`.
- `Records` (`records.dfy`): `parseIscsiadmShow` and `extractTransportname`.
  `extractTransportname` works on the raw text with the regular expression
  `iface.transport_name = (.*)\n`.
- `Waiter` (`waiter.dfy`): `waitForPathToExistInternal`. It is an imperative retry loop that
  overwrites the caller's path in place on a glob hit.
- `Clone` (`clone.dfy`): `cloneIface`, driving a `FakeExec` command runner. The runner is a
  class that answers from a script and logs every command. Both are modelled imperatively.
- `RefCounter` (`refcounter.dfy`): `getVolCount`. It is two nested loops over the plugin
  directory.

The imperative operations are methods proved against specification functions:
- `WaitForPathToExist` against `WaitFrom`;
- `CloneIface` and `UpdateSettings` against `CloneOutcome`, `UpdateOutcome` and the ghost
  predicates `ClonedAs` / `UpdatedAs`;
- `GetVolCount` and `CountVolumes` against `VolCount`, `CountIn` and `Matching`.

The lemmas state what the tests promise about those functions.

Two behaviours are worth stating outright:

- `extractTransportname` returns `""` when the text has no `iface.transport_name = ` line
  (`pkg/volume/iscsi/iscsi_util_test.go:125-128`). An `<empty>` value gives the default `tcp`
  (lines 121-124).
- `getVolCount` counts per (portal, target) pair. Over the test's tree it counts 2 for
  `127.0.0.1:3260` and 1 for `192.168.0.1:3260` (lines 353-364).

## Model

| member | source | states |
|---|---|---|
| Identifiers.ExtractDeviceAndPrefix | pkg/volume/iscsi/iscsi_util_test.go:32-40 | fails, with the mount path in the error, exactly when the path lacks a "/" or a "-lun-"; otherwise the device is the "/"-free tail after the last "/", and the prefix ends where the last "-lun-" begins |
| Identifiers.ExtractDeviceAndPrefixOfLayout | pkg/volume/iscsi/iscsi_util_test.go:32-40 | round trip: `<dir>/<connection>-lun-<lun>` gives back the device `<connection>-lun-<lun>` and the prefix `<dir>/<connection>` |
| Identifiers.ExtractDeviceAndPrefixCase | pkg/volume/iscsi/iscsi_util_test.go:32-40 | the test's mount path yields the device `<device path>-lun-0` and the mount prefix |
| Identifiers.ExtractIface | pkg/volume/iscsi/iscsi_util_test.go:42-53 | reports no interface, with "", exactly when `.+/iface-([^/]+)/.+` matches nowhere (its `.` excludes a newline); a found name is the segment the regular expression captures: the last qualifying one on the first line that holds one; it is non-empty, "/"-free and stands between "/iface-" and "/" in the path |
| Identifiers.ExtractOnlyIface | pkg/volume/iscsi/iscsi_util_test.go:42-48 | a path whose only interface segment starts on its first line yields that segment's name |
| Identifiers.ExtractIfaceOfLayout | pkg/volume/iscsi/iscsi_util_test.go:42-48 | `<root>/iface-<name>/<device>` gives `(name, true)` for any non-empty, newline-free root and a device not starting with a newline |
| Identifiers.ExtractIfaceWithoutMarker | pkg/volume/iscsi/iscsi_util_test.go:49-52 | a path without "/iface-" gives `("", false)` |
| Identifiers.ExtractIfaceCases | pkg/volume/iscsi/iscsi_util_test.go:42-53 | the test's two paths give `("default", true)` and `("", false)` |
| Identifiers.ExtractPortalAndIqn | pkg/volume/iscsi/iscsi_util_test.go:55-66 | fails exactly when there is no "-", no "iqn." or "eui." tag, or no "-lun-" after the tag; otherwise the portal is the "-"-free text before the first "-", and the target starts at the first "iqn." (else the first "eui.") and runs up to the last "-lun-" |
| Identifiers.TargetStart | pkg/volume/iscsi/iscsi_util_test.go:55-66 | the target starts at the first "iqn."; with none, at the first "eui."; with neither, there is none |
| Identifiers.ExtractPortalAndIqnOfLayout | pkg/volume/iscsi/iscsi_util_test.go:55-66 | round trip: `<portal>-<target>-lun-<lun>` gives back that portal and target, dashes inside the target included |
| Identifiers.ExtractPortalAndIqnCase | pkg/volume/iscsi/iscsi_util_test.go:56-60 | the IQN device gives portal `127.0.0.1:3260` and target `iqn.2014-12.com.example:test.tgt00` |
| Identifiers.ExtractPortalAndEuiCase | pkg/volume/iscsi/iscsi_util_test.go:61-65 | the EUI device gives portal `127.0.0.1:3260` and target `eui.02004567A425678D` |
| Identifiers.RemoveDuplicate | pkg/volume/iscsi/iscsi_util_test.go:68-75 | the result holds exactly the portals of the input, each once |
| Identifiers.RemoveDuplicateKeepsFirstOrder | pkg/volume/iscsi/iscsi_util_test.go:68-75 | the kept portals are ordered by their first occurrence in the input |
| Identifiers.RemoveDuplicateIdempotent | pkg/volume/iscsi/iscsi_util_test.go:68-75 | removing duplicates twice equals removing them once |
| Identifiers.NoDuplicatesFixed | pkg/volume/iscsi/iscsi_util_test.go:68-75 | a list without repeats is returned unchanged |
| Identifiers.RemoveDuplicateCase | pkg/volume/iscsi/iscsi_util_test.go:69-74 | the test's three portals reduce to `127.0.0.1:3260`, `127.0.0.100:3260` |
| Strings.JoinSplitLines | pkg/volume/iscsi/iscsi_util_test.go:196-215 | the line split `parseIscsiadmShow` applies to its input loses nothing: joining the lines with "\n" gives the output back |
| Strings.SplitJoinLines | pkg/volume/iscsi/iscsi_util_test.go:196-215 | splitting newline-free lines joined by "\n" gives the lines back; `ParsePrintedRecord` and `ParsePrintedShow` rest on it |
| Strings.FieldsOfSpaceJoin | pkg/volume/iscsi/iscsi_util_test.go:196-215 | the white-space fields of single-space separated words are those words; `ClassifySettingLine` rests on it |
| Records.ClassifySettingLine | pkg/volume/iscsi/iscsi_util_test.go:160-207 | a printed `key = value` line is kept with that key and value, and skipped when the value is `<empty>` or the key is the interface name |
| Records.ClassifyOtherLine | pkg/volume/iscsi/iscsi_util_test.go:160-207 | a line not starting with `iface.` (such as the BEGIN/END markers) is skipped and leaves the parsed map as it is |
| Records.ParseFailsOnFirstMalformed | pkg/volume/iscsi/iscsi_util_test.go:208-215 | parsing fails exactly when some line is malformed, and the error carries the fields of the first malformed line |
| Records.ParseLinesContents | pkg/volume/iscsi/iscsi_util_test.go:185-207 | a successful parse holds exactly the keys of the kept setting lines, each with the value of its last line |
| Records.ParseShowKeepsNoSentinel | pkg/volume/iscsi/iscsi_util_test.go:185-194 | a parsed map never holds the interface name or an `<empty>` value, and every key starts with `iface.` |
| Records.ParsePrintedRecord | pkg/volume/iscsi/iscsi_util_test.go:160-207 | a record printed between BEGIN/END markers parses to the map of its kept settings |
| Records.ParseRenderedRecord | pkg/volume/iscsi/iscsi_util_test.go:160-207 | round trip: a printed record of distinct kept settings parses back to exactly those settings |
| Records.ParsePrintedShow | pkg/volume/iscsi/iscsi_util_test.go:228 | newline-terminated setting lines without markers parse to the map of their kept settings |
| Records.ParseRejectsLine | pkg/volume/iscsi/iscsi_util_test.go:182-183 | a single `iface.` line that is not `key = value` is rejected with its own fields |
| Records.ParseShowRecord | pkg/volume/iscsi/iscsi_util_test.go:160-194 | the test's record shape parses to `{transport, mtu}`, or `{mtu}` when the transport is `<empty>` |
| Records.ParseShowCases | pkg/volume/iscsi/iscsi_util_test.go:196-207 | the three test records parse to the three expected maps |
| Records.ParseShowRejects | pkg/volume/iscsi/iscsi_util_test.go:208-215 | `iface.iscsi_ifacename=error` and `iface.iscsi_ifacename + error` are rejected |
| Records.MatchFromMeaning | pkg/volume/iscsi/iscsi_util_test.go:92-129 | the search returns a match, the leftmost at or after its start, capturing the text up to the next newline; none means no match there |
| Records.TransportnameMeaning | pkg/volume/iscsi/iscsi_util_test.go:92-129 | the transport name is what the leftmost match captures, `tcp` when that is `<empty>`, and "" when nothing matches |
| Records.SkipLine | pkg/volume/iscsi/iscsi_util_test.go:92-112 | a leading line that cannot hold the pattern does not change the transport name |
| Records.TransportLineFirst | pkg/volume/iscsi/iscsi_util_test.go:92-124 | text starting with the transport line yields that line's value, `tcp` for `<empty>` |
| Records.TransportOfRecord | pkg/volume/iscsi/iscsi_util_test.go:93-124 | the test's record with any newline-free transport value yields that value, or `tcp` for `<empty>` |
| Records.TransportOfRecordWithout | pkg/volume/iscsi/iscsi_util_test.go:109-112 | a record without a transport line yields "" |
| Records.TransportnameTcpCase | pkg/volume/iscsi/iscsi_util_test.go:113-116 | the first test record yields `tcp` |
| Records.TransportnameCxgb4iCase | pkg/volume/iscsi/iscsi_util_test.go:117-120 | the second test record yields `cxgb4i` |
| Records.TransportnameEmptyCase | pkg/volume/iscsi/iscsi_util_test.go:121-124 | the third test record, `<empty>`, yields `tcp` |
| Waiter.DevicePath.constructor | pkg/volume/iscsi/iscsi_util_test.go:132-133 | the caller's path cell starts with the given path |
| Waiter.WaitForPathToExist | pkg/volume/iscsi/iscsi_util_test.go:131-158 | a nil path is never found; otherwise the result and the new path are those of the attempt sequence `WaitFrom` from attempt 0 on the old path, in which a stat failing with an error other than "not exist" ends the wait at once, not found |
| Waiter.NoRetriesNotFound | pkg/volume/iscsi/iscsi_util_test.go:131-158 | with no attempts allowed the path is not found and not changed |
| Waiter.TcpUsesOnlyStat | pkg/volume/iscsi/iscsi_util_test.go:136-152 | with transport `tcp` the glob is never consulted and the path never rewritten |
| Waiter.OtherUsesOnlyGlob | pkg/volume/iscsi/iscsi_util_test.go:140-148 | with any other transport the stat is never consulted |
| Waiter.TcpFoundIff | pkg/volume/iscsi/iscsi_util_test.go:136-143 | with `tcp` the path is found exactly when some attempt sees it present after only absent ones, so a stat failing with an error other than "not exist" ends the wait, not found |
| Waiter.GlobFoundFirstMatch | pkg/volume/iscsi/iscsi_util_test.go:145-157 | otherwise it is found exactly when some attempt's glob matches, and the path becomes that first attempt's first match; unfound, the path is unchanged |
| Waiter.PresentPathIdempotent | pkg/volume/iscsi/iscsi_util_test.go:136-139 | a path present at once is found unchanged, and found again when asked again |
| Clone.CommandLine | pkg/volume/iscsi/iscsi_util_test.go:222-234 | every command runs `iscsiadm -m iface -I <iface> -o <op>` on its own interface, the op word naming its kind (`show`, `new`, `update`, `delete`); an update adds `-n <key> -v <value>` and the others nothing |
| Clone.CommandLineInjective | pkg/volume/iscsi/iscsi_util_test.go:219-240 | distinct commands have distinct argument vectors, so the runner's log of commands records exactly the invocations the fake receives |
| Clone.FakeExec.constructor | pkg/volume/iscsi/iscsi_util_test.go:219-240 | a runner starts with its script, its fallback reply and an empty call log |
| Clone.FakeExec.Run | pkg/volume/iscsi/iscsi_util_test.go:219-240 | a call is appended to the log and answered with the reply scripted for its call number |
| Clone.CloneSettings | pkg/volume/iscsi/iscsi_util_test.go:228 | the settings to copy exist exactly when the show output parses; they are the parsed keys plus the initiator name, set to the new value, and every other key keeps its parsed value |
| Clone.Updates | pkg/volume/iscsi/iscsi_util_test.go:234 | one update command per key, in key order, carrying that key's value |
| Clone.FirstFailure | pkg/volume/iscsi/iscsi_util_test.go:289-332 | the first failing reply among n calls: it fails and all before it succeed; none means all succeed |
| Clone.CloneIface | pkg/volume/iscsi/iscsi_util_test.go:218-332 | the commands it logs and its result are those of `CloneOutcome`: show, then new, then one update per setting, each setting once with its value, then a delete after a failed update |
| Clone.UpdateSettings | pkg/volume/iscsi/iscsi_util_test.go:289-332 | the update loop updates distinct keys in order; with no failure it updates every setting, otherwise it stops at the first failure and deletes the new interface |
| Clone.CloneSequence | pkg/volume/iscsi/iscsi_util_test.go:218-332 | show comes first; new is issued exactly when the show succeeded and parsed; a delete is issued exactly on an update failure, once and last; success means one update per setting and exactly when every awaited reply was ok |
| Clone.CloneRollback | pkg/volume/iscsi/iscsi_util_test.go:289-332 | success leaves the new profile; a show, parse or new failure leaves none; an update failure leaves one exactly when the compensating delete also fails |
| Clone.ShowOutputSettings | pkg/volume/iscsi/iscsi_util_test.go:228 | the test's show output yields two settings to copy: the transport and the initiator name |
| Clone.ClonedIfaceCase | pkg/volume/iscsi/iscsi_util_test.go:218-258 | the scripted run issues show, new and two updates, four calls in all, and succeeds |
| Clone.ClonedIfaceShowErrorCase | pkg/volume/iscsi/iscsi_util_test.go:260-287 | a failing show is the only call |
| Clone.ClonedIfaceUpdateErrorCase | pkg/volume/iscsi/iscsi_util_test.go:289-332 | a failing second update is followed by a delete, five calls in all, and no profile is left |
| RefCounter.Matching | pkg/volume/iscsi/iscsi_util_test.go:367-373 | the count of names matching `<portal>-<iqn>-lun-*` is at most the number of names, zero exactly when none matches, full exactly when all do |
| RefCounter.CountIn | pkg/volume/iscsi/iscsi_util_test.go:334-392 | the count over the plugin directory fails exactly when some interface directory cannot be read |
| RefCounter.GetVolCount | pkg/volume/iscsi/iscsi_util_test.go:334-392 | the loop returns `VolCount`: 0 for a missing directory, an error for an unreadable one, else the count over its entries |
| RefCounter.CountVolumes | pkg/volume/iscsi/iscsi_util_test.go:367-373 | the inner loop counts exactly the matching names of one interface directory |
| RefCounter.CountAppend | pkg/volume/iscsi/iscsi_util_test.go:367-373 | the count over two runs of entries is the first error, or else the sum of the two counts |
| RefCounter.CountSwap | pkg/volume/iscsi/iscsi_util_test.go:367-373 | without read errors the order of the interface directories does not change the count |
| RefCounter.FirstUnlistedReported | pkg/volume/iscsi/iscsi_util_test.go:334-392 | the error names the first interface directory that cannot be read |
| RefCounter.CountZeroIff | pkg/volume/iscsi/iscsi_util_test.go:341-352 | without read errors the count is 0 exactly when no interface directory holds a volume of the pair |
| RefCounter.MissingCountsNothing | pkg/volume/iscsi/iscsi_util_test.go:334-392 | a missing plugin directory counts 0, without error |
| RefCounter.CountedNameReadsBack | pkg/volume/iscsi/iscsi_util_test.go:367-373 | a counted name with a dash-free lun is read back by `ExtractPortalAndIqn` as that portal and target |
| RefCounter.VolumeNameCounts | pkg/volume/iscsi/iscsi_util_test.go:367-373 | the mount directory of a volume counts for its own portal and target |
| RefCounter.PortalMismatch | pkg/volume/iscsi/iscsi_util_test.go:341-346 | a portal differing at some position shares no volume |
| RefCounter.TargetMismatch | pkg/volume/iscsi/iscsi_util_test.go:347-352 | under the same portal, a target differing at some position shares no volume |
| RefCounter.FixtureCount | pkg/volume/iscsi/iscsi_util_test.go:394-413 | the count over the test's tree is one term per volume directory |
| RefCounter.WrongPortalCase | pkg/volume/iscsi/iscsi_util_test.go:341-346 | "wrong portal, no volumes": count 0 |
| RefCounter.WrongTargetCase | pkg/volume/iscsi/iscsi_util_test.go:347-352 | "wrong iqn, no volumes": count 0 |
| RefCounter.SingleVolumeCase | pkg/volume/iscsi/iscsi_util_test.go:353-358 | "single volume": count 1 |
| RefCounter.TwoVolumesCase | pkg/volume/iscsi/iscsi_util_test.go:359-364 | "two volumes": the same target through two interfaces counts 2 |

## Left out

- `pkg/volume/iscsi/iscsi_util.go` is not part of this model. Each operation is reconstructed
  so that it meets every expectation of the test file.
- `pkg/registry/flowcontrol/prioritylevelconfiguration/storage/storage.go` belongs to an
  unrelated API registry and is not modelled.
- Files, clocks and processes: the file system, `os.Stat`, `filepath.Glob`, `ioutil.ReadDir`
  and command execution become parameters or values. These are the probe functions of
  `Waiter`, the scripted `FakeExec` and the `PluginDir` tree.
- Waiter.WaitForPathToExist: the one-second sleep between attempts is not modelled. The
  stat/glob probes take the attempt number instead, so the world may change between attempts.
- Clone.UpdateSettings: Go's map iteration order is a nondeterministic choice (`:|`). The
  contract therefore states the commands by kind, and the keys through a witness sequence
  rather than one fixed order.
- Clone.CloneIface: the error result is a `CloneError` kind rather than a formatted message. A
  failure of the compensating delete is not reported; `CloneRollback` states what it leaves
  behind.
- Clone.CloneIface: these are not modelled:
  - the guard against cloning an interface onto itself;
  - distinguishing exit statuses of `iscsiadm -o new`; any failure ends the clone.
- RefCounter.IsVolumeOf: glob metacharacters inside the portal or target name are not
  interpreted. The `*` of `<portal>-<iqn>-lun-*` is a match of any rest of the name.
- RefCounter.GetVolCount: the tree is a listing read once, in directory order. Races with
  concurrent attach/detach are out of scope.
- Records.ExtractTransportname: the regular expression is modelled for this one pattern, not
  in general. The `.` of `iface.` is the regular expression's any-character.
- Identifiers.ExtractIface: the regular expression `.+/iface-([^/]+)/.+` is modelled directly,
  not by a general matcher. The match is unanchored and leftmost, so it lies on the first line
  holding a qualifying segment; the greedy leading `.+` makes the last such segment on that
  line win.
- Logging (`klog`) and error message texts are left out.
