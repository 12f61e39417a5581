/**
 * cloneIface: copy the settings of one iSCSI interface (the "init" interface) into a new
 * interface profile by a fixed sequence of iscsiadm invocations:
 *
 *   show the init interface, create the new one, update one setting at a time, and delete
 *   the new interface again if an update fails.
 *
 * The command runner is the scripted fake the tests use: it answers the n-th call with the
 * n-th scripted reply (or a fixed reply beyond the script) and logs every call.
 */
module Clone {
  import opened Wrappers
  import Records

  /** The four iscsiadm invocations, `iscsiadm -m iface -I <iface> -o <op> ...`. */
  datatype Command =
    | Show(iface: string)
    | New(iface: string)
    | Update(iface: string, key: string, value: string)
    | Delete(iface: string)

  /** The program and argument vector of a command. */
  function CommandLine(c: Command): (argv: seq<string>)
    ensures |argv| >= 7 && argv[..6] == ["iscsiadm", "-m", "iface", "-I", c.iface, "-o"]
    ensures c.Show? <==> argv[6] == "show"
    ensures c.New? <==> argv[6] == "new"
    ensures c.Update? <==> argv[6] == "update"
    ensures c.Delete? <==> argv[6] == "delete"
    ensures c.Update? ==> argv[7..] == ["-n", c.key, "-v", c.value]
    ensures !c.Update? ==> |argv| == 7
  {
    match c
    case Show(i) => ["iscsiadm", "-m", "iface", "-I", i, "-o", "show"]
    case New(i) => ["iscsiadm", "-m", "iface", "-I", i, "-o", "new"]
    case Update(i, k, v) => ["iscsiadm", "-m", "iface", "-I", i, "-o", "update", "-n", k, "-v", v]
    case Delete(i) => ["iscsiadm", "-m", "iface", "-I", i, "-o", "delete"]
  }

  /** Distinct commands have distinct argument vectors, so the log of commands loses nothing. */
  lemma CommandLineInjective(a: Command, b: Command)
    requires CommandLine(a) == CommandLine(b)
    ensures a == b
  {
    var x, y := CommandLine(a), CommandLine(b);
    assert x[4] == a.iface && y[4] == b.iface;
    if a.Update? {
      assert x[7..][1] == a.key && y[7..][1] == b.key;
      assert x[7..][3] == a.value && y[7..][3] == b.value;
    }
  }

  /** What a command returns: its combined output, and whether it succeeded. */
  datatype Reply = Reply(output: string, ok: bool)

  /** The reply to the n-th call: the scripted one, or `fallback` past the end of the script. */
  function ReplyOf(script: seq<Reply>, fallback: Reply, n: nat): Reply
  {
    if n < |script| then script[n] else fallback
  }

  /** A command runner that answers from a script and logs every command it is given. */
  class FakeExec {
    const script: seq<Reply>
    const fallback: Reply
    var log: seq<Command>

    constructor (script: seq<Reply>, fallback: Reply)
      ensures this.script == script && this.fallback == fallback && log == []
    {
      this.script := script;
      this.fallback := fallback;
      log := [];
    }

    /** Run one command: log it and answer with the reply scripted for this call. */
    method Run(c: Command) returns (r: Reply)
      modifies this
      ensures log == old(log) + [c]
      ensures r == ReplyOf(script, fallback, |old(log)|)
    {
      r := ReplyOf(script, fallback, |log|);
      log := log + [c];
    }
  }

  /** Why cloning failed. */
  datatype CloneError = ShowFailed | ParseFailed(error: Records.ParseError) | NewFailed | UpdateFailed

  /** The settings the new interface gets: the init interface's, with the initiator name replaced. */
  function CloneSettings(showOutput: string, initiatorName: string): (r: Result<map<string, string>, Records.ParseError>)
    ensures r.Ok? <==> Records.ParseIscsiadmShow(showOutput).Ok?
    ensures r.Ok? ==> r.value.Keys == Records.ParseIscsiadmShow(showOutput).value.Keys + {Records.InitiatorNameKey}
    ensures r.Ok? ==> r.value[Records.InitiatorNameKey] == initiatorName
    ensures r.Ok? ==> forall k :: k in r.value && k != Records.InitiatorNameKey ==>
                        r.value[k] == Records.ParseIscsiadmShow(showOutput).value[k]
  {
    match Records.ParseIscsiadmShow(showOutput)
    case Ok(params) => Ok(params[Records.InitiatorNameKey := initiatorName])
    case Err(e) => Err(e)
  }

  /** The update commands for `keys`, in that order. */
  function Updates(iface: string, settings: map<string, string>, keys: seq<string>): (cs: seq<Command>)
    requires forall k :: k in keys ==> k in settings
    ensures |cs| == |keys|
    ensures forall i :: 0 <= i < |keys| ==> cs[i] == Update(iface, keys[i], settings[keys[i]])
  {
    if |keys| == 0 then []
    else Updates(iface, settings, keys[..|keys| - 1]) + [Update(iface, keys[|keys| - 1], settings[keys[|keys| - 1]])]
  }

  predicate Distinct(keys: seq<string>)
  {
    forall i, j :: 0 <= i < j < |keys| ==> keys[i] != keys[j]
  }

  /** Distinct keys are as many as the set they form. */
  lemma {:induction false} DistinctCard(keys: seq<string>)
    requires Distinct(keys)
    ensures |set k | k in keys| == |keys|
  {
    if |keys| > 0 {
      var init := keys[..|keys| - 1];
      var last := keys[|keys| - 1];
      DistinctCard(init);
      assert (set k | k in keys) == (set k | k in init) + {last};
      assert last !in (set k | k in init) by {
        forall i | 0 <= i < |init| ensures init[i] != last {
          assert keys[i] != keys[|keys| - 1];
        }
      }
    }
  }

  // --------------------------------------------------------------- specification

  /** The kind of each command, which is all that does not depend on the order of the keys. */
  datatype Op = ShowOp | NewOp | UpdateOp | DeleteOp

  function OpOf(c: Command): Op
  {
    match c
    case Show(_) => ShowOp
    case New(_) => NewOp
    case Update(_, _, _) => UpdateOp
    case Delete(_) => DeleteOp
  }

  function Ops(cs: seq<Command>): (ops: seq<Op>)
    ensures |ops| == |cs| && forall i :: 0 <= i < |cs| ==> ops[i] == OpOf(cs[i])
  {
    seq(|cs|, i requires 0 <= i < |cs| => OpOf(cs[i]))
  }

  function Repeat(op: Op, n: nat): (ops: seq<Op>)
    ensures |ops| == n && forall i :: 0 <= i < n ==> ops[i] == op
  {
    seq(n, i => op)
  }

  /** The first of the `n` calls from call `from` on whose reply is a failure. */
  function FirstFailure(script: seq<Reply>, fallback: Reply, from: nat, n: nat): (r: Option<nat>)
    ensures r.Some? ==> r.value < n && !ReplyOf(script, fallback, from + r.value).ok
    ensures r.Some? ==> forall j :: from <= j < from + r.value ==> ReplyOf(script, fallback, j).ok
    ensures r.None? ==> forall j :: from <= j < from + n ==> ReplyOf(script, fallback, j).ok
  {
    if n == 0 then None
    else match FirstFailure(script, fallback, from, n - 1)
      case Some(k) => Some(k)
      case None => if ReplyOf(script, fallback, from + n - 1).ok then None else Some(n - 1)
  }

  /** The commands cloneIface issues (by kind) and its result, for calls numbered from `start`. */
  datatype Outcome = Outcome(ops: seq<Op>, result: Option<CloneError>)

  function CloneOutcome(script: seq<Reply>, fallback: Reply, start: nat, initiatorName: string): Outcome
  {
    var show := ReplyOf(script, fallback, start);
    if !show.ok then Outcome([ShowOp], Some(ShowFailed))
    else match CloneSettings(show.output, initiatorName)
      case Err(e) => Outcome([ShowOp], Some(ParseFailed(e)))
      case Ok(settings) =>
        if !ReplyOf(script, fallback, start + 1).ok then Outcome([ShowOp, NewOp], Some(NewFailed))
        else UpdateOutcome(script, fallback, start + 2, settings)
  }

  /** The outcome once the new interface exists: every update succeeds, or the first failing one is undone. */
  function UpdateOutcome(script: seq<Reply>, fallback: Reply, from: nat, settings: map<string, string>): Outcome
  {
    match FirstFailure(script, fallback, from, |settings.Keys|)
    case None => Outcome([ShowOp, NewOp] + Repeat(UpdateOp, |settings.Keys|), None)
    case Some(k) => Outcome([ShowOp, NewOp] + Repeat(UpdateOp, k + 1) + [DeleteOp], Some(UpdateFailed))
  }

  /**
   * After the show and new commands, one update per key (each key once, with its value),
   * followed by a delete of the new interface when an update failed; without a failure every
   * setting has been updated.
   */
  ghost predicate CopiesSettings(seg: seq<Command>, iface: string, settings: map<string, string>, failed: bool)
  {
    exists keys: seq<string> ::
      Distinct(keys) && (forall k :: k in keys ==> k in settings) && |seg| >= 2
      && (failed ==> seg[2..] == Updates(iface, settings, keys) + [Delete(iface)])
      && (!failed ==> seg[2..] == Updates(iface, settings, keys) && forall k :: k in settings ==> k in keys)
  }

  /**
   * The log `log` extends `before` by exactly the commands cloneIface issues from call number
   * |before| on, and `err` is its result: first the show of the init interface, then (once the
   * show output parses) the new interface, then the updates and the compensating delete.
   */
  ghost predicate ClonedAs(script: seq<Reply>, fallback: Reply, before: seq<Command>, log: seq<Command>,
                           initIface: string, iface: string, initiatorName: string, err: Option<CloneError>)
  {
    var start := |before|;
    var o := CloneOutcome(script, fallback, start, initiatorName);
    var show := ReplyOf(script, fallback, start);
    |log| > start && log[..start] == before
    && Ops(log[start..]) == o.ops && err == o.result
    && log[start] == Show(initIface)
    && (|log| > start + 1 ==> log[start + 1] == New(iface))
    && (show.ok && CloneSettings(show.output, initiatorName).Ok? && ReplyOf(script, fallback, start + 1).ok ==>
          CopiesSettings(log[start..], iface, CloneSettings(show.output, initiatorName).value, err.Some?))
  }

  /** cloneIface */
  method CloneIface(exec: FakeExec, initIface: string, iface: string, initiatorName: string)
    returns (err: Option<CloneError>)
    modifies exec
    ensures ClonedAs(exec.script, exec.fallback, old(exec.log), exec.log, initIface, iface, initiatorName, err)
  {
    var show := exec.Run(Show(initIface));
    if !show.ok {
      ShowFailsFirst(exec.script, exec.fallback, old(exec.log), initIface, iface, initiatorName);
      return Some(ShowFailed);
    }
    var settings := CloneSettings(show.output, initiatorName);
    if settings.Err? {
      ParseFailsFirst(exec.script, exec.fallback, old(exec.log), initIface, iface, initiatorName);
      return Some(ParseFailed(settings.error));
    }
    var params := settings.value;
    var created := exec.Run(New(iface));
    if !created.ok {
      NewFails(exec.script, exec.fallback, old(exec.log), initIface, iface, initiatorName);
      return Some(NewFailed);
    }
    ghost var keys;
    err, keys := UpdateSettings(exec, iface, params);
    UpdatesDone(exec.script, exec.fallback, old(exec.log), exec.log, initIface, iface, initiatorName, keys, err);
  }

  lemma ShowFailsFirst(script: seq<Reply>, fallback: Reply, before: seq<Command>,
                       initIface: string, iface: string, initiatorName: string)
    requires !ReplyOf(script, fallback, |before|).ok
    ensures ClonedAs(script, fallback, before, before + [Show(initIface)], initIface, iface, initiatorName, Some(ShowFailed))
  {
    SuffixOf(before, [Show(initIface)]);
  }

  lemma ParseFailsFirst(script: seq<Reply>, fallback: Reply, before: seq<Command>,
                        initIface: string, iface: string, initiatorName: string)
    requires ReplyOf(script, fallback, |before|).ok
    requires CloneSettings(ReplyOf(script, fallback, |before|).output, initiatorName).Err?
    ensures var e := CloneSettings(ReplyOf(script, fallback, |before|).output, initiatorName).error;
            ClonedAs(script, fallback, before, before + [Show(initIface)], initIface, iface, initiatorName, Some(ParseFailed(e)))
  {
    SuffixOf(before, [Show(initIface)]);
  }

  lemma NewFails(script: seq<Reply>, fallback: Reply, before: seq<Command>,
                 initIface: string, iface: string, initiatorName: string)
    requires ReplyOf(script, fallback, |before|).ok
    requires CloneSettings(ReplyOf(script, fallback, |before|).output, initiatorName).Ok?
    requires !ReplyOf(script, fallback, |before| + 1).ok
    ensures ClonedAs(script, fallback, before, before + [Show(initIface)] + [New(iface)], initIface, iface, initiatorName,
                     Some(NewFailed))
  {
    assert before + [Show(initIface)] + [New(iface)] == before + [Show(initIface), New(iface)];
    SuffixOf(before, [Show(initIface), New(iface)]);
  }

  /** The updates (and the delete after a failed one) complete the outcome. */
  lemma UpdatesDone(script: seq<Reply>, fallback: Reply, before: seq<Command>, log: seq<Command>,
                    initIface: string, iface: string, initiatorName: string, keys: seq<string>, err: Option<CloneError>)
    requires ReplyOf(script, fallback, |before|).ok
    requires CloneSettings(ReplyOf(script, fallback, |before|).output, initiatorName).Ok?
    requires ReplyOf(script, fallback, |before| + 1).ok
    requires var params := CloneSettings(ReplyOf(script, fallback, |before|).output, initiatorName).value;
             UpdatedAs(script, fallback, before + [Show(initIface)] + [New(iface)], log, iface, params, keys, err)
    ensures ClonedAs(script, fallback, before, log, initIface, iface, initiatorName, err)
  {
    var params := CloneSettings(ReplyOf(script, fallback, |before|).output, initiatorName).value;
    UpdatePhase(script, fallback, before, log, initIface, iface, params, keys, err);
  }

  /**
   * What the update loop leaves behind, from log `mid` on: distinct keys of `params` updated in
   * order, every one of them when no reply fails, and otherwise up to the first failing one,
   * followed by a delete of `iface`.
   */
  ghost predicate UpdatedAs(script: seq<Reply>, fallback: Reply, mid: seq<Command>, log: seq<Command>,
                            iface: string, params: map<string, string>, keys: seq<string>, err: Option<CloneError>)
  {
    var f := FirstFailure(script, fallback, |mid|, |params.Keys|);
    Distinct(keys) && (forall k :: k in keys ==> k in params)
    && (f.None? ==> err == None && (forall k :: k in params ==> k in keys) && |keys| == |params.Keys|
                    && log == mid + Updates(iface, params, keys))
    && (f.Some? ==> err == Some(UpdateFailed) && |keys| == f.value + 1
                    && log == mid + Updates(iface, params, keys) + [Delete(iface)])
  }

  lemma UpdatePhase(script: seq<Reply>, fallback: Reply, before: seq<Command>, log: seq<Command>,
                    initIface: string, iface: string, params: map<string, string>, keys: seq<string>, err: Option<CloneError>)
    requires UpdatedAs(script, fallback, before + [Show(initIface)] + [New(iface)], log, iface, params, keys, err)
    ensures var start := |before|;
            var o := UpdateOutcome(script, fallback, start + 2, params);
            |log| > start + 1 && log[..start] == before && log[start] == Show(initIface) && log[start + 1] == New(iface)
            && Ops(log[start..]) == o.ops && err == o.result
            && CopiesSettings(log[start..], iface, params, err.Some?)
  {
    assert before + [Show(initIface)] + [New(iface)] == before + [Show(initIface), New(iface)];
    if FirstFailure(script, fallback, |before| + 2, |params.Keys|).Some? {
      UpdatePhaseFailed(script, fallback, before, log, initIface, iface, params, keys);
    } else {
      UpdatePhaseDone(script, fallback, before, log, initIface, iface, params, keys);
    }
  }

  /** The update phase stopped at a failed update and deleted the new interface. */
  lemma UpdatePhaseFailed(script: seq<Reply>, fallback: Reply, before: seq<Command>, log: seq<Command>,
                          initIface: string, iface: string, params: map<string, string>, keys: seq<string>)
    requires Distinct(keys) && (forall k :: k in keys ==> k in params)
    requires FirstFailure(script, fallback, |before| + 2, |params.Keys|) == Some(|keys| - 1)
    requires log == before + [Show(initIface), New(iface)] + Updates(iface, params, keys) + [Delete(iface)]
    ensures var start := |before|;
            var o := UpdateOutcome(script, fallback, start + 2, params);
            |log| > start + 1 && log[..start] == before && log[start] == Show(initIface) && log[start + 1] == New(iface)
            && Ops(log[start..]) == o.ops && Some(UpdateFailed) == o.result
            && CopiesSettings(log[start..], iface, params, true)
  {
    var issued := [Show(initIface), New(iface)] + Updates(iface, params, keys) + [Delete(iface)];
    assert log == before + issued;
    Phase(before, log, issued);
    FailedUpdates(script, fallback, |before| + 2, initIface, iface, params, keys);
  }

  /** The update phase issued every update. */
  lemma UpdatePhaseDone(script: seq<Reply>, fallback: Reply, before: seq<Command>, log: seq<Command>,
                        initIface: string, iface: string, params: map<string, string>, keys: seq<string>)
    requires Distinct(keys) && (forall k :: k in keys ==> k in params)
    requires (forall k :: k in params ==> k in keys) && |keys| == |params.Keys|
    requires FirstFailure(script, fallback, |before| + 2, |params.Keys|) == None
    requires log == before + [Show(initIface), New(iface)] + Updates(iface, params, keys)
    ensures var start := |before|;
            var o := UpdateOutcome(script, fallback, start + 2, params);
            |log| > start + 1 && log[..start] == before && log[start] == Show(initIface) && log[start + 1] == New(iface)
            && Ops(log[start..]) == o.ops && None == o.result
            && CopiesSettings(log[start..], iface, params, false)
  {
    var issued := [Show(initIface), New(iface)] + Updates(iface, params, keys);
    Phase(before, log, issued);
    CompletedUpdates(script, fallback, |before| + 2, initIface, iface, params, keys);
  }

  /** The commands of a phase, read back from the log it extends. */
  lemma Phase(before: seq<Command>, log: seq<Command>, issued: seq<Command>)
    requires log == before + issued && |issued| >= 2
    ensures |log| > |before| + 1 && log[..|before|] == before && log[|before|..] == issued
    ensures log[|before|] == issued[0] && log[|before| + 1] == issued[1]
  {
  }

  lemma FailedUpdates(script: seq<Reply>, fallback: Reply, from: nat, initIface: string, iface: string,
                      params: map<string, string>, keys: seq<string>)
    requires Distinct(keys) && (forall k :: k in keys ==> k in params)
    requires FirstFailure(script, fallback, from, |params.Keys|) == Some(|keys| - 1)
    ensures var issued := [Show(initIface), New(iface)] + Updates(iface, params, keys) + [Delete(iface)];
            Ops(issued) == UpdateOutcome(script, fallback, from, params).ops
            && CopiesSettings(issued, iface, params, true)
  {
    FailedOps(initIface, iface, params, keys);
    UpdateOutcomeFailed(script, fallback, from, params, |keys|);
    FailedCopies(initIface, iface, params, keys);
  }

  lemma FailedOps(initIface: string, iface: string, params: map<string, string>, keys: seq<string>)
    requires forall k :: k in keys ==> k in params
    ensures Ops([Show(initIface), New(iface)] + Updates(iface, params, keys) + [Delete(iface)])
            == [ShowOp, NewOp] + Repeat(UpdateOp, |keys|) + [DeleteOp]
  {
    OpsOfRun(initIface, iface, params, keys, [Delete(iface)]);
    OpsSingle(Delete(iface));
  }

  lemma OpsSingle(c: Command)
    ensures Ops([c]) == [OpOf(c)]
  {
    assert Ops([c])[0] == OpOf([c][0]);
  }

  lemma UpdateOutcomeFailed(script: seq<Reply>, fallback: Reply, from: nat, params: map<string, string>, tried: nat)
    requires FirstFailure(script, fallback, from, |params.Keys|) == Some(tried - 1)
    ensures UpdateOutcome(script, fallback, from, params).ops == [ShowOp, NewOp] + Repeat(UpdateOp, tried) + [DeleteOp]
  {
  }

  lemma FailedCopies(initIface: string, iface: string, params: map<string, string>, keys: seq<string>)
    requires Distinct(keys) && (forall k :: k in keys ==> k in params)
    ensures CopiesSettings([Show(initIface), New(iface)] + Updates(iface, params, keys) + [Delete(iface)], iface, params, true)
  {
    var ups := Updates(iface, params, keys);
    Append([Show(initIface), New(iface)], ups, Delete(iface));
    SuffixOf([Show(initIface), New(iface)], ups + [Delete(iface)]);
    CopiesWith([Show(initIface), New(iface)] + ups + [Delete(iface)], iface, params, true, keys);
  }

  lemma CompletedUpdates(script: seq<Reply>, fallback: Reply, from: nat, initIface: string, iface: string,
                         params: map<string, string>, keys: seq<string>)
    requires Distinct(keys) && (forall k :: k in keys ==> k in params)
    requires (forall k :: k in params ==> k in keys) && |keys| == |params.Keys|
    requires FirstFailure(script, fallback, from, |params.Keys|) == None
    ensures var issued := [Show(initIface), New(iface)] + Updates(iface, params, keys);
            Ops(issued) == UpdateOutcome(script, fallback, from, params).ops
            && CopiesSettings(issued, iface, params, false)
  {
    OpsOfUpdates(initIface, iface, params, keys);
    assert UpdateOutcome(script, fallback, from, params).ops == [ShowOp, NewOp] + Repeat(UpdateOp, |keys|);
    CompletedCopies(initIface, iface, params, keys);
  }

  lemma CompletedCopies(initIface: string, iface: string, params: map<string, string>, keys: seq<string>)
    requires Distinct(keys) && (forall k :: k in keys ==> k in params) && (forall k :: k in params ==> k in keys)
    ensures CopiesSettings([Show(initIface), New(iface)] + Updates(iface, params, keys), iface, params, false)
  {
    SuffixOf([Show(initIface), New(iface)], Updates(iface, params, keys));
    CopiesWith([Show(initIface), New(iface)] + Updates(iface, params, keys), iface, params, false, keys);
  }

  /** `keys` witness that `seg` copies `settings`. */
  lemma CopiesWith(seg: seq<Command>, iface: string, settings: map<string, string>, failed: bool, keys: seq<string>)
    requires Distinct(keys) && (forall k :: k in keys ==> k in settings) && |seg| >= 2
    requires failed ==> seg[2..] == Updates(iface, settings, keys) + [Delete(iface)]
    requires !failed ==> seg[2..] == Updates(iface, settings, keys) && forall k :: k in settings ==> k in keys
    ensures CopiesSettings(seg, iface, settings, failed)
  {
  }

  lemma OpsOfUpdates(initIface: string, iface: string, settings: map<string, string>, keys: seq<string>)
    requires forall k :: k in keys ==> k in settings
    ensures Ops([Show(initIface), New(iface)] + Updates(iface, settings, keys))
            == [ShowOp, NewOp] + Repeat(UpdateOp, |keys|)
  {
  }

  /**
   * The update loop of cloneIface: set every setting on the new interface `iface`, one call per
   * key in some order, and on the first failing call delete `iface` and stop. `keys` are the
   * keys updated, in the order they were tried.
   */
  method UpdateSettings(exec: FakeExec, iface: string, params: map<string, string>)
    returns (err: Option<CloneError>, ghost keys: seq<string>)
    modifies exec
    ensures UpdatedAs(exec.script, exec.fallback, old(exec.log), exec.log, iface, params, keys, err)
  {
    var remaining := params.Keys;
    keys := [];
    assert exec.log == old(exec.log) + Updates(iface, params, keys);
    while remaining != {}
      invariant Updating(exec.script, exec.fallback, old(exec.log), exec.log, iface, params, keys, remaining)
      decreases |remaining|
    {
      var key :| key in remaining;
      ghost var before := exec.log;
      var r := exec.Run(Update(iface, key, params[key]));
      if !r.ok {
        ghost var updated := exec.log;
        var _ := exec.Run(Delete(iface));
        UpdateFails(exec.script, exec.fallback, old(exec.log), before, updated, exec.log, iface, params, keys, remaining, key);
        return Some(UpdateFailed), keys + [key];
      }
      UpdateSucceeds(exec.script, exec.fallback, old(exec.log), before, exec.log, iface, params, keys, remaining, key);
      keys := keys + [key];
      remaining := remaining - {key};
    }
    UpdatesComplete(exec.script, exec.fallback, old(exec.log), exec.log, iface, params, keys);
    return None, keys;
  }

  /**
   * The loop invariant of the update loop: `keys` have been updated in this order, each once and
   * each with an ok reply, and `remaining` are the keys still to do.
   */
  ghost predicate Updating(script: seq<Reply>, fallback: Reply, mid: seq<Command>, log: seq<Command>,
                           iface: string, params: map<string, string>, keys: seq<string>, remaining: set<string>)
  {
    && remaining <= params.Keys
    && (forall k :: k in keys ==> k in params && k !in remaining)
    && (forall k :: k in params ==> k in keys || k in remaining)
    && Distinct(keys)
    && log == mid + Updates(iface, params, keys)
    && FirstFailure(script, fallback, |mid|, |keys|) == None
  }

  lemma UpdateSucceeds(script: seq<Reply>, fallback: Reply, mid: seq<Command>, log: seq<Command>, log': seq<Command>,
                       iface: string, params: map<string, string>, keys: seq<string>, remaining: set<string>, key: string)
    requires Updating(script, fallback, mid, log, iface, params, keys, remaining)
    requires key in remaining && log' == log + [Update(iface, key, params[key])]
    requires ReplyOf(script, fallback, |log|).ok
    ensures Updating(script, fallback, mid, log', iface, params, keys + [key], remaining - {key})
  {
    UpdatesSnoc(iface, params, keys, key);
    Append(mid, Updates(iface, params, keys), Update(iface, key, params[key]));
    DistinctSnoc(keys, key);
    NoFailureSnoc(script, fallback, |mid|, |keys|);
    forall k | k in keys + [key] ensures k in params && k !in remaining - {key} {
      assert k in keys || k == key;
    }
  }

  /** A key not yet in a list of distinct keys keeps them distinct. */
  lemma DistinctSnoc(keys: seq<string>, key: string)
    requires Distinct(keys) && key !in keys
    ensures Distinct(keys + [key])
  {
    var ks := keys + [key];
    forall i, j | 0 <= i < j < |ks| ensures ks[i] != ks[j] {
      if j == |keys| {
        assert ks[i] == keys[i];
      } else {
        assert ks[i] == keys[i] && ks[j] == keys[j];
      }
    }
  }

  /** One more call that succeeds extends a run without failures. */
  lemma NoFailureSnoc(script: seq<Reply>, fallback: Reply, from: nat, n: nat)
    requires FirstFailure(script, fallback, from, n) == None && ReplyOf(script, fallback, from + n).ok
    ensures FirstFailure(script, fallback, from, n + 1) == None
  {
  }

  lemma UpdateFails(script: seq<Reply>, fallback: Reply, mid: seq<Command>, log: seq<Command>, log': seq<Command>,
                    log'': seq<Command>, iface: string, params: map<string, string>, keys: seq<string>,
                    remaining: set<string>, key: string)
    requires Updating(script, fallback, mid, log, iface, params, keys, remaining)
    requires key in remaining && log' == log + [Update(iface, key, params[key])] && log'' == log' + [Delete(iface)]
    requires !ReplyOf(script, fallback, |log|).ok
    ensures UpdatedAs(script, fallback, mid, log'', iface, params, keys + [key], Some(UpdateFailed))
  {
    UpdatesSnoc(iface, params, keys, key);
    Append(mid, Updates(iface, params, keys), Update(iface, key, params[key]));
    UpdateFailureOutcome(script, fallback, |mid|, params, keys, key);
  }

  lemma UpdatesComplete(script: seq<Reply>, fallback: Reply, mid: seq<Command>, log: seq<Command>,
                        iface: string, params: map<string, string>, keys: seq<string>)
    requires Updating(script, fallback, mid, log, iface, params, keys, {})
    ensures UpdatedAs(script, fallback, mid, log, iface, params, keys, None)
  {
    assert (set k | k in keys) == params.Keys;
    DistinctCard(keys);
  }

  lemma Append(prefix: seq<Command>, body: seq<Command>, c: Command)
    ensures prefix + body + [c] == prefix + (body + [c])
  {
  }

  lemma SuffixOf(prefix: seq<Command>, rest: seq<Command>)
    ensures (prefix + rest)[|prefix|..] == rest
    ensures (prefix + rest)[..|prefix|] == prefix
  {
  }

  lemma UpdatesSnoc(iface: string, settings: map<string, string>, keys: seq<string>, key: string)
    requires forall k :: k in keys ==> k in settings
    requires key in settings
    ensures Updates(iface, settings, keys + [key]) == Updates(iface, settings, keys) + [Update(iface, key, settings[key])]
  {
    assert (keys + [key])[..|keys|] == keys;
  }

  /** The kinds of the commands of a run that reaches the updates. */
  lemma OpsOfRun(initIface: string, iface: string, settings: map<string, string>, keys: seq<string>, tail: seq<Command>)
    requires forall k :: k in keys ==> k in settings
    ensures Ops([Show(initIface), New(iface)] + Updates(iface, settings, keys) + tail)
            == [ShowOp, NewOp] + Repeat(UpdateOp, |keys|) + Ops(tail)
  {
  }

  /** A failing reply after only ok ones is the first failure. */
  lemma {:induction false} FirstFailureAt(script: seq<Reply>, fallback: Reply, from: nat, n: nat, k: nat)
    requires k < n && FirstFailure(script, fallback, from, k) == None && !ReplyOf(script, fallback, from + k).ok
    ensures FirstFailure(script, fallback, from, n) == Some(k)
  {
    if k < n - 1 {
      FirstFailureAt(script, fallback, from, n - 1, k);
    }
  }

  /** A failing update after `done` succeeded ones is the first failure among the updates. */
  lemma UpdateFailureOutcome(script: seq<Reply>, fallback: Reply, from: nat, params: map<string, string>,
                             done: seq<string>, key: string)
    requires Distinct(done) && (forall k :: k in done ==> k in params) && key in params && key !in done
    requires FirstFailure(script, fallback, from, |done|) == None
    requires !ReplyOf(script, fallback, from + |done|).ok
    ensures |done| < |params.Keys|
    ensures FirstFailure(script, fallback, from, |params.Keys|) == Some(|done|)
  {
    DistinctCard(done);
    var s := set k | k in done;
    assert s + {key} <= params.Keys;
    assert |s + {key}| == |done| + 1;
    assert params.Keys == (s + {key}) + (params.Keys - (s + {key}));
    FirstFailureAt(script, fallback, from, |params.Keys|, |done|);
  }

  // ------------------------------------------------------------------ properties

  /**
   * The command sequence of cloneIface: the show always comes first; the new interface is
   * created exactly when the show succeeded and its output parsed; a delete is issued exactly
   * when an update failed, and then once, as the last command; without a failure there is one
   * update per setting; and the result is success exactly when every reply it waited for was ok.
   */
  lemma CloneSequence(script: seq<Reply>, fallback: Reply, start: nat, initiatorName: string)
    ensures var o := CloneOutcome(script, fallback, start, initiatorName);
            var show := ReplyOf(script, fallback, start);
            var settings := CloneSettings(show.output, initiatorName);
            |o.ops| > 0 && o.ops[0] == ShowOp
            && (NewOp in o.ops <==> show.ok && settings.Ok?)
            && (DeleteOp in o.ops <==> o.result == Some(UpdateFailed))
            && (DeleteOp in o.ops ==> o.ops[|o.ops| - 1] == DeleteOp && DeleteOp !in o.ops[..|o.ops| - 1])
            && (o.result == None ==> settings.Ok? && |o.ops| == 2 + |settings.value.Keys|)
            && (o.result == Some(UpdateFailed) ==> settings.Ok? && 4 <= |o.ops| <= 3 + |settings.value.Keys|)
            && (o.result == None <==>
                  show.ok && settings.Ok?
                  && forall j :: start < j < start + 2 + |settings.value.Keys| ==> ReplyOf(script, fallback, j).ok)
  {
    var show := ReplyOf(script, fallback, start);
    var settings := CloneSettings(show.output, initiatorName);
    if !show.ok || settings.Err? || !ReplyOf(script, fallback, start + 1).ok {
      EarlySequence(script, fallback, start, initiatorName);
    } else if FirstFailure(script, fallback, start + 2, |settings.value.Keys|).None? {
      CompletedSequence(script, fallback, start, initiatorName);
    } else {
      FailedSequence(script, fallback, start, initiatorName);
    }
  }

  /** The properties CloneSequence states, as one predicate for its case lemmas. */
  ghost predicate Sequenced(script: seq<Reply>, fallback: Reply, start: nat, initiatorName: string)
  {
    var o := CloneOutcome(script, fallback, start, initiatorName);
    var show := ReplyOf(script, fallback, start);
    var settings := CloneSettings(show.output, initiatorName);
    |o.ops| > 0 && o.ops[0] == ShowOp
    && (NewOp in o.ops <==> show.ok && settings.Ok?)
    && (DeleteOp in o.ops <==> o.result == Some(UpdateFailed))
    && (DeleteOp in o.ops ==> o.ops[|o.ops| - 1] == DeleteOp && DeleteOp !in o.ops[..|o.ops| - 1])
    && (o.result == None ==> settings.Ok? && |o.ops| == 2 + |settings.value.Keys|)
    && (o.result == Some(UpdateFailed) ==> settings.Ok? && 4 <= |o.ops| <= 3 + |settings.value.Keys|)
    && (o.result == None <==>
          show.ok && settings.Ok?
          && forall j :: start < j < start + 2 + |settings.value.Keys| ==> ReplyOf(script, fallback, j).ok)
  }

  /** The show, the parse or the new command failed. */
  lemma EarlySequence(script: seq<Reply>, fallback: Reply, start: nat, initiatorName: string)
    requires var show := ReplyOf(script, fallback, start);
      !show.ok || CloneSettings(show.output, initiatorName).Err? || !ReplyOf(script, fallback, start + 1).ok
    ensures Sequenced(script, fallback, start, initiatorName)
  {
    var show := ReplyOf(script, fallback, start);
    var settings := CloneSettings(show.output, initiatorName);
    if show.ok && settings.Ok? {
      assert !ReplyOf(script, fallback, start + 1).ok;
    }
  }

  /** Every update succeeded. */
  lemma CompletedSequence(script: seq<Reply>, fallback: Reply, start: nat, initiatorName: string)
    requires var show := ReplyOf(script, fallback, start);
      var settings := CloneSettings(show.output, initiatorName);
      show.ok && settings.Ok? && ReplyOf(script, fallback, start + 1).ok
      && FirstFailure(script, fallback, start + 2, |settings.value.Keys|).None?
    ensures Sequenced(script, fallback, start, initiatorName)
  {
    var show := ReplyOf(script, fallback, start);
    var n := |CloneSettings(show.output, initiatorName).value.Keys|;
    var o := CloneOutcome(script, fallback, start, initiatorName);
    assert o.ops == [ShowOp, NewOp] + Repeat(UpdateOp, n);
    assert DeleteOp !in o.ops;
  }

  /** An update failed and the new interface was deleted. */
  lemma FailedSequence(script: seq<Reply>, fallback: Reply, start: nat, initiatorName: string)
    requires var show := ReplyOf(script, fallback, start);
      var settings := CloneSettings(show.output, initiatorName);
      show.ok && settings.Ok? && ReplyOf(script, fallback, start + 1).ok
      && FirstFailure(script, fallback, start + 2, |settings.value.Keys|).Some?
    ensures Sequenced(script, fallback, start, initiatorName)
  {
    var show := ReplyOf(script, fallback, start);
    var n := |CloneSettings(show.output, initiatorName).value.Keys|;
    var k := FirstFailure(script, fallback, start + 2, n).value;
    var o := CloneOutcome(script, fallback, start, initiatorName);
    assert o == Outcome([ShowOp, NewOp] + Repeat(UpdateOp, k + 1) + [DeleteOp], Some(UpdateFailed));
    RolledBackShape(k);
    assert start < start + 2 + k < start + 2 + n && !ReplyOf(script, fallback, start + 2 + k).ok;
  }

  /** The operations of a clone whose update number k failed. */
  lemma RolledBackShape(k: nat)
    ensures var ops := [ShowOp, NewOp] + Repeat(UpdateOp, k + 1) + [DeleteOp];
      |ops| == k + 4 && ops[0] == ShowOp && NewOp in ops && DeleteOp in ops
      && ops[|ops| - 1] == DeleteOp && DeleteOp !in ops[..|ops| - 1]
  {
    var ops := [ShowOp, NewOp] + Repeat(UpdateOp, k + 1) + [DeleteOp];
    assert ops[1] == NewOp;
    assert ops[..|ops| - 1] == [ShowOp, NewOp] + Repeat(UpdateOp, k + 1);
  }


  /**
   * Whether the new interface profile is left behind by a clone with outcome `o`: it was
   * created, and it was not deleted again by a delete that succeeded.
   */
  function ProfileLeft(script: seq<Reply>, fallback: Reply, start: nat, o: Outcome): bool
  {
    NewOp in o.ops && ReplyOf(script, fallback, start + 1).ok
    && !(DeleteOp in o.ops && ReplyOf(script, fallback, start + |o.ops| - 1).ok)
  }

  /**
   * Rollback: a successful clone leaves exactly the new profile behind; a clone that fails at
   * the show, the parse or the new leaves none; one that fails at an update leaves none unless
   * the compensating delete fails as well.
   */
  lemma CloneRollback(script: seq<Reply>, fallback: Reply, start: nat, initiatorName: string)
    ensures var o := CloneOutcome(script, fallback, start, initiatorName);
            (o.result == None ==> ProfileLeft(script, fallback, start, o))
            && (o.result.Some? && o.result != Some(UpdateFailed) ==> !ProfileLeft(script, fallback, start, o))
            && (o.result == Some(UpdateFailed) ==>
                  (ProfileLeft(script, fallback, start, o) <==> !ReplyOf(script, fallback, start + |o.ops| - 1).ok))
  {
    var o := CloneOutcome(script, fallback, start, initiatorName);
    var show := ReplyOf(script, fallback, start);
    if !show.ok || CloneSettings(show.output, initiatorName).Err? {
      assert NewOp !in o.ops;
    } else if !ReplyOf(script, fallback, start + 1).ok {
    } else {
      var settings := CloneSettings(show.output, initiatorName).value;
      assert o == UpdateOutcome(script, fallback, start + 2, settings);
      RollbackOfUpdates(script, fallback, start, settings);
    }
  }

  /** Once the new interface exists, the profile is left unless a failed update was undone. */
  lemma RollbackOfUpdates(script: seq<Reply>, fallback: Reply, start: nat, settings: map<string, string>)
    requires ReplyOf(script, fallback, start + 1).ok
    ensures var o := UpdateOutcome(script, fallback, start + 2, settings);
      && (o.result == None ==> ProfileLeft(script, fallback, start, o))
      && (o.result == Some(UpdateFailed) ==>
            (ProfileLeft(script, fallback, start, o) <==> !ReplyOf(script, fallback, start + |o.ops| - 1).ok))
  {
    var o := UpdateOutcome(script, fallback, start + 2, settings);
    var f := FirstFailure(script, fallback, start + 2, |settings.Keys|);
    if f.None? {
      assert o.ops == [ShowOp, NewOp] + Repeat(UpdateOp, |settings.Keys|);
      assert o.ops[1] == NewOp;
      assert DeleteOp !in o.ops;
    } else {
      RolledBackShape(f.value);
    }
  }

  // ------------------------------------------------------------------ test cases

  /** The show output of the init interface in TestClonedIface, one setting per line. */
  const ShownSettings: seq<(string, string)> :=
    [("iface.ipaddress", Records.EmptyValue), (Records.TransportNameKey, "tcp"), (Records.InitiatorNameKey, Records.EmptyValue)]
  const ShowOutput := Records.RenderShow(ShownSettings)
  const NewIface := "192.168.1.10:pv0001"
  const NewOutput := "New interface " + NewIface + " added"
  /** Any call past the scripted ones is an error. */
  const Unexpected := Reply("", false)

  /** The settings to copy: the transport (the `<empty>` ones are dropped) and the initiator name. */
  lemma ShowOutputSettings()
    ensures CloneSettings(ShowOutput, "") == Ok(map[Records.TransportNameKey := "tcp", Records.InitiatorNameKey := ""])
    ensures |CloneSettings(ShowOutput, "").value.Keys| == 2
  {
    var tr := (Records.TransportNameKey, "tcp");
    assert Records.ParseIscsiadmShow(ShowOutput) == Ok(map[Records.TransportNameKey := "tcp"]) by {
      ShownSettingsFacts();
      Records.ParsePrintedShow(ShownSettings);
      assert Records.EntriesMap([tr]) == map[Records.TransportNameKey := "tcp"];
    }
    var m := map[Records.TransportNameKey := "tcp", Records.InitiatorNameKey := ""];
    assert m.Keys == {Records.TransportNameKey, Records.InitiatorNameKey};
  }

  lemma ShownSettingsFacts()
    ensures Records.AllPrintable(ShownSettings)
    ensures Records.KeptOnly(ShownSettings) == [(Records.TransportNameKey, "tcp")]
  {
    var ip := ("iface.ipaddress", Records.EmptyValue);
    var tr := (Records.TransportNameKey, "tcp");
    var init := (Records.InitiatorNameKey, Records.EmptyValue);
    ShownSettingsPrintable();
    Records.KeptOnlyCons(init, []);
    Records.KeptOnlyCons(tr, [init]);
    Records.KeptOnlyCons(ip, [tr, init]);
    assert [init] == [init] + [];
    assert [tr, init] == [tr] + [init];
    assert ShownSettings == [ip] + [tr, init];
  }

  lemma ShownSettingsPrintable()
    ensures Records.AllPrintable(ShownSettings)
  {
    Records.KeyFacts();
    assert "iface.ipaddress"[..6] == Records.SettingPrefix;
    assert Records.Token("iface.ipaddress") && Records.Token("tcp");
  }

  const ClonedScript := [Reply(ShowOutput, true), Reply(NewOutput, true), Reply("", true), Reply("", true)]
  const UpdateErrorScript :=
    [Reply(ShowOutput, true), Reply(NewOutput, true), Reply("", true), Reply("", false), Reply("", true)]

  /** TestClonedIface: show, new and two updates, four calls in all. */
  lemma ClonedIfaceCase()
    ensures CloneOutcome(ClonedScript, Unexpected, 0, "") == Outcome([ShowOp, NewOp, UpdateOp, UpdateOp], None)
  {
    ShowOutputSettings();
    assert FirstFailure(ClonedScript, Unexpected, 2, 2) == None;
    assert Repeat(UpdateOp, 2) == [UpdateOp, UpdateOp];
  }

  /** TestClonedIfaceShowError: the failing show is the only call. */
  lemma ClonedIfaceShowErrorCase()
    ensures CloneOutcome([], Reply("", false), 0, "") == Outcome([ShowOp], Some(ShowFailed))
  {
  }

  /** TestClonedIfaceUpdateError: the second update fails and the new interface is deleted, five calls in all. */
  lemma ClonedIfaceUpdateErrorCase()
    ensures CloneOutcome(UpdateErrorScript, Unexpected, 0, "")
            == Outcome([ShowOp, NewOp, UpdateOp, UpdateOp, DeleteOp], Some(UpdateFailed))
    ensures !ProfileLeft(UpdateErrorScript, Unexpected, 0, CloneOutcome(UpdateErrorScript, Unexpected, 0, ""))
  {
    ShowOutputSettings();
    assert FirstFailure(UpdateErrorScript, Unexpected, 2, 1) == None;
    assert FirstFailure(UpdateErrorScript, Unexpected, 2, 2) == Some(1);
    assert Repeat(UpdateOp, 2) == [UpdateOp, UpdateOp];
  }

  /** TestClonedIface, run against the scripted command runner: four calls. */
  method TestClonedIface()
  {
    var exec := new FakeExec(ClonedScript, Unexpected);
    var err := CloneIface(exec, "", NewIface, "");
    ClonedIfaceCase();
    assert err == None && |exec.log| == 4;
    assert exec.log[0] == Show("") && exec.log[1] == New(NewIface);
    assert CommandLine(exec.log[0]) == ["iscsiadm", "-m", "iface", "-I", "", "-o", "show"];
    assert CommandLine(exec.log[1]) == ["iscsiadm", "-m", "iface", "-I", NewIface, "-o", "new"];
  }

  /** TestClonedIfaceShowError: one call. */
  method TestClonedIfaceShowError()
  {
    var exec := new FakeExec([], Reply("", false));
    var err := CloneIface(exec, "", NewIface, "");
    ClonedIfaceShowErrorCase();
    assert err == Some(ShowFailed) && |exec.log| == 1;
  }

  /** TestClonedIfaceUpdateError: five calls, the last one deleting the new interface. */
  method TestClonedIfaceUpdateError()
  {
    var exec := new FakeExec(UpdateErrorScript, Unexpected);
    var err := CloneIface(exec, "", NewIface, "");
    ClonedIfaceUpdateErrorCase();
    assert err == Some(UpdateFailed) && |exec.log| == 5;
    assert exec.log[4] == Delete(NewIface);
    assert CommandLine(exec.log[4]) == ["iscsiadm", "-m", "iface", "-I", NewIface, "-o", "delete"];
  }
}
