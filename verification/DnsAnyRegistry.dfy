/**
What a call does from any registry whatever, with backups left over from elsewhere
or lists gone missing: exactly when a failing call leaves everything as it was, and
exactly which interfaces can lose a name-server list.
 */
module DnsAnyRegistry {
  import opened NameServers
  import opened Options
  import opened Dns
  import opened DnsRuns

  /** What a failed transaction leaves at a position it touched. */
  lemma FailedAt(op: Operation, registry: Registry, names: seq<string>, faults: Faults, k: nat)
    requires AllReady(op, registry, names)
    requires var p := Forward(op, registry, names, faults); !p.ok && k < |p.touched| <= |names|
    ensures var p := Forward(op, registry, names, faults);
            var t := Try(op, registry[names[k]], FaultAt(faults, names[k]));
            && (t.ok <==> k < |p.touched| - 1)
            && names[k] in p.touched
            && Transact(op, registry, names, faults).registry[names[k]] == Undo(op, t.state)
  {
    hide Forward, Try, Undo, Ready;
    ForwardFrame(op, registry, names, faults);
    var p := Forward(op, registry, names, faults);
    assert p.touched[k] == names[k] && Tried(op, registry, names, faults, p, k);
  }

  // ----- subversion -----

  /** An interface that subversion comes to and refuses to change. */
  predicate Refused(i: Interface)
  {
    Movable(i.nameServer) && MakesNoSense(i.nameServer.value)
  }

  /** When subverting an interface succeeds. */
  lemma SubvertSucceeds(i: Interface, fault: Fault)
    requires Ready(Subversion, i)
    ensures Try(Subversion, i, fault).ok <==> !Movable(i.nameServer) || (fault.NoFault? && !Refused(i))
  {
  }

  /** However far subverting an interface got, rolling it back gives it back exactly if it had no backup. */
  lemma SubvertThenRollBack(i: Interface, fault: Fault)
    requires Ready(Subversion, i)
    ensures Undo(Subversion, Try(Subversion, i, fault).state) == i <==> i.backup.None?
  {
  }

  /**
  No interface with a backup is itself still to be subverted, or comes before one
  that is, except behind one that subversion refuses and so never gets past.
   */
  predicate SubvertSafe(registry: Registry, names: seq<string>)
    requires AllReady(Subversion, registry, names)
  {
    forall p, q ::
      0 <= p <= q < |names| && registry[names[p]].backup.Some? && Movable(registry[names[q]].nameServer) ==>
        exists k :: 0 <= k < p && Refused(registry[names[k]])
  }

  lemma RefusedIsMovable(i: Interface)
    requires Refused(i)
    ensures Movable(i.nameServer)
  {
  }

  /** Under that condition a pass that fails has met no backup. */
  lemma FailedPassMetNoBackup(registry: Registry, names: seq<string>, faults: Faults, k: nat)
    requires AllReady(Subversion, registry, names) && SubvertSafe(registry, names)
    requires var p := Forward(Subversion, registry, names, faults); !p.ok && k < |p.touched| <= |names|
    ensures registry[names[k]].backup.None?
  {
    hide Movable, Refused, Forward, Try, Undo;
    var q := |Forward(Subversion, registry, names, faults).touched| - 1;
    FailedAt(Subversion, registry, names, faults, q);
    SubvertSucceeds(registry[names[q]], FaultAt(faults, names[q]));
    if registry[names[k]].backup.Some? {
      var j :| 0 <= j < k && Refused(registry[names[j]]);
      FailedAt(Subversion, registry, names, faults, j);
      SubvertSucceeds(registry[names[j]], FaultAt(faults, names[j]));
      RefusedIsMovable(registry[names[j]]);
      assert false;
    }
  }

  /** So a failing subversion leaves every interface exactly as it was. */
  lemma FailedSubvertFromSafe(registry: Registry, names: seq<string>, faults: Faults)
    requires AllReady(Subversion, registry, names) && SubvertSafe(registry, names)
    requires !Transact(Subversion, registry, names, faults).ok
    ensures Transact(Subversion, registry, names, faults).registry == registry
  {
    hide Forward, Try, Undo, SubvertSafe;
    ForwardFrame(Subversion, registry, names, faults);
    var p, r := Forward(Subversion, registry, names, faults), Transact(Subversion, registry, names, faults).registry;
    forall n | n in registry ensures r[n] == registry[n] {
      if n in p.touched {
        var k :| 0 <= k < |p.touched| && p.touched[k] == n;
        assert names[k] == n;
        FailedAt(Subversion, registry, names, faults, k);
        FailedPassMetNoBackup(registry, names, faults, k);
        SubvertThenRollBack(registry[n], FaultAt(faults, n));
      }
    }
  }

  /** The first change fails on every interface from position `p` on. */
  function FailFrom(names: seq<string>, p: nat): (faults: Faults)
    requires p < |names|
  {
    var later := names[p..];
    map n | n in later :: FirstFails
  }

  lemma FailFromAt(names: seq<string>, p: nat, k: nat)
    requires Distinct(names) && p < |names| && k < |names|
    ensures FaultAt(FailFrom(names, p), names[k]) == if p <= k then FirstFails else NoFault
  {
    var later := names[p..];
    if p <= k {
      assert names[k] == later[k - p];
    }
  }

  /** Such faults make a pass fail at `p` or behind it, if it gets there and finds something to do. */
  lemma FailsFrom(registry: Registry, names: seq<string>, p: nat, q: nat)
    requires AllReady(Subversion, registry, names)
    requires p <= q < |names| && Movable(registry[names[q]].nameServer)
    requires forall k :: 0 <= k < p ==> !Refused(registry[names[k]])
    ensures var pass := Forward(Subversion, registry, names, FailFrom(names, p));
            !pass.ok && p < |pass.touched| <= |names|
  {
    hide Movable, Refused, Forward, Try, FailFrom, FaultAt, Distinct;
    var faults := FailFrom(names, p);
    ForwardFrame(Subversion, registry, names, faults);
    var pass := Forward(Subversion, registry, names, faults);
    FailFromAt(names, p, q);
    SubvertSucceeds(registry[names[q]], FirstFails);
    assert q < |pass.touched| ==> Tried(Subversion, registry, names, faults, pass, q);
    var last := |pass.touched| - 1;
    FailFromAt(names, p, last);
    SubvertSucceeds(registry[names[last]], FaultAt(faults, names[last]));
    assert Tried(Subversion, registry, names, faults, pass, last);
  }

  /** Without the condition some fault makes a subversion fail and destroy a backup on the way back. */
  lemma FatalSubvert(registry: Registry, names: seq<string>) returns (faults: Faults)
    requires AllReady(Subversion, registry, names) && !SubvertSafe(registry, names)
    ensures !Transact(Subversion, registry, names, faults).ok
    ensures Transact(Subversion, registry, names, faults).registry != registry
  {
    hide Movable, Refused, Forward, Try, Undo, FailFrom;
    var p, q :| && 0 <= p <= q < |names| && registry[names[p]].backup.Some? && Movable(registry[names[q]].nameServer)
                && !exists k :: 0 <= k < p && Refused(registry[names[k]]);
    faults := FailFrom(names, p);
    FailsFrom(registry, names, p, q);
    FailedAt(Subversion, registry, names, faults, p);
    SubvertThenRollBack(registry[names[p]], FaultAt(faults, names[p]));
  }

  /** From any registry, subversion is all-or-nothing under every fault exactly if it is safe in this sense. */
  lemma SubvertAtomicIffSafe(registry: Registry, names: seq<string>)
    requires AllReady(Subversion, registry, names)
    ensures SubvertSafe(registry, names) <==>
              forall faults: Faults ::
                var r := Transact(Subversion, registry, names, faults); !r.ok ==> r.registry == registry
  {
    hide SubvertSafe, Transact;
    if SubvertSafe(registry, names) {
      forall faults: Faults | !Transact(Subversion, registry, names, faults).ok
        ensures Transact(Subversion, registry, names, faults).registry == registry
      {
        FailedSubvertFromSafe(registry, names, faults);
      }
    } else {
      var faults := FatalSubvert(registry, names);
    }
  }

  /** In particular, from a registry without backups a failing subversion changes nothing. */
  lemma FailedFirstSubvertChangesNothing(registry: Registry, view: View, faults: Faults)
    requires NoBackups(registry) && Sees(view, registry)
    requires !Call(Subversion, registry, view, faults).ok
    ensures Call(Subversion, registry, view, faults).registry == registry
  {
    hide Transact, Chosen;
    var names := FindInterfaces(Subversion, registry, view);
    if names.Some? {
      FailedSubvertFromSafe(registry, names.value, faults);
    }
  }

  /** A subverted interface ahead of one that fails: the failure un-subverts it. */
  lemma FailedSubvertCanDisturb()
    ensures var registry := map["a" := Subverted("1.1.1.1"), "b" := Original(Some("2.2.2.2"))];
            && AllReady(Subversion, registry, ["a", "b"])
            && Transact(Subversion, registry, ["a", "b"], map["b" := FirstFails])
               == Result(map["a" := Original(Some("1.1.1.1")), "b" := Original(Some("2.2.2.2"))], false)
  {
  }

  /** A backup left beside a list that is not subverted: the failure destroys it. */
  lemma FailedSubvertCanLose()
    ensures var registry := map["a" := Interface(Some("1.1.1.1"), Some("9.9.9.9"))];
            && AllReady(Subversion, registry, ["a"])
            && Transact(Subversion, registry, ["a"], map["a" := FirstFails])
               == Result(map["a" := Interface(Some("1.1.1.1"), None)], false)
  {
  }

  // ----- reversion -----

  /** Reverting the interface and rolling that back gives it back. */
  predicate SurvivesRollBack(i: Interface)
    requires i.backup.Some?
  {
    i.nameServer == Some(LOCALHOST) && !IsSubverted(i.backup.value)
  }

  /** So does rolling back a reversion that failed on it. */
  predicate SurvivesFault(i: Interface)
    requires i.backup.Some?
  {
    i.nameServer.None? ||
    (&& IsSubverted(i.nameServer.value)
     && i.nameServer == if IsSubverted(i.backup.value) then i.backup else Some(LOCALHOST))
  }

  lemma RevertThenRollBack(i: Interface, fault: Fault)
    requires Ready(Reversion, i) && Try(Reversion, i, fault).ok
    ensures Undo(Reversion, Try(Reversion, i, fault).state) == i <==> SurvivesRollBack(i)
  {
  }

  lemma FaultThenRollBack(i: Interface, fault: Fault)
    requires Ready(Reversion, i) && SurvivesFault(i) && !Try(Reversion, i, fault).ok
    ensures Undo(Reversion, Try(Reversion, i, fault).state) == i
  {
  }

  lemma FatalFault(i: Interface) returns (fault: Fault)
    requires Ready(Reversion, i) && !SurvivesFault(i)
    ensures !Try(Reversion, i, fault).ok
    ensures Undo(Reversion, Try(Reversion, i, fault).state) != i
  {
    fault := if IsSubverted(i.nameServer.value) then SecondFails else FirstFails;
  }

  /** Every interface survives a fault on it, and all but the last also survive a fault on a later one. */
  predicate RollBackSafe(registry: Registry, names: seq<string>)
    requires AllReady(Reversion, registry, names)
  {
    && (forall k :: 0 <= k < |names| ==> SurvivesFault(registry[names[k]]))
    && (forall k :: 0 <= k < |names| - 1 ==> SurvivesRollBack(registry[names[k]]))
  }

  lemma FailedRevertFromSafe(registry: Registry, names: seq<string>, faults: Faults)
    requires AllReady(Reversion, registry, names) && RollBackSafe(registry, names)
    requires !Transact(Reversion, registry, names, faults).ok
    ensures Transact(Reversion, registry, names, faults).registry == registry
  {
    hide IsSubverted, Forward, Try, Undo, SurvivesFault, SurvivesRollBack;
    ForwardFrame(Reversion, registry, names, faults);
    var p, r := Forward(Reversion, registry, names, faults), Transact(Reversion, registry, names, faults).registry;
    forall n | n in registry ensures r[n] == registry[n] {
      if n in p.touched {
        var k :| 0 <= k < |p.touched| && p.touched[k] == n;
        assert names[k] == n;
        FailedAt(Reversion, registry, names, faults, k);
        if k < |p.touched| - 1 {
          RevertThenRollBack(registry[n], FaultAt(faults, n));
        } else {
          FaultThenRollBack(registry[n], FaultAt(faults, n));
        }
      }
    }
  }

  /** A fault at one position only: the pass ends there. */
  lemma SingleFault(registry: Registry, names: seq<string>, k: nat, fault: Fault)
    requires AllReady(Reversion, registry, names) && k < |names|
    requires !Try(Reversion, registry[names[k]], fault).ok
    ensures var p := Forward(Reversion, registry, names, map[names[k] := fault]); !p.ok && |p.touched| == k + 1
  {
    hide Forward;
    var faults := map[names[k] := fault];
    ForwardFrame(Reversion, registry, names, faults);
    var p := Forward(Reversion, registry, names, faults);
    assert k < |p.touched| ==> Tried(Reversion, registry, names, faults, p, k);
    var last := |p.touched| - 1;
    assert Tried(Reversion, registry, names, faults, p, last);
    assert last < k ==> FaultAt(faults, names[last]) == NoFault;
  }

  lemma FatalRevert(registry: Registry, names: seq<string>) returns (faults: Faults)
    requires AllReady(Reversion, registry, names) && !RollBackSafe(registry, names)
    ensures !Transact(Reversion, registry, names, faults).ok
    ensures Transact(Reversion, registry, names, faults).registry != registry
  {
    hide IsSubverted, Forward, Undo, SurvivesFault, SurvivesRollBack;
    if k :| 0 <= k < |names| && !SurvivesFault(registry[names[k]]) {
      var fault := FatalFault(registry[names[k]]);
      faults := map[names[k] := fault];
      SingleFault(registry, names, k, fault);
      FailedAt(Reversion, registry, names, faults, k);
    } else {
      var k :| 0 <= k < |names| - 1 && !SurvivesRollBack(registry[names[k]]);
      var last := |names| - 1;
      faults := map[names[last] := SecondFails];
      SingleFault(registry, names, last, SecondFails);
      FailedAt(Reversion, registry, names, faults, k);
      RevertThenRollBack(registry[names[k]], NoFault);
    }
  }

  /** From any registry, reversion is all-or-nothing under every fault exactly if roll-back is safe. */
  lemma RevertAtomicIffSafe(registry: Registry, names: seq<string>)
    requires AllReady(Reversion, registry, names)
    ensures RollBackSafe(registry, names) <==>
              forall faults: Faults ::
                var r := Transact(Reversion, registry, names, faults); !r.ok ==> r.registry == registry
  {
    hide RollBackSafe, Transact;
    if RollBackSafe(registry, names) {
      forall faults: Faults | !Transact(Reversion, registry, names, faults).ok
        ensures Transact(Reversion, registry, names, faults).registry == registry
      {
        FailedRevertFromSafe(registry, names, faults);
      }
    } else {
      var faults := FatalRevert(registry, names);
    }
  }

  /** An interface whose list has gone missing loses its backup when a later interface fails. */
  lemma FailedRevertCanLose(faults: Faults)
    requires faults == map["b" := SecondFails]
    ensures var registry := map["a" := Interface(None, Some("1.1.1.1")), "b" := Subverted("2.2.2.2")];
            && AllReady(Reversion, registry, ["a", "b"])
            && !Transact(Reversion, registry, ["a", "b"], faults).ok
            && Transact(Reversion, registry, ["a", "b"], faults).registry["a"] == Interface(None, None)
  {
  }

  // ----- lists that can be lost -----

  /** The interface holds the list, in use or as a backup. */
  predicate Holds(i: Interface, servers: string)
  {
    i.nameServer == Some(servers) || i.backup == Some(servers)
  }

  /** No two different lists to keep in one place: of list and backup one is missing, local, or the same. */
  predicate Clean(i: Interface)
  {
    || i.backup.None?
    || (i.nameServer.None? && IsSubverted(i.backup.value))
    || (i.nameServer.Some? && (IsSubverted(i.nameServer.value) || i.nameServer == i.backup))
  }

  /** Clean as before, and every list that is not local still held. */
  ghost predicate Keeps(before: Interface, after: Interface)
  {
    Clean(after) && forall servers :: !IsSubverted(servers) && Holds(before, servers) ==> Holds(after, servers)
  }

  /** A clean interface loses nothing, whether a change to it stands or is rolled back. */
  lemma CleanKeeps(op: Operation, i: Interface, fault: Fault)
    requires Clean(i) && Ready(op, i)
    ensures Try(op, i, fault).ok ==> Keeps(i, Try(op, i, fault).state)
    ensures Keeps(i, Undo(op, Try(op, i, fault).state))
  {
  }

  lemma KeepsItself(i: Interface)
    requires Clean(i)
    ensures Keeps(i, i)
  {
  }

  lemma CallKeeps(op: Operation, registry: Registry, view: View, faults: Faults, name: string)
    requires Sees(view, registry) && name in registry && Clean(registry[name])
    ensures Keeps(registry[name], Call(op, registry, view, faults).registry[name])
  {
    hide IsSubverted, Forward, Try, Undo, Chosen, Keeps;
    KeepsItself(registry[name]);
    var found := FindInterfaces(op, registry, view);
    if found.Some? {
      var names := found.value;
      ForwardFrame(op, registry, names, faults);
      var p := Forward(op, registry, names, faults);
      if name in p.touched {
        var k :| 0 <= k < |p.touched| && p.touched[k] == name;
        assert names[k] == name && Tried(op, registry, names, faults, p, k);
        CleanKeeps(op, registry[name], FaultAt(faults, name));
      }
    }
  }

  lemma {:induction false} RunKeeps(registry: Registry, steps: seq<Step>, name: string)
    requires Runnable(registry, steps) && name in registry && Clean(registry[name])
    ensures Run(registry, steps).Keys == registry.Keys
    ensures Keeps(registry[name], Run(registry, steps)[name])
    decreases |steps|
  {
    hide IsSubverted, Call;
    if steps != [] {
      var s := steps[0];
      CallKeeps(s.op, registry, s.view, s.faults, name);
      var next := Call(s.op, registry, s.view, s.faults).registry;
      assert Runnable(next, steps[1..]) by {
        assert forall i :: 0 <= i < |steps[1..]| ==> Sees(steps[1..][i].view, registry);
      }
      RunKeeps(next, steps[1..], name);
    }
  }

  /** A single reversion that nothing disturbs succeeds and loses a list of an interface that is not clean. */
  lemma LosingRun(registry: Registry, name: string) returns (steps: seq<Step>, servers: string)
    requires name in registry && !Clean(registry[name])
    ensures steps == [Step(Reversion, View([name], map[]), map[])]
    ensures Sees(steps[0].view, registry) && Call(Reversion, registry, steps[0].view, map[]).ok
    ensures Runnable(registry, steps) && Run(registry, steps).Keys == registry.Keys
    ensures !IsSubverted(servers) && Holds(registry[name], servers) && !Holds(Run(registry, steps)[name], servers)
  {
    hide IsSubverted;
    var i := registry[name];
    var view := View([name], map[]);
    steps := [Step(Reversion, view, map[])];
    servers := if i.nameServer.Some? then i.nameServer.value else i.backup.value;
    assert Chosen(Reversion, registry, view, 0) == [];
    assert Chosen(Reversion, registry, view, 1) == [name];
    ForwardCons(Reversion, registry, [name], map[]);
    var next := registry[name := Try(Reversion, i, NoFault).state];
    NothingForward(Reversion, next, map[]);
    assert Transact(Reversion, registry, [name], map[]).registry == next;
    assert steps[1..] == [];
    assert Run(registry, steps) == next;
  }

  /**
  From any registry, an interface keeps every list that is not local through every
  run of calls, whatever they see and whatever fails, exactly if it is clean.
   */
  lemma NothingLostIffClean(registry: Registry, name: string)
    requires name in registry
    ensures Clean(registry[name]) <==>
              forall steps, servers ::
                Runnable(registry, steps) && !IsSubverted(servers) && Holds(registry[name], servers) ==>
                  name in Run(registry, steps) && Holds(Run(registry, steps)[name], servers)
  {
    hide Clean, Run, IsSubverted, Holds;
    if Clean(registry[name]) {
      forall steps, servers | Runnable(registry, steps) && !IsSubverted(servers) && Holds(registry[name], servers)
        ensures name in Run(registry, steps) && Holds(Run(registry, steps)[name], servers)
      {
        RunKeeps(registry, steps, name);
      }
    } else {
      var steps, servers := LosingRun(registry, name);
    }
  }
}
