/** Every run of calls, whatever fails on the way. */
module DnsRuns {
  import opened NameServers
  import opened Options
  import opened Dns

  type Originals = map<string, Option<string>>

  function Original(servers: Option<string>): (i: Interface)
  {
    Interface(servers, None)
  }

  function Subverted(servers: string): (i: Interface)
  {
    Interface(Some(LOCALHOST), Some(servers))
  }

  /** Subversion or reversion broke off between its two changes. */
  function HalfWay(servers: string): (i: Interface)
  {
    Interface(Some(servers), Some(servers))
  }

  /** There is a list, and it does not point at the local server already. */
  predicate Movable(servers: Option<string>)
  {
    servers.Some? && !IsSubverted(servers.value)
  }

  /** Every interface holds what it held originally, or the local server with the original list backed up. */
  predicate Settled(registry: Registry, originals: Originals)
  {
    && registry.Keys == originals.Keys
    && forall n :: n in originals ==>
         || registry[n] == Original(originals[n])
         || (Movable(originals[n]) && registry[n] == Subverted(originals[n].value))
  }

  /** What an interface can go through whose list is not the local server. */
  lemma MovableSteps(servers: string, fault: Fault)
    requires !IsSubverted(servers)
    ensures Try(Subversion, Subverted(servers), fault) == Attempt(Subverted(servers), true)
    ensures Try(Subversion, Original(Some(servers)), fault) == Attempt(Original(Some(servers)), false)
         || Try(Subversion, Original(Some(servers)), fault) == Attempt(HalfWay(servers), false)
         || Try(Subversion, Original(Some(servers)), fault) == Attempt(Subverted(servers), true)
    ensures Try(Reversion, Subverted(servers), fault) == Attempt(Subverted(servers), false)
         || Try(Reversion, Subverted(servers), fault) == Attempt(HalfWay(servers), false)
         || Try(Reversion, Subverted(servers), fault) == Attempt(Original(Some(servers)), true)
  {
  }

  /** Rolling back subversion gives the original back, rolling back reversion the subverted state. */
  lemma MovableUndo(servers: string)
    requires !IsSubverted(servers)
    ensures Undo(Subversion, Original(Some(servers))) == Original(Some(servers))
    ensures Undo(Subversion, HalfWay(servers)) == Original(Some(servers))
    ensures Undo(Subversion, Subverted(servers)) == Original(Some(servers))
    ensures Undo(Reversion, Original(Some(servers))) == Subverted(servers)
    ensures Undo(Reversion, HalfWay(servers)) == Subverted(servers)
    ensures Undo(Reversion, Subverted(servers)) == Subverted(servers)
  {
  }

  /** A list that points at the local server already is left alone. */
  lemma ImmovableSteps(servers: string, fault: Fault)
    requires IsSubverted(servers)
    ensures Try(Subversion, Original(Some(servers)), fault) == Attempt(Original(Some(servers)), true)
    ensures Undo(Subversion, Original(Some(servers))) == Original(Some(servers))
  {
  }

  /** The state that a transaction leaves a touched interface in. */
  function After(op: Operation, servers: Option<string>, ok: bool): (i: Interface)
  {
    if Movable(servers) && ok == op.Subversion? then Subverted(servers.value) else Original(servers)
  }

  /**
  From a settled state, a transaction leaves all the interfaces it touched subverted,
  or all original, depending on direction and outcome, and the others as they were.
   */
  lemma TransactOutcome(op: Operation, registry: Registry, names: seq<string>, faults: Faults, originals: Originals)
    requires Settled(registry, originals) && AllReady(op, registry, names)
    ensures var p, r := Forward(op, registry, names, faults), Transact(op, registry, names, faults);
            && r.ok == p.ok
            && forall n :: n in registry ==>
                 r.registry[n] == if n in p.touched then After(op, originals[n], r.ok) else registry[n]
  {
    hide IsSubverted, Forward, Try, Undo;
    ForwardFrame(op, registry, names, faults);
    var p, r := Forward(op, registry, names, faults), Transact(op, registry, names, faults);
    forall n | n in registry
      ensures r.registry[n] == if n in p.touched then After(op, originals[n], r.ok) else registry[n]
    {
      if n in p.touched {
        var k :| 0 <= k < |p.touched| && p.touched[k] == n;
        assert names[k] == n && Tried(op, registry, names, faults, p, k);
        if Movable(originals[n]) {
          MovableSteps(originals[n].value, FaultAt(faults, n));
          MovableUndo(originals[n].value);
        } else {
          ImmovableSteps(originals[n].value, FaultAt(faults, n));
        }
      }
    }
  }

  /** One call, with whatever faults, keeps the registry settled. */
  lemma CallKeepsSettled(op: Operation, registry: Registry, view: View, faults: Faults, originals: Originals)
    requires Settled(registry, originals) && Sees(view, registry)
    ensures Settled(Call(op, registry, view, faults).registry, originals)
  {
    hide IsSubverted, Transact, Forward, Chosen;
    var names := FindInterfaces(op, registry, view);
    if names.Some? {
      TransactOutcome(op, registry, names.value, faults, originals);
    }
  }

  datatype Step = Step(op: Operation, view: View, faults: Faults)

  predicate Runnable(registry: Registry, steps: seq<Step>)
  {
    forall i :: 0 <= i < |steps| ==> Sees(steps[i].view, registry)
  }

  /** The registry after a sequence of calls. */
  function Run(registry: Registry, steps: seq<Step>): (r: Registry)
    requires Runnable(registry, steps)
    decreases |steps|
  {
    if steps == [] then registry
    else
      var next := Call(steps[0].op, registry, steps[0].view, steps[0].faults).registry;
      assert Runnable(next, steps[1..]) by {
        assert forall i :: 0 <= i < |steps[1..]| ==> Sees(steps[1..][i].view, registry);
      }
      Run(next, steps[1..])
  }

  lemma {:induction false} RunKeepsSettled(registry: Registry, steps: seq<Step>, originals: Originals)
    requires Settled(registry, originals) && Runnable(registry, steps)
    ensures Settled(Run(registry, steps), originals)
    decreases |steps|
  {
    hide IsSubverted, Call;
    if steps != [] {
      var s := steps[0];
      CallKeepsSettled(s.op, registry, s.view, s.faults, originals);
      var next := Call(s.op, registry, s.view, s.faults).registry;
      assert Runnable(next, steps[1..]) by {
        assert forall i :: 0 <= i < |steps[1..]| ==> Sees(steps[1..][i].view, registry);
      }
      RunKeepsSettled(next, steps[1..], originals);
    }
  }

  predicate NoBackups(registry: Registry)
  {
    forall n :: n in registry ==> registry[n].backup.None?
  }

  function OriginalsOf(registry: Registry): (originals: Originals)
  {
    map n | n in registry :: registry[n].nameServer
  }

  /** Without backups, what the interfaces hold is the original. */
  lemma NoBackupsSettled(registry: Registry)
    requires NoBackups(registry)
    ensures Settled(registry, OriginalsOf(registry))
  {
  }

  /**
  No run of calls ever loses a name-server list: from any registry without backups,
  whatever the calls see and whatever fails, each interface ends up as it began, or
  with the local server and a backup of what it began with.
   */
  lemma RunLosesNothing(registry: Registry, steps: seq<Step>)
    requires NoBackups(registry) && Runnable(registry, steps)
    ensures Run(registry, steps).Keys == registry.Keys
    ensures forall n :: n in registry ==>
              || Run(registry, steps)[n] == registry[n]
              || (Movable(registry[n].nameServer) && Run(registry, steps)[n] == Subverted(registry[n].nameServer.value))
  {
    hide IsSubverted, Run;
    NoBackupsSettled(registry);
    RunKeepsSettled(registry, steps, OriginalsOf(registry));
  }

  /** A reversion that fails leaves every interface exactly as it was. */
  lemma FailedRevertChangesNothing(registry: Registry, view: View, faults: Faults, originals: Originals)
    requires Settled(registry, originals) && Sees(view, registry)
    requires !Call(Reversion, registry, view, faults).ok
    ensures Call(Reversion, registry, view, faults).registry == registry
  {
    hide IsSubverted, Transact, Forward;
    var names := FindInterfaces(Reversion, registry, view).value;
    TransactOutcome(Reversion, registry, names, faults, originals);
    ForwardFrame(Reversion, registry, names, faults);
    var p := Forward(Reversion, registry, names, faults);
    forall n | n in p.touched ensures n in registry && registry[n] == After(Reversion, originals[n], false) {
      var k :| 0 <= k < |p.touched| && p.touched[k] == n;
      assert names[k] == n;
    }
  }

  /** A successful reversion that sees every subverted interface brings all the originals back. */
  lemma RevertRestoresOriginals(registry: Registry, view: View, faults: Faults, originals: Originals)
    requires Settled(registry, originals) && Sees(view, registry)
    requires forall n :: n in registry && registry[n].backup.Some? ==> n in view.names
    requires Call(Reversion, registry, view, faults).ok
    ensures forall n :: n in registry ==> Call(Reversion, registry, view, faults).registry[n] == Original(originals[n])
  {
    hide IsSubverted, Transact, Forward, Chosen;
    var names := FindInterfaces(Reversion, registry, view).value;
    TransactOutcome(Reversion, registry, names, faults, originals);
    ForwardFrame(Reversion, registry, names, faults);
    assert Forward(Reversion, registry, names, faults).touched == names;
    forall n | n in registry && registry[n].backup.Some? ensures n in names {
      var i :| 0 <= i < |view.names| && view.names[i] == n;
      assert Eligible(Reversion, registry, view, view.names[i]);
    }
  }

  /** A successful subversion subverts every eligible interface, and no interface it did not see. */
  lemma SubvertSubvertsAll(registry: Registry, view: View, faults: Faults, originals: Originals)
    requires Settled(registry, originals) && Sees(view, registry)
    requires Call(Subversion, registry, view, faults).ok
    ensures var subverted := Call(Subversion, registry, view, faults).registry;
            && (forall i :: 0 <= i < |view.names| && Eligible(Subversion, registry, view, view.names[i]) ==>
                  subverted[view.names[i]] == After(Subversion, originals[view.names[i]], true))
            && (forall n :: n in registry && n !in view.names ==> subverted[n] == registry[n])
  {
    hide IsSubverted, Transact, Forward, Chosen;
    var names := FindInterfaces(Subversion, registry, view).value;
    TransactOutcome(Subversion, registry, names, faults, originals);
    ForwardFrame(Subversion, registry, names, faults);
    assert Forward(Subversion, registry, names, faults).touched == names;
    assert forall n :: n in names ==> n in view.names;
  }

  /** Subverting and then reverting, if both succeed, is as if nothing had happened. */
  lemma SubvertThenRevert(registry: Registry, view: View, faults: Faults, view': View, faults': Faults)
    requires NoBackups(registry) && Sees(view, registry) && Sees(view', registry)
    requires forall n :: n in view.names ==> n in view'.names
    requires Call(Subversion, registry, view, faults).ok
    requires Call(Reversion, Call(Subversion, registry, view, faults).registry, view', faults').ok
    ensures Call(Reversion, Call(Subversion, registry, view, faults).registry, view', faults').registry == registry
  {
    hide IsSubverted, Call;
    var originals := OriginalsOf(registry);
    NoBackupsSettled(registry);
    CallKeepsSettled(Subversion, registry, view, faults, originals);
    SubvertSubvertsAll(registry, view, faults, originals);
    RevertRestoresOriginals(Call(Subversion, registry, view, faults).registry, view', faults', originals);
  }
}
