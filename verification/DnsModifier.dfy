/** The modifier itself, changing the registry one value at a time. */
module DnsModifiers {
  import opened NameServers
  import opened Options
  import opened Dns

  class WinDnsModifier {
    var registry: Registry

    constructor (registry: Registry)
      ensures this.registry == registry
    {
      this.registry := registry;
    }

    // ----- single changes -----

    method SetBackup(name: string, value: string, fails: bool) returns (ok: bool)
      requires name in registry
      modifies this
      ensures ok == !fails
      ensures registry
           == if ok then old(registry)[name := old(registry)[name].(backup := Some(value))] else old(registry)
    {
      if !fails {
        registry := registry[name := registry[name].(backup := Some(value))];
      }
      ok := !fails;
    }

    method DeleteBackup(name: string, fails: bool) returns (ok: bool)
      requires name in registry
      modifies this
      ensures ok == !fails
      ensures registry == if ok then old(registry)[name := old(registry)[name].(backup := None)] else old(registry)
    {
      if !fails {
        registry := registry[name := registry[name].(backup := None)];
      }
      ok := !fails;
    }

    method SetNameservers(name: string, value: string, fails: bool) returns (ok: bool)
      requires name in registry
      modifies this
      ensures ok == !fails
      ensures registry
           == if ok then old(registry)[name := old(registry)[name].(nameServer := Some(value))] else old(registry)
    {
      if !fails {
        registry := registry[name := registry[name].(nameServer := Some(value))];
      }
      ok := !fails;
    }

    // ----- one interface -----

    method SubvertInterface(name: string, fault: Fault) returns (ok: bool)
      requires name in registry && Ready(Subversion, registry[name])
      modifies this
      ensures var r := Try(Subversion, old(registry)[name], fault);
              ok == r.ok && registry == old(registry)[name := r.state]
    {
      hide IsSubverted, MakesNoSense;
      var nameServers := registry[name].nameServer.value;
      if IsSubverted(nameServers) {
        return true;
      }
      if MakesNoSense(nameServers) {
        return false;
      }
      ok := SetBackup(name, nameServers, fault.FirstFails?);
      if !ok {
        return;
      }
      ok := SetNameservers(name, LOCALHOST, fault.SecondFails?);
    }

    method RollBackSubvert(name: string)
      requires name in registry && Undoable(Subversion, registry[name])
      modifies this
      ensures registry == old(registry)[name := Undo(Subversion, old(registry)[name])]
    {
      hide IsSubverted;
      if registry[name].backup.None? {
        return;
      }
      var oldNameservers := registry[name].backup.value;
      var _ := DeleteBackup(name, false);
      if IsSubverted(registry[name].nameServer.value) {
        var _ := SetNameservers(name, oldNameservers, false);
      }
    }

    method RevertInterface(name: string, fault: Fault) returns (ok: bool)
      requires name in registry && Ready(Reversion, registry[name])
      modifies this
      ensures var r := Try(Reversion, old(registry)[name], fault);
              ok == r.ok && registry == old(registry)[name := r.state]
    {
      hide IsSubverted, MakesNoSense;
      var oldNameServers := registry[name].backup.value;
      if registry[name].nameServer.Some? {
        ok := SetNameservers(name, oldNameServers, fault.FirstFails?);
        if !ok {
          return;
        }
      }
      ok := DeleteBackup(name, fault.SecondFails?);
    }

    method RollBackRevert(name: string)
      requires name in registry
      modifies this
      ensures registry == old(registry)[name := Undo(Reversion, old(registry)[name])]
    {
      hide IsSubverted;
      if registry[name].nameServer.None? {
        return;
      }
      var oldNameservers := registry[name].nameServer.value;
      if IsSubverted(oldNameservers) {
        return;
      }
      var _ := SetBackup(name, oldNameservers, false);
      var _ := SetNameservers(name, LOCALHOST, false);
    }

    // ----- all interfaces -----

    /** The fold over the interfaces, which passes over the rest once one has failed. */
    method GoForward(op: Operation, names: seq<string>, faults: Faults) returns (soFar: seq<string>, ok: bool)
      requires AllReady(op, registry, names)
      modifies this
      ensures Pass(registry, soFar, ok) == Forward(op, old(registry), names, faults)
    {
      hide Forward, Try, Distinct, Ready;
      soFar, ok := [], true;
      ghost var all := Forward(op, registry, names, faults);
      assert names[0..] == names;
      for i := 0 to |names|
        invariant ok ==> AllReady(op, registry, names[i..])
        invariant if ok
                  then var rest := Forward(op, registry, names[i..], faults);
                       all == Pass(rest.registry, soFar + rest.touched, rest.ok)
                  else all == Pass(registry, soFar, false)
      {
        if ok {
          var name := names[i];
          ForwardCons(op, registry, names[i..], faults);
          assert names[i..][1..] == names[i + 1..];
          if op.Subversion? {
            ok := SubvertInterface(name, FaultAt(faults, name));
          } else {
            ok := RevertInterface(name, FaultAt(faults, name));
          }
          if ok {
            ghost var rest := Forward(op, registry, names[i + 1..], faults).touched;
            assert soFar + ([name] + rest) == (soFar + [name]) + rest;
          }
          soFar := soFar + [name];
        }
      }
      if ok {
        NothingForward(op, registry, faults);
        assert names[|names|..] == [];
        assert soFar + [] == soFar;
      }
    }

    method RollBackAll(op: Operation, names: seq<string>)
      requires Distinct(names) && AllUndoable(op, registry, names)
      modifies this
      ensures registry == RolledBack(op, old(registry), names)
    {
      hide Undo;
      for i := 0 to |names|
        invariant registry.Keys == old(registry).Keys
        invariant forall n :: n in registry ==>
                    registry[n] == if n in names[..i] then Undo(op, old(registry)[n]) else old(registry)[n]
      {
        assert names[..i + 1] == names[..i] + [names[i]];
        assert names[i] !in names[..i];
        if op.Subversion? {
          RollBackSubvert(names[i]);
        } else {
          RollBackRevert(names[i]);
        }
      }
      assert names[..|names|] == names;
    }

    /** Works on the interfaces in turn; if one fails, rolls back all it has touched. */
    method ForwardThenBack(op: Operation, names: seq<string>, faults: Faults) returns (ok: bool)
      requires AllReady(op, registry, names)
      modifies this
      ensures Result(registry, ok) == Transact(op, old(registry), names, faults)
    {
      hide Forward, Try, Ready, Undoable, RolledBack;
      ForwardFrame(op, registry, names, faults);
      var soFar: seq<string>;
      soFar, ok := GoForward(op, names, faults);
      if !ok {
        RollBackAll(op, soFar);
      }
    }

    method Subvert(view: View, faults: Faults) returns (ok: bool)
      requires Sees(view, registry)
      modifies this
      ensures Result(registry, ok) == Call(Subversion, old(registry), view, faults)
    {
      var found := FindInterfaces(Subversion, registry, view);
      if found.None? {
        return false;
      }
      ok := ForwardThenBack(Subversion, found.value, faults);
    }

    method Revert(view: View, faults: Faults) returns (ok: bool)
      requires Sees(view, registry)
      modifies this
      ensures Result(registry, ok) == Call(Reversion, old(registry), view, faults)
    {
      var found := FindInterfaces(Reversion, registry, view);
      ok := ForwardThenBack(Reversion, found.value, faults);
    }
  }
}
