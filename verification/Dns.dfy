/**
The Windows DNS modifier: pointing name servers at the local MASQ Node and back.

A registry maps interface names to their name-server list and the backup of it.
Each call sees some of the interfaces, and the environment decides which of the
two changes that a call makes to an interface fails. A failed change changes
nothing. Changes made while rolling back do not fail: the program gives up there.
 */
module Dns {
  import opened NameServers
  import opened Options

  datatype Interface = Interface(nameServer: Option<string>, backup: Option<string>)

  type Registry = map<string, Interface>

  /** Which of the two changes to an interface fails, if any. */
  datatype Fault = NoFault | FirstFails | SecondFails

  type Faults = map<string, Fault>

  function FaultAt(faults: Faults, name: string): (f: Fault)
  {
    if name in faults then faults[name] else NoFault
  }

  /** The interfaces a call may open, in order, and the default gateways they have. */
  datatype View = View(names: seq<string>, gateways: map<string, string>)

  // ----- one interface -----

  datatype Attempt = Attempt(state: Interface, ok: bool)

  function SubvertInterface(i: Interface, fault: Fault): (r: Attempt)
    requires i.nameServer.Some?
  {
    var nameServers := i.nameServer.value;
    if IsSubverted(nameServers) then Attempt(i, true)
    else if MakesNoSense(nameServers) || fault.FirstFails? then Attempt(i, false)
    else if fault.SecondFails? then Attempt(i.(backup := Some(nameServers)), false)
    else Attempt(Interface(Some(LOCALHOST), Some(nameServers)), true)
  }

  function RollBackSubvert(i: Interface): (r: Interface)
    requires i.backup.Some? ==> i.nameServer.Some?
  {
    if i.backup.None? then i
    else if IsSubverted(i.nameServer.value) then Interface(i.backup, None)
    else i.(backup := None)
  }

  function RevertInterface(i: Interface, fault: Fault): (r: Attempt)
    requires i.backup.Some?
  {
    if i.nameServer.Some? && fault.FirstFails? then Attempt(i, false)
    else
      var restored := if i.nameServer.Some? then i.(nameServer := i.backup) else i;
      if fault.SecondFails? then Attempt(restored, false)
      else Attempt(restored.(backup := None), true)
  }

  function RollBackRevert(i: Interface): (r: Interface)
  {
    if i.nameServer.None? || IsSubverted(i.nameServer.value) then i
    else Interface(Some(LOCALHOST), i.nameServer)
  }

  /** The two directions share the way they go over the interfaces. */
  datatype Operation = Subversion | Reversion

  predicate Ready(op: Operation, i: Interface)
  {
    if op.Subversion? then i.nameServer.Some? else i.backup.Some?
  }

  predicate Undoable(op: Operation, i: Interface)
  {
    op.Subversion? ==> i.nameServer.Some?
  }

  function Try(op: Operation, i: Interface, fault: Fault): (r: Attempt)
    requires Ready(op, i)
    ensures Undoable(op, r.state)
  {
    if op.Subversion? then SubvertInterface(i, fault) else RevertInterface(i, fault)
  }

  function Undo(op: Operation, i: Interface): (r: Interface)
    requires Undoable(op, i)
  {
    if op.Subversion? then RollBackSubvert(i) else RollBackRevert(i)
  }

  // ----- which interfaces a call works on -----

  predicate Distinct(names: seq<string>)
  {
    forall i, j :: 0 <= i < j < |names| ==> names[i] != names[j]
  }

  predicate Sees(view: View, registry: Registry)
  {
    Distinct(view.names) && forall i :: 0 <= i < |view.names| ==> view.names[i] in registry
  }

  predicate HasGateway(view: View, name: string)
  {
    name in view.gateways && view.gateways[name] != ""
  }

  /** Whether an interface that may be opened is one for the operation. */
  predicate Eligible(op: Operation, registry: Registry, view: View, name: string)
    requires name in registry
  {
    Ready(op, registry[name]) && (op.Subversion? ==> HasGateway(view, name))
  }

  /** The eligible ones among the first `n` interfaces, in order. */
  function Chosen(op: Operation, registry: Registry, view: View, n: nat): (names: seq<string>)
    requires Sees(view, registry) && n <= |view.names|
    ensures forall i :: 0 <= i < |names| ==> names[i] in view.names[..n] && Eligible(op, registry, view, names[i])
    ensures forall i :: 0 <= i < n && Eligible(op, registry, view, view.names[i]) ==> view.names[i] in names
    ensures Distinct(names)
  {
    if n == 0 then []
    else
      var name := view.names[n - 1];
      var before := Chosen(op, registry, view, n - 1);
      assert forall i :: 0 <= i < |before| ==> before[i] in view.names[..n];
      if Eligible(op, registry, view, name) then before + [name] else before
  }

  /** The interfaces to work on. Subversion wants at least one, and one gateway for all. */
  function FindInterfaces(op: Operation, registry: Registry, view: View): (names: Option<seq<string>>)
    requires Sees(view, registry)
  {
    var found := Chosen(op, registry, view, |view.names|);
    if op.Subversion? && found == [] then None
    else if op.Subversion? && exists i :: 0 <= i < |found| && view.gateways[found[i]] != view.gateways[found[0]] then
      None
    else Some(found)
  }

  // ----- all interfaces of a call -----

  /** Where a pass over the interfaces got: the registry, the interfaces touched, and whether all went well. */
  datatype Pass = Pass(registry: Registry, touched: seq<string>, ok: bool)

  predicate AllReady(op: Operation, registry: Registry, names: seq<string>)
  {
    Distinct(names) && forall i :: 0 <= i < |names| ==> names[i] in registry && Ready(op, registry[names[i]])
  }

  predicate AllUndoable(op: Operation, registry: Registry, names: seq<string>)
  {
    forall i :: 0 <= i < |names| ==> names[i] in registry && Undoable(op, registry[names[i]])
  }

  /** Works on one interface after the other, up to and including the first that fails. */
  function Forward(op: Operation, registry: Registry, names: seq<string>, faults: Faults): (p: Pass)
    requires AllReady(op, registry, names)
    decreases |names|
  {
    if names == [] then Pass(registry, [], true)
    else
      var r := Try(op, registry[names[0]], FaultAt(faults, names[0]));
      var next := registry[names[0] := r.state];
      if !r.ok then Pass(next, names[..1], false)
      else
        var rest := Forward(op, next, names[1..], faults);
        Pass(rest.registry, names[..1] + rest.touched, rest.ok)
  }

  /** The registry with the given interfaces, and no others, rolled back. */
  function RolledBack(op: Operation, registry: Registry, names: seq<string>): (r: Registry)
    requires AllUndoable(op, registry, names)
  {
    map n | n in registry :: if n in names then Undo(op, registry[n]) else registry[n]
  }

  /** What the pass did to the interface at position `k`. */
  predicate Tried(op: Operation, registry: Registry, names: seq<string>, faults: Faults, p: Pass, k: nat)
    requires AllReady(op, registry, names) && k < |names|
  {
    var r := Try(op, registry[names[k]], FaultAt(faults, names[k]));
    && names[k] in p.registry
    && p.registry[names[k]] == r.state
    && (r.ok <==> p.ok || k < |p.touched| - 1)
  }

  lemma NothingForward(op: Operation, registry: Registry, faults: Faults)
    ensures Forward(op, registry, [], faults) == Pass(registry, [], true)
  {
  }

  /** One interface, then the rest. */
  lemma ForwardCons(op: Operation, registry: Registry, names: seq<string>, faults: Faults)
    requires AllReady(op, registry, names) && names != []
    ensures var r := Try(op, registry[names[0]], FaultAt(faults, names[0]));
            var next := registry[names[0] := r.state];
            if r.ok then
              && AllReady(op, next, names[1..])
              && var rest := Forward(op, next, names[1..], faults);
                 Forward(op, registry, names, faults) == Pass(rest.registry, [names[0]] + rest.touched, rest.ok)
            else Forward(op, registry, names, faults) == Pass(next, [names[0]], false)
  {
  }

  /** A pass touches a prefix of its interfaces, each according to its own state and fault, and nothing else. */
  lemma {:induction false} ForwardFrame(op: Operation, registry: Registry, names: seq<string>, faults: Faults)
    requires AllReady(op, registry, names)
    ensures var p := Forward(op, registry, names, faults);
            && p.registry.Keys == registry.Keys
            && p.touched <= names && (if p.ok then p.touched == names else p.touched != [])
            && AllUndoable(op, p.registry, p.touched)
            && (forall n :: n in registry && n !in p.touched ==> p.registry[n] == registry[n])
            && (forall k :: 0 <= k < |p.touched| ==> Tried(op, registry, names, faults, p, k))
    decreases |names|
  {
    hide Try, Ready, Undoable, Forward;
    if names == [] {
      NothingForward(op, registry, faults);
    } else {
      var r := Try(op, registry[names[0]], FaultAt(faults, names[0]));
      var next, tail := registry[names[0] := r.state], names[1..];
      var p := Forward(op, registry, names, faults);
      ForwardCons(op, registry, names, faults);
      assert names == [names[0]] + tail;
      if r.ok {
        ForwardFrame(op, next, tail, faults);
        var rest := Forward(op, next, tail, faults);
        assert names[0] !in tail;
        forall k | 0 <= k < |p.touched| ensures Tried(op, registry, names, faults, p, k) {
          if k > 0 {
            assert Tried(op, next, tail, faults, rest, k - 1);
            assert tail[k - 1] == names[k];
          }
        }
      }
    }
  }

  datatype Result = Result(registry: Registry, ok: bool)

  /** Forward, and back again over everything touched if anything failed. */
  function Transact(op: Operation, registry: Registry, names: seq<string>, faults: Faults): (r: Result)
    requires AllReady(op, registry, names)
    ensures r.registry.Keys == registry.Keys
  {
    var pass := Forward(op, registry, names, faults);
    ForwardFrame(op, registry, names, faults);
    if pass.ok then Result(pass.registry, true) else Result(RolledBack(op, pass.registry, pass.touched), false)
  }

  function Call(op: Operation, registry: Registry, view: View, faults: Faults): (r: Result)
    requires Sees(view, registry)
    ensures r.registry.Keys == registry.Keys
  {
    match FindInterfaces(op, registry, view)
    case None => Result(registry, false)
    case Some(names) => Transact(op, registry, names, faults)
  }
}
