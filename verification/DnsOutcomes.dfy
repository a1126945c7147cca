/**
What a call comes to, from any registry and under any faults, in terms of the lists
and gateways alone: which interfaces it is about, when it succeeds, and what every
interface holds afterwards.
 */
module DnsOutcomes {
  import opened NameServers
  import opened Options
  import opened Dns

  /** Subversion is about interfaces with a list and a gateway that is not empty, reversion about backups. */
  predicate Concerns(op: Operation, registry: Registry, view: View, name: string)
    requires name in registry
  {
    match op
    case Subversion =>
      registry[name].nameServer.Some? && name in view.gateways && view.gateways[name] != ""
    case Reversion =>
      registry[name].backup.Some?
  }

  /** Subversion wants something to work on, and one gateway for all of it. */
  predicate Possible(op: Operation, registry: Registry, view: View)
    requires Sees(view, registry)
  {
    op == Subversion ==>
      && (exists i :: 0 <= i < |view.names| && Concerns(Subversion, registry, view, view.names[i]))
      && (forall i, j :: 0 <= i < |view.names| && 0 <= j < |view.names|
                         && Concerns(Subversion, registry, view, view.names[i])
                         && Concerns(Subversion, registry, view, view.names[j]) ==>
            view.gateways[view.names[i]] == view.gateways[view.names[j]])
  }

  /**
  Subverting an interface has nothing to do if the local server is first in its list,
  and is refused if it is anywhere else in it. Reverting one without a list has only
  the backup to delete.
   */
  ghost predicate Succeeds(op: Operation, i: Interface, fault: Fault)
    requires Ready(op, i)
  {
    match op
    case Subversion =>
      || ListedFirst(i.nameServer.value, "127.0.0.1")
      || (!Listed(i.nameServer.value, "127.0.0.1") && fault == NoFault)
    case Reversion =>
      fault == NoFault || (fault == FirstFails && i.nameServer == None)
  }

  /** What success leaves. */
  ghost function Done(op: Operation, i: Interface): (r: Interface)
    requires Ready(op, i)
  {
    match op
    case Subversion =>
      if ListedFirst(i.nameServer.value, "127.0.0.1") then i else Interface(Some("127.0.0.1"), i.nameServer)
    case Reversion =>
      Interface(if i.nameServer == None then None else i.backup, None)
  }

  /** What rolling back leaves, of an interface that was tried with this fault. */
  ghost function Back(op: Operation, i: Interface, fault: Fault): (r: Interface)
    requires Ready(op, i)
  {
    match op
    case Subversion =>
      if i.backup == None then i
      else if ListedFirst(i.nameServer.value, "127.0.0.1") then Interface(i.backup, None)
      else Interface(i.nameServer, None)
    case Reversion =>
      if i.nameServer == None then Interface(None, if fault == SecondFails then i.backup else None)
      else
        var now := if fault == FirstFails then i.nameServer else i.backup;
        if ListedFirst(now.value, "127.0.0.1") then Interface(now, if fault == NoFault then None else i.backup)
        else Interface(Some("127.0.0.1"), now)
  }

  lemma SubvertedAlone()
    ensures IsSubverted("127.0.0.1")
  {
  }

  lemma StepInFields(op: Operation, i: Interface, fault: Fault)
    requires Ready(op, i)
    ensures Try(op, i, fault).ok <==> Succeeds(op, i, fault)
    ensures Try(op, i, fault).ok ==> Try(op, i, fault).state == Done(op, i)
    ensures Undo(op, Try(op, i, fault).state) == Back(op, i, fault)
  {
    hide IsSubverted, MakesNoSense, Listed, ListedFirst;
    if i.nameServer.Some? {
      ListsInCharacters(i.nameServer.value);
    }
    if i.backup.Some? {
      ListsInCharacters(i.backup.value);
    }
    ListsInCharacters("127.0.0.1");
    SubvertedAlone();
  }

  lemma EligibleInFields(op: Operation, registry: Registry, view: View, name: string)
    requires name in registry
    ensures Eligible(op, registry, view, name) <==> Concerns(op, registry, view, name)
  {
  }

  // ----- the interfaces in the order of the view -----

  lemma {:induction false} ChosenPrefix(op: Operation, registry: Registry, view: View, m: nat, n: nat)
    requires Sees(view, registry) && m <= n <= |view.names|
    ensures Chosen(op, registry, view, m) <= Chosen(op, registry, view, n)
    decreases n
  {
    if m < n {
      ChosenPrefix(op, registry, view, m, n - 1);
    }
  }

  lemma ChosenNext(op: Operation, registry: Registry, view: View, i: nat)
    requires Sees(view, registry) && i < |view.names| && Eligible(op, registry, view, view.names[i])
    ensures Chosen(op, registry, view, i + 1) == Chosen(op, registry, view, i) + [view.names[i]]
  {
  }

  /** An interface of the view comes right after those chosen before it. */
  lemma ChosenAt(op: Operation, registry: Registry, view: View, i: nat) returns (k: nat)
    requires Sees(view, registry) && i < |view.names| && Eligible(op, registry, view, view.names[i])
    ensures var all := Chosen(op, registry, view, |view.names|);
            && k < |all| && all[k] == view.names[i] && all[..k] == Chosen(op, registry, view, i)
  {
    hide Chosen, Ready;
    var before, all := Chosen(op, registry, view, i), Chosen(op, registry, view, |view.names|);
    k := |before|;
    ChosenNext(op, registry, view, i);
    ChosenPrefix(op, registry, view, i + 1, |view.names|);
    assert before + [view.names[i]] <= all;
    assert all[..k] == before;
  }

  lemma FoundIfPossible(op: Operation, registry: Registry, view: View)
    requires Sees(view, registry)
    ensures Possible(op, registry, view) <==> FindInterfaces(op, registry, view).Some?
  {
    hide Chosen;
    var found := Chosen(op, registry, view, |view.names|);
    assert view.names[..|view.names|] == view.names;
    forall i | 0 <= i < |view.names| ensures Concerns(op, registry, view, view.names[i]) <==> view.names[i] in found {
      EligibleInFields(op, registry, view, view.names[i]);
      if view.names[i] in found {
        var k :| 0 <= k < |found| && found[k] == view.names[i];
      }
    }
    if op == Subversion && found != [] {
      assert found[0] in view.names;
    }
    if op == Subversion && !Possible(op, registry, view) && found != [] {
      var i, j :| && 0 <= i < |view.names| && 0 <= j < |view.names| && Concerns(op, registry, view, view.names[i])
                  && Concerns(op, registry, view, view.names[j])
                  && view.gateways[view.names[i]] != view.gateways[view.names[j]];
      assert view.names[i] in found && view.names[j] in found;
    }
  }

  /** A pass succeeds exactly if every attempt does. */
  lemma PassSucceeds(op: Operation, registry: Registry, names: seq<string>, faults: Faults)
    requires AllReady(op, registry, names)
    ensures Forward(op, registry, names, faults).ok <==>
              forall k :: 0 <= k < |names| ==> Try(op, registry[names[k]], FaultAt(faults, names[k])).ok
  {
    hide Forward, Try, Ready;
    ForwardFrame(op, registry, names, faults);
    var p := Forward(op, registry, names, faults);
    if p.ok {
      forall k | 0 <= k < |names| ensures Try(op, registry[names[k]], FaultAt(faults, names[k])).ok {
        assert Tried(op, registry, names, faults, p, k);
      }
    } else {
      assert Tried(op, registry, names, faults, p, |p.touched| - 1);
    }
  }

  /** A pass touches an interface exactly if every attempt before it succeeds. */
  lemma PassTouches(op: Operation, registry: Registry, names: seq<string>, faults: Faults, k: nat)
    requires AllReady(op, registry, names) && k < |names|
    ensures names[k] in Forward(op, registry, names, faults).touched <==>
              forall j :: 0 <= j < k ==> Try(op, registry[names[j]], FaultAt(faults, names[j])).ok
  {
    hide Forward, Try, Ready, Undo;
    ForwardFrame(op, registry, names, faults);
    var p := Forward(op, registry, names, faults);
    if names[k] in p.touched {
      var j :| 0 <= j < |p.touched| && p.touched[j] == names[k];
      assert names[j] == names[k] && j == k;
      forall j | 0 <= j < k ensures Try(op, registry[names[j]], FaultAt(faults, names[j])).ok {
        assert Tried(op, registry, names, faults, p, j);
      }
    } else {
      assert |p.touched| <= k;
      assert Tried(op, registry, names, faults, p, |p.touched| - 1);
    }
  }

  /** What a transaction leaves at a position. */
  lemma TransactLeaves(op: Operation, registry: Registry, names: seq<string>, faults: Faults, k: nat)
    requires AllReady(op, registry, names) && k < |names|
    ensures var name, result := names[k], Transact(op, registry, names, faults);
            var now := result.registry[name];
            if result.ok then now == Done(op, registry[name])
            else if forall j :: 0 <= j < k ==> Try(op, registry[names[j]], FaultAt(faults, names[j])).ok
            then now == Back(op, registry[name], FaultAt(faults, name))
            else now == registry[name]
  {
    hide Forward, Try, Ready, Undo, Done, Back;
    ForwardFrame(op, registry, names, faults);
    PassSucceeds(op, registry, names, faults);
    PassTouches(op, registry, names, faults, k);
    StepInFields(op, registry[names[k]], FaultAt(faults, names[k]));
    var p := Forward(op, registry, names, faults);
    if names[k] in p.touched {
      assert p.touched[k] == names[k];
      assert Tried(op, registry, names, faults, p, k);
    }
  }

  /** An interface that is not among those worked on stays as it is. */
  lemma OthersLeft(op: Operation, registry: Registry, names: seq<string>, faults: Faults, name: string)
    requires AllReady(op, registry, names) && name in registry && name !in names
    ensures Transact(op, registry, names, faults).registry[name] == registry[name]
  {
    hide Forward, Try, Ready, Undo;
    ForwardFrame(op, registry, names, faults);
  }

  /** The attempts before an interface succeed exactly if the interfaces concerned before it in the view do. */
  lemma AllSucceedBefore(
    op: Operation, registry: Registry, view: View, faults: Faults, i: nat, names: seq<string>)
    requires Sees(view, registry) && i <= |view.names| && names == Chosen(op, registry, view, i)
    ensures (forall j :: 0 <= j < |names| ==> Try(op, registry[names[j]], FaultAt(faults, names[j])).ok) <==>
            (forall j :: 0 <= j < i && Concerns(op, registry, view, view.names[j]) ==>
               Succeeds(op, registry[view.names[j]], FaultAt(faults, view.names[j])))
  {
    hide Chosen, Try, Succeeds;
    forall n | n in registry && Ready(op, registry[n])
      ensures Try(op, registry[n], FaultAt(faults, n)).ok <==> Succeeds(op, registry[n], FaultAt(faults, n))
    {
      StepInFields(op, registry[n], FaultAt(faults, n));
    }
    forall j | 0 <= j < i ensures Concerns(op, registry, view, view.names[j]) <==> view.names[j] in names {
      EligibleInFields(op, registry, view, view.names[j]);
      if view.names[j] in names {
        var k :| 0 <= k < |names| && names[k] == view.names[j];
      }
    }
    forall k | 0 <= k < |names| ensures exists j :: 0 <= j < i && view.names[j] == names[k] {
      var j :| 0 <= j < |view.names[..i]| && view.names[..i][j] == names[k];
      assert view.names[j] == names[k];
    }
  }

  // ----- whole calls -----

  /** A call succeeds exactly if it is possible and every interface it is about succeeds. */
  lemma CallSucceeds(op: Operation, registry: Registry, view: View, faults: Faults)
    requires Sees(view, registry)
    ensures Call(op, registry, view, faults).ok <==>
              && Possible(op, registry, view)
              && forall i :: 0 <= i < |view.names| && Concerns(op, registry, view, view.names[i]) ==>
                   Succeeds(op, registry[view.names[i]], FaultAt(faults, view.names[i]))
  {
    hide Forward, Chosen, Try, Succeeds, Possible;
    FoundIfPossible(op, registry, view);
    var found := FindInterfaces(op, registry, view);
    if found.Some? {
      PassSucceeds(op, registry, found.value, faults);
      AllSucceedBefore(op, registry, view, faults, |view.names|, found.value);
    }
  }

  /**
  What a call leaves. Success changes every interface it is about. A call that is not
  possible changes nothing. Any other failure rolls back the interfaces it is about up
  to the first that does not succeed, in the order of the view.
   */
  lemma CallLeaves(op: Operation, registry: Registry, view: View, faults: Faults, i: nat)
    requires Sees(view, registry) && i < |view.names|
    ensures var name, result := view.names[i], Call(op, registry, view, faults);
            var now := result.registry[name];
            if !Concerns(op, registry, view, name) || !Possible(op, registry, view) then now == registry[name]
            else if result.ok then now == Done(op, registry[name])
            else if forall j :: 0 <= j < i && Concerns(op, registry, view, view.names[j]) ==>
                      Succeeds(op, registry[view.names[j]], FaultAt(faults, view.names[j]))
            then now == Back(op, registry[name], FaultAt(faults, name))
            else now == registry[name]
  {
    hide Forward, Chosen, Try, Undo, Succeeds, Possible, Done, Back, Transact;
    var name := view.names[i];
    FoundIfPossible(op, registry, view);
    EligibleInFields(op, registry, view, name);
    if Possible(op, registry, view) {
      var names := FindInterfaces(op, registry, view).value;
      if Concerns(op, registry, view, name) {
        var k := ChosenAt(op, registry, view, i);
        TransactLeaves(op, registry, names, faults, k);
        AllSucceedBefore(op, registry, view, faults, i, names[..k]);
        assert forall j :: 0 <= j < k ==> names[j] == names[..k][j];
      } else {
        assert forall k :: 0 <= k < |names| ==> names[k] != name;
        OthersLeft(op, registry, names, faults, name);
      }
    }
  }

  /** An interface outside the view is left alone. */
  lemma UnseenIsUntouched(op: Operation, registry: Registry, view: View, faults: Faults, name: string)
    requires Sees(view, registry) && name in registry && name !in view.names
    ensures Call(op, registry, view, faults).registry[name] == registry[name]
  {
    hide Transact, Chosen;
    var found := FindInterfaces(op, registry, view);
    if found.Some? {
      OthersLeft(op, registry, found.value, faults, name);
      assert forall k :: 0 <= k < |found.value| ==> found.value[k] in view.names;
    }
  }

  /** When subversion succeeds, spelled out. */
  lemma SubvertSucceedsExactly(registry: Registry, view: View, faults: Faults)
    requires Sees(view, registry)
    ensures var concerned := set n | n in view.names && registry[n].nameServer.Some?
                                     && n in view.gateways && view.gateways[n] != "";
            Call(Subversion, registry, view, faults).ok <==>
              && concerned != {}
              && (forall m, n :: m in concerned && n in concerned ==> view.gateways[m] == view.gateways[n])
              && (forall n :: n in concerned ==>
                    || ListedFirst(registry[n].nameServer.value, "127.0.0.1")
                    || (!Listed(registry[n].nameServer.value, "127.0.0.1") && FaultAt(faults, n) == NoFault))
  {
    hide Call, Listed, ListedFirst;
    CallSucceeds(Subversion, registry, view, faults);
    var concerned := set n | n in view.names && registry[n].nameServer.Some?
                             && n in view.gateways && view.gateways[n] != "";
    forall i | 0 <= i < |view.names|
      ensures Concerns(Subversion, registry, view, view.names[i]) <==> view.names[i] in concerned
    {
    }
    forall n | n in concerned ensures exists i :: 0 <= i < |view.names| && view.names[i] == n {
    }
    if i :| 0 <= i < |view.names| && Concerns(Subversion, registry, view, view.names[i]) {
      assert view.names[i] in concerned;
    }
    if n :| n in concerned {
      var i :| 0 <= i < |view.names| && view.names[i] == n;
      assert Concerns(Subversion, registry, view, view.names[i]);
    }
  }
}
