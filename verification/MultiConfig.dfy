/** Virtual command lines: parsing, printing, and merging by priority. */
module MultiConfig {
  import opened Options

  datatype VclArg = NameValue(name: string, value: string) | NameOnly(name: string) {
    function ToArgs(): (args: seq<string>)
    {
      if NameValue? then [name, value] else [name]
    }
  }

  // ----- printing and parsing -----

  predicate IsOption(arg: string)
  {
    "--" <= arg
  }

  /** An option is two dashes with anything behind them. */
  lemma OptionsStartWithDashes(arg: string)
    ensures IsOption(arg) <==> exists name: string :: arg == ['-', '-'] + name
  {
    if IsOption(arg) {
      assert arg == ['-', '-'] + arg[2..];
    }
  }

  function ArgsOf(vclArgs: seq<VclArg>): (args: seq<string>)
  {
    if vclArgs == [] then [] else vclArgs[0].ToArgs() + ArgsOf(vclArgs[1..])
  }

  /** A full command line, with an empty string in place of the command. */
  function VclArgsToArgs(vclArgs: seq<VclArg>): (args: seq<string>)
  {
    [""] + ArgsOf(vclArgs)
  }

  function Prepend(arg: VclArg, rest: Option<seq<VclArg>>): (r: Option<seq<VclArg>>)
  {
    if rest.None? then None else Some([arg] + rest.value)
  }

  /** The structure of arguments, or nothing if an option was expected and something else found. */
  function Parse(args: seq<string>): (vclArgs: Option<seq<VclArg>>)
    decreases |args|
  {
    if args == [] then Some([])
    else if !IsOption(args[0]) then None
    else if |args| == 1 || IsOption(args[1]) then Prepend(NameOnly(args[0]), Parse(args[1..]))
    else Prepend(NameValue(args[0], args[1]), Parse(args[2..]))
  }

  /** Arguments that can be taken for options and values: the first is an option, no two values follow each other. */
  predicate WellFormedArgs(args: seq<string>)
  {
    && (args != [] ==> IsOption(args[0]))
    && forall i :: 0 <= i < |args| - 1 ==> IsOption(args[i]) || IsOption(args[i + 1])
  }

  /** Takes the next option off the arguments, with its value if it has one; gives up on anything else. */
  method NextVclArg(args: seq<string>) returns (arg: Option<VclArg>, rest: seq<string>, panic: bool)
    ensures panic <==> args != [] && !IsOption(args[0])
    ensures arg.Some? <==> args != [] && !panic
    ensures arg.None? && !panic ==> rest == []
    ensures arg.Some? ==> args == arg.value.ToArgs() + rest
    ensures arg.Some? ==> Parse(args) == Prepend(arg.value, Parse(rest))
  {
    rest := args;
    if rest == [] {
      return None, rest, false;
    }
    var name := rest[0];
    rest := rest[1..];
    if !IsOption(name) {
      return None, rest, true;
    }
    if rest == [] || IsOption(rest[0]) {
      arg := Some(NameOnly(name));
    } else {
      var value := rest[0];
      rest := rest[1..];
      arg := Some(NameValue(name, value));
      assert args[2..] == rest;
    }
    panic := false;
  }

  /** Drops the command and parses the rest; there must be a command. */
  method NewCommandLineVcl(args: seq<string>) returns (vclArgs: Option<seq<VclArg>>)
    requires args != []
    ensures vclArgs == Parse(args[1..])
  {
    var rest := args[1..];
    var parsed: seq<VclArg> := [];
    while true
      invariant Parse(rest).Some? <==> Parse(args[1..]).Some?
      invariant Parse(rest).Some? ==> Parse(args[1..]).value == parsed + Parse(rest).value
      decreases |rest|
    {
      var arg, next, panic := NextVclArg(rest);
      if panic {
        return None;
      }
      if arg.None? {
        break;
      }
      parsed := parsed + [arg.value];
      rest := next;
    }
    assert parsed + [] == parsed;
    vclArgs := Some(parsed);
  }

  /** How many arguments the first option takes up. */
  function Width(args: seq<string>): (n: nat)
    requires args != []
    ensures 1 <= n <= |args|
  {
    if |args| == 1 || IsOption(args[1]) then 1 else 2
  }

  lemma WellFormedRest(args: seq<string>)
    requires args != [] && IsOption(args[0])
    ensures WellFormedArgs(args) <==> WellFormedArgs(args[Width(args)..])
  {
  }

  lemma NoArgs()
    ensures WellFormedArgs([])
  {
  }

  lemma NotAnOption(args: seq<string>)
    requires args != [] && !IsOption(args[0])
    ensures !WellFormedArgs(args)
  {
  }

  /** Exactly the well-formed arguments are accepted, and printing what was parsed gives them back. */
  lemma {:induction false} PrintParsed(args: seq<string>)
    ensures Parse(args).Some? <==> WellFormedArgs(args)
    ensures Parse(args).Some? ==> ArgsOf(Parse(args).value) == args
    decreases |args|
  {
    hide IsOption, WellFormedArgs;
    if args == [] {
      assert WellFormedArgs([]) by { NoArgs(); }
    } else if IsOption(args[0]) {
      var w := Width(args);
      WellFormedRest(args);
      PrintParsed(args[w..]);
      assert args == args[..w] + args[w..];
    } else {
      NotAnOption(args);
    }
  }

  /** Names that look like options, values that do not. */
  predicate Printable(vclArgs: seq<VclArg>)
  {
    forall i :: 0 <= i < |vclArgs| ==>
      IsOption(vclArgs[i].name) && (vclArgs[i].NameValue? ==> !IsOption(vclArgs[i].value))
  }

  /** Parsing what was printed gives the same structure back exactly if it is printable. */
  lemma {:induction false} ParsePrinted(vclArgs: seq<VclArg>)
    ensures Parse(ArgsOf(vclArgs)) == Some(vclArgs) <==> Printable(vclArgs)
    decreases |vclArgs|
  {
    if vclArgs != [] {
      var head, rest := vclArgs[0], vclArgs[1..];
      var args := ArgsOf(vclArgs);
      ParsePrinted(rest);
      assert vclArgs == [head] + rest;
      if rest != [] {
        assert ArgsOf(rest)[0] == rest[0].name;
      }
      if head.NameOnly? {
        assert args[1..] == ArgsOf(rest);
      } else {
        assert args[2..] == ArgsOf(rest);
      }
    }
  }

  /** An accepted command line is printed as it was, but for the command, and parses again to the same structure. */
  lemma CommandLineRoundTrip(args: seq<string>, vclArgs: seq<VclArg>)
    requires args != [] && Parse(args[1..]) == Some(vclArgs)
    ensures VclArgsToArgs(vclArgs) == [""] + args[1..]
    ensures Parse(VclArgsToArgs(vclArgs)[1..]) == Some(vclArgs) && Printable(vclArgs)
  {
    PrintParsed(args[1..]);
    ParsePrinted(vclArgs);
    assert VclArgsToArgs(vclArgs)[1..] == args[1..];
  }

  // ----- merging -----

  function Names(vclArgs: seq<VclArg>): (names: set<string>)
  {
    set i | 0 <= i < |vclArgs| :: vclArgs[i].name
  }

  /** The arguments whose name is in the set, each name only the first time. */
  function FirstOccurrences(vclArgs: seq<VclArg>, names: set<string>): (r: seq<VclArg>)
  {
    if vclArgs == [] then []
    else if vclArgs[0].name in names then
      [vclArgs[0]] + FirstOccurrences(vclArgs[1..], names - {vclArgs[0].name})
    else FirstOccurrences(vclArgs[1..], names)
  }

  function Merged(lower: seq<VclArg>, higher: seq<VclArg>): (r: seq<VclArg>)
  {
    FirstOccurrences(higher + lower, Names(higher + lower))
  }

  /** Chains the two, collects the names, and lets each name through once. */
  method Merge(lower: seq<VclArg>, higher: seq<VclArg>) returns (merged: seq<VclArg>)
    ensures merged == Merged(lower, higher)
  {
    var combined := higher + lower;
    var names := Names(combined);
    merged := [];
    for i := 0 to |combined|
      invariant Merged(lower, higher) == merged + FirstOccurrences(combined[i..], names)
    {
      assert combined[i..][1..] == combined[i + 1..];
      if combined[i].name in names {
        names := names - {combined[i].name};
        merged := merged + [combined[i]];
      }
    }
  }

  /** Each name the first time it comes up, unless it has been seen before. */
  function Firsts(vclArgs: seq<VclArg>, seen: set<string>): (r: seq<VclArg>)
  {
    if vclArgs == [] then []
    else if vclArgs[0].name in seen then Firsts(vclArgs[1..], seen)
    else [vclArgs[0]] + Firsts(vclArgs[1..], seen + {vclArgs[0].name})
  }

  lemma NamesCons(arg: VclArg, rest: seq<VclArg>)
    ensures Names([arg] + rest) == {arg.name} + Names(rest)
  {
    var all := [arg] + rest;
    forall n | n in {arg.name} + Names(rest) ensures n in Names(all) {
      if n == arg.name {
        assert all[0].name == n;
      } else {
        var i :| 0 <= i < |rest| && rest[i].name == n;
        assert all[i + 1].name == n;
      }
    }
  }

  /** Removing names from a set as they come up is the same as remembering those that came up. */
  lemma {:induction false} FirstOccurrencesAreFirsts(vclArgs: seq<VclArg>, names: set<string>, seen: set<string>)
    requires names !! seen && Names(vclArgs) <= names + seen
    ensures FirstOccurrences(vclArgs, names) == Firsts(vclArgs, seen)
  {
    if vclArgs != [] {
      var head, rest := vclArgs[0], vclArgs[1..];
      assert vclArgs == [head] + rest;
      NamesCons(head, rest);
      if head.name in names {
        FirstOccurrencesAreFirsts(rest, names - {head.name}, seen + {head.name});
      } else {
        FirstOccurrencesAreFirsts(rest, names, seen);
      }
    }
  }

  /** Merging keeps the first occurrence of each name in the chain of higher and lower. */
  lemma MergedIsFirsts(lower: seq<VclArg>, higher: seq<VclArg>)
    ensures Merged(lower, higher) == Firsts(higher + lower, {})
  {
    FirstOccurrencesAreFirsts(higher + lower, Names(higher + lower), {});
  }

  lemma {:induction false} FirstsAppend(a: seq<VclArg>, b: seq<VclArg>, seen: set<string>)
    ensures Firsts(a + b, seen) == Firsts(a, seen) + Firsts(b, seen + Names(a))
    decreases |a|
  {
    if a == [] {
      assert a + b == b && seen + Names(a) == seen;
    } else {
      var head, rest := a[0], a[1..];
      assert a == [head] + rest && (a + b)[1..] == rest + b;
      NamesCons(head, rest);
      if head.name in seen {
        FirstsAppend(rest, b, seen);
        assert seen + Names(rest) == seen + Names(a);
      } else {
        FirstsAppend(rest, b, seen + {head.name});
        assert seen + {head.name} + Names(rest) == seen + Names(a);
      }
    }
  }

  lemma {:induction false} FirstsOfFirsts(a: seq<VclArg>, seen: set<string>, seen': set<string>)
    ensures Firsts(Firsts(a, seen), seen') == Firsts(a, seen + seen')
    ensures Names(Firsts(a, seen)) == Names(a) - seen
  {
    if a != [] {
      var head, rest := a[0], a[1..];
      assert a == [head] + rest;
      NamesCons(head, rest);
      if head.name in seen {
        FirstsOfFirsts(rest, seen, seen');
      } else {
        var later := Firsts(rest, seen + {head.name});
        NamesCons(head, later);
        assert ([head] + later)[1..] == later;
        FirstsOfFirsts(rest, seen + {head.name}, seen');
        FirstsOfFirsts(rest, seen + {head.name}, seen' + {head.name});
        assert seen + {head.name} + (seen' + {head.name}) == seen + seen' + {head.name};
        assert head.name in seen' ==> seen + {head.name} + seen' == seen + seen';
      }
    }
  }

  /** It does not matter in which order neighbouring sources are merged. */
  lemma MergeAssociative(a: seq<VclArg>, b: seq<VclArg>, c: seq<VclArg>)
    ensures Merged(Merged(a, b), c) == Merged(a, Merged(b, c))
  {
    hide Firsts, Merged, Names;
    var none: set<string> := {};
    MergedIsFirsts(a, b);
    MergedIsFirsts(b, c);
    MergedIsFirsts(Merged(a, b), c);
    MergedIsFirsts(a, Merged(b, c));
    var ba, cb := Firsts(b + a, none), Firsts(c + b, none);
    FirstsAppend(c, ba, none);
    FirstsOfFirsts(b + a, none, none + Names(c));
    FirstsAppend(c, b + a, none);
    assert none + (none + Names(c)) == none + Names(c);
    assert Firsts(c + ba, none) == Firsts(c + (b + a), none);
    FirstsAppend(cb, a, none);
    FirstsOfFirsts(c + b, none, none);
    FirstsAppend(c + b, a, none);
    assert none + none == none && none + (Names(c + b) - none) == none + Names(c + b);
    assert Firsts(cb + a, none) == Firsts((c + b) + a, none);
    assert c + (b + a) == (c + b) + a;
  }

  /** The first argument with the name. */
  function Lookup(vclArgs: seq<VclArg>, name: string): (r: Option<VclArg>)
  {
    if vclArgs == [] then None
    else if vclArgs[0].name == name then Some(vclArgs[0])
    else Lookup(vclArgs[1..], name)
  }

  lemma {:induction false} LookupInFirsts(a: seq<VclArg>, seen: set<string>, name: string)
    ensures Lookup(Firsts(a, seen), name) == if name in seen then None else Lookup(a, name)
  {
    if a != [] {
      if a[0].name in seen {
        LookupInFirsts(a[1..], seen, name);
      } else {
        var later := Firsts(a[1..], seen + {a[0].name});
        assert ([a[0]] + later)[1..] == later;
        LookupInFirsts(a[1..], seen + {a[0].name}, name);
      }
    }
  }

  lemma {:induction false} LookupInChain(a: seq<VclArg>, b: seq<VclArg>, name: string)
    ensures Lookup(a + b, name) == if Lookup(a, name).Some? then Lookup(a, name) else Lookup(b, name)
    decreases |a|
  {
    if a == [] {
      assert a + b == b;
    } else {
      assert (a + b)[1..] == a[1..] + b;
      LookupInChain(a[1..], b, name);
    }
  }

  predicate NamesUnique(vclArgs: seq<VclArg>)
  {
    forall i, j :: 0 <= i < j < |vclArgs| ==> vclArgs[i].name != vclArgs[j].name
  }

  lemma {:induction false} FirstsAreUnique(a: seq<VclArg>, seen: set<string>)
    ensures NamesUnique(Firsts(a, seen))
  {
    if a != [] {
      if a[0].name in seen {
        FirstsAreUnique(a[1..], seen);
      } else {
        var later := Firsts(a[1..], seen + {a[0].name});
        FirstsAreUnique(a[1..], seen + {a[0].name});
        FirstsOfFirsts(a[1..], seen + {a[0].name}, {});
        assert forall i :: 0 <= i < |later| ==> later[i].name in Names(later);
      }
    }
  }

  /** The sources, in increasing order of priority, merged one by one into an empty command line. */
  function MergeAll(sources: seq<seq<VclArg>>): (r: seq<VclArg>)
  {
    if sources == [] then []
    else Merged(MergeAll(sources[..|sources| - 1]), sources[|sources| - 1])
  }

  method MergeSources(sources: seq<seq<VclArg>>) returns (merged: seq<VclArg>)
    ensures merged == MergeAll(sources)
  {
    hide Merged;
    var initial := NewCommandLineVcl([""]);
    assert [""][1..] == [];
    merged := initial.value;
    for i := 0 to |sources|
      invariant merged == MergeAll(sources[..i])
    {
      assert sources[..i + 1][..i] == sources[..i];
      merged := Merge(merged, sources[i]);
    }
    assert sources[..|sources|] == sources;
  }

  /** The argument of the latest source that has the name. */
  function LatestWith(sources: seq<seq<VclArg>>, name: string): (r: Option<VclArg>)
  {
    if sources == [] then None
    else
      var last := sources[|sources| - 1];
      if Lookup(last, name).Some? then Lookup(last, name) else LatestWith(sources[..|sources| - 1], name)
  }

  /** Merging any sources gives each name once, with what the latest source that has it says, and loses no name. */
  lemma {:induction false} LatestSourceWins(sources: seq<seq<VclArg>>, name: string)
    ensures NamesUnique(MergeAll(sources))
    ensures Lookup(MergeAll(sources), name) == LatestWith(sources, name)
    decreases |sources|
  {
    hide Merged, Firsts;
    if sources != [] {
      var init, last := sources[..|sources| - 1], sources[|sources| - 1];
      LatestSourceWins(init, name);
      MergedIsFirsts(MergeAll(init), last);
      FirstsAreUnique(last + MergeAll(init), {});
      LookupInFirsts(last + MergeAll(init), {}, name);
      LookupInChain(last, MergeAll(init), name);
    }
  }

  // ----- merging in terms of positions -----

  /** No earlier argument has the name of the one at the position. */
  predicate IsFirst(vclArgs: seq<VclArg>, p: nat)
  {
    p < |vclArgs| && forall q :: 0 <= q < p ==> vclArgs[q].name != vclArgs[p].name
  }

  /** Each argument that stays came first with its name. */
  lemma {:induction false} FirstsAt(a: seq<VclArg>, seen: set<string>, i: nat) returns (p: nat)
    requires i < |Firsts(a, seen)|
    ensures IsFirst(a, p) && a[p] == Firsts(a, seen)[i] && a[p].name !in seen
    decreases |a|
  {
    if a[0].name in seen {
      p := FirstsAt(a[1..], seen, i);
      p := p + 1;
    } else if i == 0 {
      p := 0;
    } else {
      p := FirstsAt(a[1..], seen + {a[0].name}, i - 1);
      p := p + 1;
    }
  }

  /** Those that stay are in the order in which they came. */
  lemma {:induction false} FirstsInOrder(a: seq<VclArg>, seen: set<string>, i: nat, j: nat) returns (p: nat, q: nat)
    requires i < j < |Firsts(a, seen)|
    ensures IsFirst(a, p) && a[p] == Firsts(a, seen)[i] && a[p].name !in seen
    ensures IsFirst(a, q) && a[q] == Firsts(a, seen)[j] && a[q].name !in seen
    ensures p < q
    decreases |a|
  {
    if a[0].name in seen {
      p, q := FirstsInOrder(a[1..], seen, i, j);
      p, q := p + 1, q + 1;
    } else if i == 0 {
      p := 0;
      q := FirstsAt(a[1..], seen + {a[0].name}, j - 1);
      q := q + 1;
    } else {
      p, q := FirstsInOrder(a[1..], seen + {a[0].name}, i - 1, j - 1);
      p, q := p + 1, q + 1;
    }
  }

  /** Whatever came first with its name stays. */
  lemma {:induction false} FirstsHave(a: seq<VclArg>, seen: set<string>, p: nat)
    requires IsFirst(a, p) && a[p].name !in seen
    ensures a[p] in Firsts(a, seen)
    decreases |a|
  {
    if p > 0 {
      assert a[0].name != a[p].name;
      assert IsFirst(a[1..], p - 1);
      FirstsHave(a[1..], if a[0].name in seen then seen else seen + {a[0].name}, p - 1);
    }
  }

  /** A merged list holds exactly what comes first with its name in the higher list and the lower one behind it. */
  lemma MergedHolds(lower: seq<VclArg>, higher: seq<VclArg>, arg: VclArg)
    ensures arg in Merged(lower, higher) <==>
              exists p: nat :: IsFirst(higher + lower, p) && (higher + lower)[p] == arg
  {
    hide Merged, Firsts;
    var chain, merged := higher + lower, Merged(lower, higher);
    MergedIsFirsts(lower, higher);
    if arg in merged {
      var i :| 0 <= i < |merged| && merged[i] == arg;
      var p := FirstsAt(chain, {}, i);
    }
    if p: nat :| IsFirst(chain, p) && chain[p] == arg {
      FirstsHave(chain, {}, p);
    }
  }

  /** It holds them in the order of that chain. */
  lemma MergedInOrder(lower: seq<VclArg>, higher: seq<VclArg>, i: nat, j: nat) returns (p: nat, q: nat)
    requires i < j < |Merged(lower, higher)|
    ensures p < q && IsFirst(higher + lower, p) && IsFirst(higher + lower, q)
    ensures (higher + lower)[p] == Merged(lower, higher)[i] && (higher + lower)[q] == Merged(lower, higher)[j]
  {
    hide Merged, Firsts;
    MergedIsFirsts(lower, higher);
    p, q := FirstsInOrder(higher + lower, {}, i, j);
  }

  lemma {:induction false} LookupAt(a: seq<VclArg>, p: nat)
    requires IsFirst(a, p)
    ensures Lookup(a, a[p].name) == Some(a[p])
    decreases |a|
  {
    if p > 0 {
      assert a[0].name != a[p].name;
      assert IsFirst(a[1..], p - 1);
      LookupAt(a[1..], p - 1);
    }
  }

  lemma {:induction false} LookupMisses(a: seq<VclArg>, name: string)
    requires forall i :: 0 <= i < |a| ==> a[i].name != name
    ensures Lookup(a, name) == None
  {
    if a != [] {
      LookupMisses(a[1..], name);
    }
  }

  lemma {:induction false} LookupFinds(a: seq<VclArg>, name: string)
    ensures Lookup(a, name).Some? ==> Lookup(a, name).value in a
  {
    if a != [] {
      LookupFinds(a[1..], name);
    }
  }

  /** No source from the position on has an argument with the name. */
  predicate NotFrom(sources: seq<seq<VclArg>>, k: nat, name: string)
  {
    forall i, j :: k <= i < |sources| && 0 <= j < |sources[i]| ==> sources[i][j].name != name
  }

  lemma {:induction false} LatestAt(sources: seq<seq<VclArg>>, k: nat, p: nat)
    requires k < |sources| && IsFirst(sources[k], p) && NotFrom(sources, k + 1, sources[k][p].name)
    ensures LatestWith(sources, sources[k][p].name) == Some(sources[k][p])
    decreases |sources|
  {
    var n := |sources| - 1;
    if k == n {
      LookupAt(sources[k], p);
    } else {
      LookupMisses(sources[n], sources[k][p].name);
      assert sources[..n][k] == sources[k];
      LatestAt(sources[..n], k, p);
    }
  }

  /**
  The first argument with a name in the latest source that has it is in the merged list,
  and no other argument with that name is.
   */
  lemma LatestSourceByPosition(sources: seq<seq<VclArg>>, k: nat, p: nat)
    requires k < |sources| && IsFirst(sources[k], p) && NotFrom(sources, k + 1, sources[k][p].name)
    ensures sources[k][p] in MergeAll(sources)
    ensures forall arg :: arg in MergeAll(sources) && arg.name == sources[k][p].name ==> arg == sources[k][p]
  {
    hide MergeAll, LatestWith, Lookup;
    var merged, arg := MergeAll(sources), sources[k][p];
    LatestAt(sources, k, p);
    LatestSourceWins(sources, arg.name);
    LookupFinds(merged, arg.name);
    forall other | other in merged && other.name == arg.name ensures other == arg {
      var i :| 0 <= i < |merged| && merged[i] == other;
      assert IsFirst(merged, i);
      LookupAt(merged, i);
    }
  }
}
