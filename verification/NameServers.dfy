/** Comma-separated lists of name servers, and the local server in them. */
module NameServers {

  const LOCALHOST: string := "127.0.0.1"

  function Split(s: string): (parts: seq<string>)
    ensures parts != []
  {
    if s == [] then [[]]
    else
      var rest := Split(s[1..]);
      if s[0] == ',' then [[]] + rest else [[s[0]] + rest[0]] + rest[1..]
  }

  predicate IsSubverted(nameServers: string)
  {
    nameServers == LOCALHOST || LOCALHOST + "," <= nameServers
  }

  predicate MakesNoSense(nameServers: string)
  {
    exists i :: 0 <= i < |Split(nameServers)| && Split(nameServers)[i] == LOCALHOST
  }

  lemma {:induction false} FirstPart(s: string, part: string)
    requires ',' !in part
    ensures Split(s)[0] == part <==> s == part || part + "," <= s
    decreases |s|
  {
    if s == [] {
    } else if s[0] == ',' {
    } else if part != [] && part[0] == s[0] {
      FirstPart(s[1..], part[1..]);
      assert part == [part[0]] + part[1..] && s == [s[0]] + s[1..];
      if part[1..] + "," <= s[1..] {
        assert part + "," <= s;
      }
      if part + "," <= s {
        assert (part + ",")[1..] == part[1..] + ",";
        assert part[1..] + "," <= s[1..];
      }
    }
  }

  /** The list is the server with something before and after it, set off by commas. */
  predicate SetOff(servers: string, before: string, server: string, after: string)
  {
    && servers == before + server + after
    && (before == "" || before[|before| - 1] == ',')
    && (after == "" || after[0] == ',')
  }

  /** The server is in the comma-separated list, anywhere. */
  ghost predicate Listed(servers: string, server: string)
  {
    exists before, after :: SetOff(servers, before, server, after)
  }

  /** The server is the first in the list. */
  ghost predicate ListedFirst(servers: string, server: string)
  {
    exists after :: SetOff(servers, "", server, after)
  }

  /** The server stands at the position, between commas or the ends of the list. */
  predicate ListedAt(servers: string, server: string, i: nat)
  {
    && i + |server| <= |servers|
    && servers[i..i + |server|] == server
    && (i == 0 || servers[i - 1] == ',')
    && (i + |server| == |servers| || servers[i + |server|] == ',')
  }

  lemma ListedBetween(servers: string, before: string, server: string, after: string)
    requires SetOff(servers, before, server, after)
    ensures ListedAt(servers, server, |before|)
  {
  }

  lemma ListedAround(servers: string, server: string, i: nat) returns (before: string, after: string)
    requires ListedAt(servers, server, i)
    ensures |before| == i && SetOff(servers, before, server, after)
  {
    before, after := servers[..i], servers[i + |server|..];
  }

  lemma ListedSomewhere(servers: string, server: string)
    ensures Listed(servers, server) <==> exists i: nat :: ListedAt(servers, server, i)
  {
    hide ListedAt, SetOff;
    if i: nat :| ListedAt(servers, server, i) {
      var before, after := ListedAround(servers, server, i);
    }
    if Listed(servers, server) {
      var before, after :| SetOff(servers, before, server, after);
      ListedBetween(servers, before, server, after);
    }
  }

  lemma ListedInFront(servers: string, server: string)
    ensures ListedFirst(servers, server) <==> ListedAt(servers, server, 0)
  {
    hide ListedAt, SetOff;
    if ListedAt(servers, server, 0) {
      var before, after := ListedAround(servers, server, 0);
      assert before == "";
    }
    if after :| SetOff(servers, "", server, after) {
      ListedBetween(servers, "", server, after);
    }
  }

  /** A position behind the first character is a position in the rest, unless a comma was needed in front of it. */
  lemma ListedInTail(servers: string, server: string, i: nat)
    requires servers != ""
    ensures ListedAt(servers, server, i + 1) <==>
              ListedAt(servers[1..], server, i) && (i == 0 ==> servers[0] == ',')
  {
    if i + 1 + |server| <= |servers| {
      assert servers[i + 1..i + 1 + |server|] == servers[1..][i..i + |server|];
    }
  }

  lemma PartsInFront(s: string, part: string)
    requires ',' !in part
    ensures Split(s)[0] == part <==> ListedAt(s, part, 0)
  {
    FirstPart(s, part);
    assert part + "," <= s ==> s[..|part|] == part;
  }

  predicate LaterIn(parts: seq<string>, part: string)
  {
    exists k :: 1 <= k < |parts| && parts[k] == part
  }

  ghost predicate LaterAt(s: string, part: string)
  {
    exists i: nat :: 1 <= i && ListedAt(s, part, i)
  }

  lemma SplitStep(s: string)
    requires s != ""
    ensures s[0] == ',' ==> Split(s) == [""] + Split(s[1..])
    ensures s[0] != ',' ==> Split(s)[1..] == Split(s[1..])[1..]
  {
  }

  lemma LaterInRest(s: string, part: string)
    requires s != ""
    ensures var rest := Split(s[1..]);
            LaterIn(Split(s), part) <==> LaterIn(rest, part) || (s[0] == ',' && rest[0] == part)
  {
    hide Split;
    var parts, rest := Split(s), Split(s[1..]);
    SplitStep(s);
    if k :| 1 <= k < |parts| && parts[k] == part {
      assert parts[k] == if s[0] == ',' then rest[k - 1] else rest[1..][k - 1];
    }
    if k :| 1 <= k < |rest| && rest[k] == part {
      assert rest[k] == if s[0] == ',' then parts[k + 1] else parts[1..][k - 1];
    }
    assert s[0] == ',' ==> parts[1] == rest[0];
  }

  lemma LaterAtRest(s: string, part: string)
    requires s != ""
    ensures LaterAt(s, part) <==> LaterAt(s[1..], part) || (s[0] == ',' && ListedAt(s[1..], part, 0))
  {
    hide ListedAt;
    if i: nat :| 1 <= i && ListedAt(s, part, i) {
      ListedInTail(s, part, i - 1);
    }
    if i: nat :| 1 <= i && ListedAt(s[1..], part, i) {
      ListedInTail(s, part, i);
    }
    ListedInTail(s, part, 0);
    assert ListedAt(s, part, 1) ==> LaterAt(s, part);
  }

  lemma {:induction false} LaterParts(s: string, part: string)
    requires ',' !in part
    ensures LaterIn(Split(s), part) <==> LaterAt(s, part)
    decreases |s|
  {
    if s != "" {
      hide LaterIn, LaterAt, ListedAt, Split;
      LaterParts(s[1..], part);
      PartsInFront(s[1..], part);
      LaterInRest(s, part);
      LaterAtRest(s, part);
    }
  }

  /** A list makes no sense exactly if the local server is anywhere in it, and is subverted exactly if it is first. */
  lemma ListsInCharacters(nameServers: string)
    ensures IsSubverted(nameServers) <==> ListedFirst(nameServers, "127.0.0.1")
    ensures MakesNoSense(nameServers) <==> Listed(nameServers, "127.0.0.1")
  {
    hide Listed, ListedFirst, ListedAt, Split;
    ListedSomewhere(nameServers, LOCALHOST);
    ListedInFront(nameServers, LOCALHOST);
    FirstPart(nameServers, LOCALHOST);
    PartsInFront(nameServers, LOCALHOST);
    LaterParts(nameServers, LOCALHOST);
  }

  /** A list is subverted exactly if its first server is the local one. */
  lemma SubvertedMeansFirst(nameServers: string)
    ensures IsSubverted(nameServers) <==> Split(nameServers)[0] == LOCALHOST
    ensures IsSubverted(nameServers) ==> MakesNoSense(nameServers)
  {
    FirstPart(nameServers, LOCALHOST);
  }
}
