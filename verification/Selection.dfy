/** `Proxy::select_server`: which server a connection goes through. */
module Selection {
  import opened Bytes
  import opened Domains
  import opened Routing
  import Pac

  /** `text.contains(part)`. */
  predicate Contains(text: string, part: string) {
    part <= text || (text != "" && Contains(text[1..], part))
  }

  /** In other words: the part stands somewhere in the text. */
  lemma {:induction false} ContainsMeans(text: string, part: string)
    ensures Contains(text, part) <==> exists a: string, b: string :: text == a + part + b
  {
    if Contains(text, part) {
      if part <= text {
        assert text == [] + part + text[|part|..];
      } else {
        ContainsMeans(text[1..], part);
        var a: string, b: string :| text[1..] == a + part + b;
        assert text == ([text[0]] + a) + part + b;
      }
    }
    if a: string, b: string :| text == a + part + b {
      StandsIn(a, part, b);
    }
  }

  lemma {:induction false} StandsIn(a: string, part: string, b: string)
    ensures Contains(a + part + b, part)
  {
    var text := a + part + b;
    if a == "" {
      assert text[..|part|] == part;
    } else {
      assert text[1..] == a[1..] + part + b;
      StandsIn(a[1..], part, b);
    }
  }

  ghost predicate MatchesApp(srv: ServerConfig, process: string) {
    srv.enabled && exists app :: app in Listed(srv.apps) && Contains(process, app)
  }

  ghost predicate MatchesDomain(srv: ServerConfig, target: string) {
    srv.enabled && exists d :: d in Listed(srv.domains) && IsVariant(d, WithoutPort(target))
  }

  ghost predicate IsDirect(apps: seq<string>, process: string) {
    process != "" && exists app :: app in apps && Contains(process, app)
  }

  method AnyApp(apps: seq<string>, process: string) returns (found: bool)
    ensures found <==> exists app :: app in apps && Contains(process, app)
  {
    for i := 0 to |apps|
      invariant forall j :: 0 <= j < i ==> !Contains(process, apps[j])
    {
      if Contains(process, apps[i]) {
        assert apps[i] in apps;
        return true;
      }
    }
    found := false;
  }

  /** Whether the search finds one of the target's variants: exact when the list is sorted. */
  method AnyDomain(domains: seq<string>, variants: seq<string>) returns (found: bool)
    ensures found ==> exists d :: d in domains && d in variants
    ensures Sorted(domains) ==> (found <==> exists d :: d in domains && d in variants)
  {
    for i := 0 to |variants|
      invariant Sorted(domains) ==> forall j :: 0 <= j < i ==> variants[j] !in domains
    {
      var ok := BinarySearch(domains, variants[i]);
      if ok {
        assert variants[i] in variants;
        return true;
      }
    }
    found := false;
  }

  // ---------------------------------------------------------------------
  // Weights

  /** The explicit weights of the enabled servers among the first `n`. */
  function Total(servers: seq<ServerConfig>, n: nat): nat
    requires n <= |servers|
  {
    if n == 0 then 0
    else Total(servers, n - 1) + match servers[n - 1].weight
           case Some(w) => if servers[n - 1].enabled then w else 0
           case None => 0
  }

  /** How many of the first `n` are enabled with a weight. */
  function Weighted(servers: seq<ServerConfig>, n: nat): nat
    requires n <= |servers|
  {
    if n == 0 then 0
    else Weighted(servers, n - 1) + if servers[n - 1].enabled && servers[n - 1].weight.Some? then 1 else 0
  }

  /** How many of the first `n` are enabled without one. */
  function Unweighted(servers: seq<ServerConfig>, n: nat): nat
    requires n <= |servers|
  {
    if n == 0 then 0
    else Unweighted(servers, n - 1) + if servers[n - 1].enabled && servers[n - 1].weight.None? then 1 else 0
  }

  /** The explicit weights are bytes: their sum is at most 255 for each server that has one. */
  lemma {:induction false} TotalBound(servers: seq<ServerConfig>, n: nat)
    requires n <= |servers|
    ensures Total(servers, n) <= 255 * Weighted(servers, n)
    ensures Weighted(servers, n) + Unweighted(servers, n) <= n
  {
    if n > 0 { TotalBound(servers, n - 1); }
  }

  /** The weight of a server without one; `None` where the division fails. */
  function Average(servers: seq<ServerConfig>): Option<nat> {
    var n := |servers|;
    TotalBound(servers, n);
    if Total(servers, n) > 0 then Some(Total(servers, n) / Weighted(servers, n))
    else if Unweighted(servers, n) == 0 then None
    else Some(100 / Unweighted(servers, n))
  }

  /** The explicit weights' average, rounded down, and 100 shared out among all servers where there are none. */
  lemma AverageBounds(servers: seq<ServerConfig>)
    ensures var total, weighted, unweighted, average :=
              Total(servers, |servers|), Weighted(servers, |servers|), Unweighted(servers, |servers|), Average(servers);
      if total > 0 then
        average.Some? && weighted * average.value <= total < weighted * (average.value + 1)
      else if unweighted > 0 then
        average.Some? && unweighted * average.value <= 100 < unweighted * (average.value + 1)
      else average.None?
  {
    var total, weighted, unweighted := Total(servers, |servers|), Weighted(servers, |servers|),
        Unweighted(servers, |servers|);
    TotalBound(servers, |servers|);
    if total > 0 {
      QuotientBounds(total, weighted);
    } else if unweighted > 0 {
      QuotientBounds(100, unweighted);
    }
  }

  lemma QuotientBounds(x: nat, n: nat)
    requires n > 0
    ensures n * (x / n) <= x < n * (x / n + 1)
  {
  }

  function Share(srv: ServerConfig, average: nat): nat {
    if !srv.enabled then 0
    else match srv.weight case Some(w) => w case None => average % 0x100
  }

  function Cumulative(servers: seq<ServerConfig>, average: nat, n: nat): nat
    requires n <= |servers|
  {
    if n == 0 then 0 else Cumulative(servers, average, n - 1) + Share(servers[n - 1], average)
  }

  /** The first enabled server that brings the cumulative weight up to the draw, else the first server. */
  ghost predicate Picks(servers: seq<ServerConfig>, average: nat, draw: nat, i: nat) {
    && i < |servers|
    && if Reaches(servers, average, draw) then
         && servers[i].enabled
         && draw <= Cumulative(servers, average, i + 1)
         && forall j :: 0 <= j < i && servers[j].enabled ==> Cumulative(servers, average, j + 1) < draw
       else i == 0
  }

  ghost predicate Reaches(servers: seq<ServerConfig>, average: nat, draw: nat) {
    exists i :: 0 <= i < |servers| && servers[i].enabled && draw <= Cumulative(servers, average, i + 1)
  }

  method Walk(servers: seq<ServerConfig>, average: nat, draw: nat) returns (i: nat)
    requires servers != []
    ensures Picks(servers, average, draw, i)
  {
    var curWeight := 0;
    i := 0;
    while i < |servers|
      invariant i <= |servers| && curWeight == Cumulative(servers, average, i)
      invariant forall j :: 0 <= j < i && servers[j].enabled ==> Cumulative(servers, average, j + 1) < draw
    {
      if servers[i].enabled {
        curWeight := curWeight + match servers[i].weight case Some(w) => w case None => average % 0x100;
        if curWeight >= draw {
          return;
        }
      }
      i := i + 1;
    }
    i := 0;
  }

  datatype Selection = Direct | NoServers | Panicked | Chosen(index: nat)

  /** The draw has no range to draw from: no average, or an empty range. */
  predicate CannotDraw(servers: seq<ServerConfig>) {
    Average(servers).None? || Average(servers).value == 0
  }

  /** The lists that are searched: those of domains, of enabled servers. */
  predicate DomainsSorted(servers: seq<ServerConfig>) {
    forall i :: 0 <= i < |servers| && servers[i].enabled ==> Sorted(Listed(servers[i].domains))
  }

  ghost predicate NoneByApp(servers: seq<ServerConfig>, process: string) {
    forall j :: 0 <= j < |servers| ==> !MatchesApp(servers[j], process)
  }

  ghost predicate FirstByApp(servers: seq<ServerConfig>, process: string, i: nat) {
    i < |servers| && MatchesApp(servers[i], process) && NoneByApp(servers[..i], process)
  }

  ghost predicate NoneByDomain(servers: seq<ServerConfig>, target: string) {
    forall j :: 0 <= j < |servers| ==> !MatchesDomain(servers[j], target)
  }

  ghost predicate FirstByDomain(servers: seq<ServerConfig>, target: string, i: nat) {
    i < |servers| && MatchesDomain(servers[i], target) && NoneByDomain(servers[..i], target)
  }

  ghost predicate ByWeight(servers: seq<ServerConfig>, random: nat, choice: Selection, draw: nat) {
    if CannotDraw(servers) then choice == Panicked
    else
      var average := Average(servers).value;
      draw == random % (average * |servers|) && choice.Chosen? && Picks(servers, average, draw, choice.index)
  }

  /** The rules in their order: direct applications, servers' applications, servers' domains, weights. */
  ghost predicate Selects(servers: seq<ServerConfig>, apps: seq<string>, target: string, process: string,
                          random: nat, choice: Selection, draw: nat)
  {
    if IsDirect(apps, process) then choice == Direct
    else if servers == [] then choice == NoServers
    else if !NoneByApp(servers, process) then choice.Chosen? && FirstByApp(servers, process, choice.index)
    else if DomainsSorted(servers) then
      if !NoneByDomain(servers, target) then choice.Chosen? && FirstByDomain(servers, target, choice.index)
      else ByWeight(servers, random, choice, draw)
    else
      // With an unsorted list a domain rule may be missed, but none is invented.
      || ByWeight(servers, random, choice, draw)
      || (choice.Chosen? && choice.index < |servers| && MatchesDomain(servers[choice.index], target))
  }

  /** A name with a dot that is all of `host`, or its end behind a dot. */
  ghost predicate IsSuffix(name: string, host: string) {
    '.' in name && (name == host || exists front: string :: host == front + "." + name)
  }

  ghost predicate ListsSuffix(servers: seq<ServerConfig>, i: int, host: string) {
    && 0 <= i < |servers| && servers[i].enabled && servers[i].domains.Some?
    && exists d :: d in servers[i].domains.value && IsSuffix(d, host)
  }

  /** If any server lists a suffix of `host`, the first that does is chosen. */
  ghost predicate ByHost(servers: seq<ServerConfig>, host: string, choice: Selection) {
    forall i :: ListsSuffix(servers, i, host) && (forall j :: 0 <= j < i ==> !ListsSuffix(servers, j, host))
      ==> choice == Chosen(i)
  }

  /** `random` is what the generator gives; reduced to its range it is `draw`. */
  method SelectServer(servers: seq<ServerConfig>, apps: seq<string>, target: string, process: string, random: nat)
    returns (choice: Selection, draw: nat)
    ensures Selects(servers, apps, target, process, random, choice, draw)
    ensures !IsDirect(apps, process) && NoneByApp(servers, process) && DomainsSorted(servers) ==>
      forall host: string, port: string :: target == host + ":" + port && ':' !in port ==> ByHost(servers, host, choice)
  {
    draw := 0;
    if process != "" {
      var direct := AnyApp(apps, process);
      if direct {
        return Direct, draw;
      }
    }
    var variants := DomainVariants(target);
    if servers == [] {
      return NoServers, draw;
    }
    for i := 0 to |servers|
      invariant NoneByApp(servers[..i], process)
    {
      if servers[i].enabled {
        var matches := AnyApp(Listed(servers[i].apps), process);
        if matches {
          assert MatchesApp(servers[i], process);
          return Chosen(i), draw;
        }
      }
      assert !MatchesApp(servers[i], process);
    }
    assert servers[..|servers|] == servers;
    choice, draw := SelectByDomain(servers, target, variants, random);
    forall host: string, port: string | DomainsSorted(servers) && target == host + ":" + port && ':' !in port
      ensures ByHost(servers, host, choice)
    {
      HostDecides(servers, host, port, choice);
    }
  }

  /** The `i`-th server is enabled and lists an application of which the process name has the whole name in it. */
  ghost predicate ListsPart(servers: seq<ServerConfig>, i: int, process: string) {
    && 0 <= i < |servers| && servers[i].enabled && servers[i].apps.Some?
    && exists app :: app in servers[i].apps.value && PartOf(app, process)
  }

  /** If any server lists such an application, the first that does is chosen. */
  ghost predicate ByProcess(servers: seq<ServerConfig>, process: string, choice: Selection) {
    forall i :: ListsPart(servers, i, process) && (forall j :: 0 <= j < i ==> !ListsPart(servers, j, process))
      ==> choice == Chosen(i)
  }

  ghost predicate PartOf(part: string, text: string) { exists a: string, b: string :: text == a + part + b }

  /**
    The rules without the predicates they are made of: when a connection is direct, when
    there is nothing to choose from, and which server an application chooses.
   */
  lemma RulesMean(servers: seq<ServerConfig>, apps: seq<string>, target: string, process: string, random: nat,
                  choice: Selection, draw: nat)
    requires Selects(servers, apps, target, process, random, choice, draw)
    ensures choice == Direct <==> process != "" && exists app :: app in apps && PartOf(app, process)
    ensures choice == NoServers <==> choice != Direct && servers == []
    ensures choice != Direct ==> ByProcess(servers, process, choice)
  {
    forall app: string ensures Contains(process, app) <==> PartOf(app, process) { ContainsMeans(process, app); }
    hide Contains, PartOf, Selects;
    AppsDecide(servers, process);
    assert IsDirect(apps, process) <==> process != "" && exists app :: app in apps && PartOf(app, process);
    RulesInOrder(servers, apps, target, process, random, choice, draw);
    hide ListsPart, MatchesApp, IsDirect;
    forall i | choice != Direct && ListsPart(servers, i, process)
               && forall j :: 0 <= j < i ==> !ListsPart(servers, j, process)
      ensures choice == Chosen(i)
    {
      assert MatchesApp(servers[i], process);
    }
  }

  lemma AppsDecide(servers: seq<ServerConfig>, process: string)
    ensures forall i :: 0 <= i < |servers| ==> (MatchesApp(servers[i], process) <==> ListsPart(servers, i, process))
  {
    forall app: string ensures Contains(process, app) <==> PartOf(app, process) { ContainsMeans(process, app); }
    hide Contains, PartOf;
  }

  lemma RulesInOrder(servers: seq<ServerConfig>, apps: seq<string>, target: string, process: string, random: nat,
                     choice: Selection, draw: nat)
    requires Selects(servers, apps, target, process, random, choice, draw)
    ensures choice == Direct <==> IsDirect(apps, process)
    ensures choice == NoServers <==> choice != Direct && servers == []
    ensures choice != Direct && !NoneByApp(servers, process)
      ==> choice.Chosen? && choice.index < |servers| && MatchesApp(servers[choice.index], process)
          && forall j :: 0 <= j < choice.index ==> !MatchesApp(servers[j], process)
  {
    hide MatchesApp, MatchesDomain, IsDirect, Sorted, CannotDraw, Picks;
    if choice != Direct && !NoneByApp(servers, process) {
      assert forall j :: 0 <= j < choice.index ==> servers[..choice.index][j] == servers[j];
    }
  }

  /** A disabled server is chosen only where no rule decides and the draw falls through to the first server. */
  lemma DisabledOnlyLast(servers: seq<ServerConfig>, apps: seq<string>, target: string, process: string, random: nat,
                         choice: Selection, draw: nat)
    requires Selects(servers, apps, target, process, random, choice, draw)
    requires choice.Chosen? && !servers[choice.index].enabled
    ensures choice.index == 0 && !CannotDraw(servers) && !Reaches(servers, Average(servers).value, draw)
    ensures NoneByApp(servers, process) && (DomainsSorted(servers) ==> NoneByDomain(servers, target))
  {
    hide Sorted, CannotDraw;
  }

  /** Whatever the port is, the rule for domains is one for the host before it. */
  lemma HostDecides(servers: seq<ServerConfig>, host: string, port: string, choice: Selection)
    requires ':' !in port
    requires !NoneByDomain(servers, host + ":" + port)
      ==> choice.Chosen? && FirstByDomain(servers, host + ":" + port, choice.index)
    ensures ByHost(servers, host, choice)
  {
    var target := host + ":" + port;
    forall j | 0 <= j < |servers| ensures MatchesDomain(servers[j], target) <==> ListsSuffix(servers, j, host) {
      HostMatches(servers, j, host, port);
    }
    forall i | ListsSuffix(servers, i, host) && forall j :: 0 <= j < i ==> !ListsSuffix(servers, j, host)
      ensures choice == Chosen(i)
    {
      hide MatchesDomain, ListsSuffix;
      assert NoneByDomain(servers[..i], target);
      FirstIsUnique(servers, target, i, choice);
    }
  }

  lemma HostMatches(servers: seq<ServerConfig>, j: nat, host: string, port: string)
    requires j < |servers| && ':' !in port
    ensures MatchesDomain(servers[j], host + ":" + port) <==> ListsSuffix(servers, j, host)
  {
    PortGoes(host, port);
    hide DotSuffix, WithoutPort;
    forall d: string ensures IsVariant(d, host) <==> IsSuffix(d, host) {
      DotSuffixMeans(d, host);
    }
    hide IsVariant, IsSuffix;
  }

  method SelectByDomain(servers: seq<ServerConfig>, target: string, variants: seq<string>, random: nat)
    returns (choice: Selection, draw: nat)
    requires servers != []
    requires AreVariants(variants, WithoutPort(target))
    ensures DomainsSorted(servers) && !NoneByDomain(servers, target)
      ==> choice.Chosen? && FirstByDomain(servers, target, choice.index)
    ensures DomainsSorted(servers) && NoneByDomain(servers, target) ==> ByWeight(servers, random, choice, draw)
    ensures
      || ByWeight(servers, random, choice, draw)
      || (choice.Chosen? && choice.index < |servers| && MatchesDomain(servers[choice.index], target))
  {
    hide MatchesDomain, AreVariants, ByWeight, Sorted, Listed;
    var totalWeight, enabledCount, unweightedCount := 0, 0, 0;
    draw := 0;
    for i := 0 to |servers|
      invariant DomainsSorted(servers) ==> NoneByDomain(servers[..i], target)
      invariant totalWeight == Total(servers, i)
      invariant unweightedCount == Unweighted(servers, i)
      invariant enabledCount == Weighted(servers, i) + Unweighted(servers, i)
    {
      ListMatches(servers[i], target, variants);
      if servers[i].enabled {
        assert DomainsSorted(servers) ==> Sorted(Listed(servers[i].domains));
        var found := AnyDomain(Listed(servers[i].domains), variants);
        if found {
          return Chosen(i), draw;
        }
        enabledCount := enabledCount + 1;
        match servers[i].weight {
          case Some(w) => totalWeight := totalWeight + w;
          case None => unweightedCount := unweightedCount + 1;
        }
      }
    }
    assert servers[..|servers|] == servers;
    choice, draw := SelectByWeight(servers, totalWeight, enabledCount, unweightedCount, random);
  }

  method SelectByWeight(servers: seq<ServerConfig>, totalWeight: nat, enabledCount: nat, unweightedCount: nat,
                        random: nat)
    returns (choice: Selection, draw: nat)
    requires servers != []
    requires totalWeight == Total(servers, |servers|) && unweightedCount == Unweighted(servers, |servers|)
    requires enabledCount == Weighted(servers, |servers|) + unweightedCount
    ensures ByWeight(servers, random, choice, draw)
  {
    draw := 0;
    TotalBound(servers, |servers|);
    if totalWeight == 0 && unweightedCount == 0 {
      return Panicked, draw;
    }
    var average := if totalWeight > 0 then totalWeight / (enabledCount - unweightedCount) else 100 / unweightedCount;
    assert Average(servers) == Some(average);
    hide Average, Total, Weighted, Unweighted, Picks;
    if average == 0 {
      return Panicked, draw;
    }
    Positive(average, |servers|);
    draw := random % (average * |servers|);
    var i := Walk(servers, average, draw);
    choice := Chosen(i);
  }

  lemma Positive(a: nat, b: nat)
    requires a > 0 && b > 0
    ensures a * b > 0
  {
  }

  lemma ListMatches(srv: ServerConfig, target: string, variants: seq<string>)
    requires AreVariants(variants, WithoutPort(target))
    ensures MatchesDomain(srv, target) <==> srv.enabled && exists d :: d in Listed(srv.domains) && d in variants
  {
    forall d ensures d in variants <==> IsVariant(d, WithoutPort(target)) {
      VariantsAreSuffixes(WithoutPort(target), variants, d);
    }
  }

  // ---------------------------------------------------------------------
  // What the walk picks

  /** Together the shares are the explicit weights and the average for each server without one. */
  lemma {:induction false} ShareSum(servers: seq<ServerConfig>, average: nat, n: nat)
    requires n <= |servers| && average < 0x100
    ensures Cumulative(servers, average, n) == Total(servers, n) + Unweighted(servers, n) * average
  {
    if n > 0 {
      ShareSum(servers, average, n - 1);
      AddOne(Unweighted(servers, n - 1), average);
    }
  }

  lemma AddOne(count: nat, average: nat)
    ensures (count + 1) * average == count * average + average
  {
  }

  lemma {:induction false} CumulativeGrows(servers: seq<ServerConfig>, average: nat, m: nat, n: nat)
    requires m <= n <= |servers|
    ensures Cumulative(servers, average, m) <= Cumulative(servers, average, n)
    decreases n
  {
    if m < n { CumulativeGrows(servers, average, m, n - 1); }
  }

  /** Up to the sum of the shares, each positive draw picks the one server whose share it falls in. */
  lemma PicksShare(servers: seq<ServerConfig>, average: nat, draw: nat, i: nat)
    requires i < |servers| && 0 < draw <= Cumulative(servers, average, |servers|)
    ensures Picks(servers, average, draw, i)
      <==> Cumulative(servers, average, i) < draw <= Cumulative(servers, average, i + 1)
  {
    var n := |servers|;
    forall j | 0 <= j <= n ensures Cumulative(servers, average, j) <= Cumulative(servers, average, n) {
      CumulativeGrows(servers, average, j, n);
    }
    Reach(servers, average, draw, n);
    if Cumulative(servers, average, i) < draw <= Cumulative(servers, average, i + 1) {
      forall j | 0 <= j < i && servers[j].enabled ensures Cumulative(servers, average, j + 1) < draw {
        CumulativeGrows(servers, average, j + 1, i);
      }
    } else if Picks(servers, average, draw, i) {
      Before(servers, average, draw, i);
    }
  }

  lemma {:induction false} Reach(servers: seq<ServerConfig>, average: nat, draw: nat, n: nat)
    requires n <= |servers| && 0 < draw <= Cumulative(servers, average, n)
    ensures Reaches(servers, average, draw)
  {
    if servers[n - 1].enabled {
      assert Cumulative(servers, average, n - 1 + 1) >= draw;
    } else {
      Reach(servers, average, draw, n - 1);
    }
  }

  /** Disabled servers add nothing, so the bound of the enabled ones before `i` is a bound at `i`. */
  lemma {:induction false} Before(servers: seq<ServerConfig>, average: nat, draw: nat, i: nat)
    requires i <= |servers| && 0 < draw
    requires forall j :: 0 <= j < i && servers[j].enabled ==> Cumulative(servers, average, j + 1) < draw
    ensures Cumulative(servers, average, i) < draw
  {
    if i > 0 && !servers[i - 1].enabled { Before(servers, average, draw, i - 1); }
    if i > 0 && servers[i - 1].enabled { assert Cumulative(servers, average, i - 1 + 1) < draw; }
  }

  predicate FirstEnabled(servers: seq<ServerConfig>, i: nat) {
    i < |servers| && servers[i].enabled && forall j :: 0 <= j < i ==> !servers[j].enabled
  }

  lemma {:induction false} NothingBefore(servers: seq<ServerConfig>, average: nat, i: nat)
    requires i <= |servers| && forall j :: 0 <= j < i ==> !servers[j].enabled
    ensures Cumulative(servers, average, i) == 0
  {
    if i > 0 { NothingBefore(servers, average, i - 1); }
  }

  /** A draw of zero goes to the first enabled server, whatever its weight. */
  lemma PicksZero(servers: seq<ServerConfig>, average: nat, i: nat)
    requires exists j :: 0 <= j < |servers| && servers[j].enabled
    ensures Picks(servers, average, 0, i) <==> FirstEnabled(servers, i)
  {
    var j :| 0 <= j < |servers| && servers[j].enabled;
    assert 0 <= Cumulative(servers, average, j + 1);
    if FirstEnabled(servers, i) {
      assert Cumulative(servers, average, i + 1) >= 0;
    }
    if Picks(servers, average, 0, i) {
      forall k | 0 <= k < i ensures !servers[k].enabled {
        if servers[k].enabled { assert false; }
      }
    }
  }

  /** A server of weight zero is picked by the draw zero if it comes first, and else only by falling through. */
  lemma ZeroWeight(servers: seq<ServerConfig>, average: nat, draw: nat, i: nat)
    requires i < |servers| && servers[i].enabled && servers[i].weight == Some(0)
    ensures Picks(servers, average, draw, i)
      <==> (if Reaches(servers, average, draw) then draw == 0 && FirstEnabled(servers, i) else i == 0)
  {
    PicksZero(servers, average, i);
    if draw > 0 && Reaches(servers, average, draw) {
      var k :| 0 <= k < |servers| && servers[k].enabled && draw <= Cumulative(servers, average, k + 1);
      CumulativeGrows(servers, average, k + 1, |servers|);
      PicksShare(servers, average, draw, i);
    }
  }

  /** Some draw picks a server of weight zero after all, if and only if it is the first enabled one. */
  lemma ZeroWeightUsed(servers: seq<ServerConfig>, i: nat)
    requires !CannotDraw(servers)
    requires i < |servers| && servers[i].enabled && servers[i].weight == Some(0)
    ensures (exists draw: nat :: draw < Average(servers).value * |servers| && Picks(servers, Average(servers).value,
        draw, i))
      <==> FirstEnabled(servers, i)
  {
    var average := Average(servers).value;
    hide Average, Picks;
    forall draw: nat
      ensures Picks(servers, average, draw, i)
        <==> (if Reaches(servers, average, draw) then draw == 0 && FirstEnabled(servers, i) else i == 0)
    {
      ZeroWeight(servers, average, draw, i);
    }
    ReachesZero(servers, average, i);
    assert average * |servers| > 0;
    if FirstEnabled(servers, i) { assert Picks(servers, average, 0, i); }
  }

  lemma ReachesZero(servers: seq<ServerConfig>, average: nat, i: nat)
    requires i < |servers| && servers[i].enabled
    ensures Reaches(servers, average, 0)
  {
    assert 0 <= Cumulative(servers, average, i + 1);
  }

  /** Some draw picks a disabled server, if and only if it is the first of all and the walk can fall through. */
  lemma DisabledUsed(servers: seq<ServerConfig>, i: nat)
    requires !CannotDraw(servers)
    requires i < |servers| && !servers[i].enabled
    ensures var n, average := |servers|, Average(servers).value;
      (exists draw: nat :: draw < average * n && Picks(servers, average, draw, i))
      <==> i == 0 && Total(servers, n) + Unweighted(servers, n) * average + 1 < average * n
  {
    FallsThroughIff(servers);
    var average := Average(servers).value;
    forall draw: nat ensures Picks(servers, average, draw, i) <==> i == 0 && !Reaches(servers, average, draw) {
    }
  }

  /** The average fits a byte, so the cast in the walk loses nothing. */
  lemma AverageFits(servers: seq<ServerConfig>)
    ensures Average(servers).Some? ==> Average(servers).value < 0x100
  {
    var total, count := Total(servers, |servers|), Weighted(servers, |servers|);
    TotalBound(servers, |servers|);
    if total > 0 { QuotientAtMost(total, count, 255); }
  }

  lemma QuotientAtMost(x: nat, n: nat, bound: nat)
    requires n > 0 && x <= bound * n
    ensures x / n <= bound
  {
    assert n * (x / n - bound) <= 0;
  }

  /** When no draw is possible: nothing to divide by, or an average that rounds down to zero. */
  lemma CannotDrawIff(servers: seq<ServerConfig>)
    ensures var n := |servers|;
      CannotDraw(servers) <==>
      if Total(servers, n) == 0 then Unweighted(servers, n) == 0 || Unweighted(servers, n) > 100
      else Total(servers, n) < Weighted(servers, n)
  {
    var n := |servers|;
    TotalBound(servers, n);
    hide Total, Weighted, Unweighted;
    if Total(servers, n) > 0 {
      QuotientZero(Total(servers, n), Weighted(servers, n));
    } else if Unweighted(servers, n) > 0 {
      QuotientZero(100, Unweighted(servers, n));
    }
  }

  lemma QuotientZero(x: nat, n: nat)
    requires n > 0
    ensures x / n == 0 <==> x < n
  {
  }

  /** Some draw falls through to the first server if and only if the shares fall short of the range. */
  lemma FallsThroughIff(servers: seq<ServerConfig>)
    requires !CannotDraw(servers)
    ensures var n, average := |servers|, Average(servers).value;
      (exists draw: nat :: draw < average * n && !Reaches(servers, average, draw))
      <==> Total(servers, n) + Unweighted(servers, n) * average + 1 < average * n
  {
    var n, average := |servers|, Average(servers).value;
    var sum := Cumulative(servers, average, n);
    AverageFits(servers);
    ShareSum(servers, average, n);
    forall draw: nat ensures Reaches(servers, average, draw) <==> draw <= sum {
      ReachesIff(servers, average, draw);
    }
    if sum + 1 < average * n { assert !Reaches(servers, average, sum + 1); }
  }

  lemma {:induction false} SomeEnabled(servers: seq<ServerConfig>, n: nat)
    requires n <= |servers| && Weighted(servers, n) + Unweighted(servers, n) > 0
    ensures exists i :: 0 <= i < n && servers[i].enabled
  {
    if !servers[n - 1].enabled { SomeEnabled(servers, n - 1); }
  }

  lemma ReachesIff(servers: seq<ServerConfig>, average: nat, draw: nat)
    requires !CannotDraw(servers)
    ensures Reaches(servers, average, draw) <==> draw <= Cumulative(servers, average, |servers|)
  {
    if draw == 0 {
      TotalBound(servers, |servers|);
      SomeEnabled(servers, |servers|);
      var i :| 0 <= i < |servers| && servers[i].enabled;
      assert draw <= Cumulative(servers, average, i + 1);
    } else if draw <= Cumulative(servers, average, |servers|) {
      Reach(servers, average, draw, |servers|);
    } else {
      forall i | 0 <= i <= |servers| ensures Cumulative(servers, average, i) < draw {
        CumulativeGrows(servers, average, i, |servers|);
      }
    }
  }

  /** With every server enabled the walk ends at a share, but for servers of weight zero beside unweighted ones. */
  lemma AllEnabledReach(servers: seq<ServerConfig>)
    requires !CannotDraw(servers)
    requires forall i :: 0 <= i < |servers| ==> servers[i].enabled
    ensures var n, average := |servers|, Average(servers).value;
      (forall draw: nat :: draw < average * n ==> Reaches(servers, average, draw))
      <==> Total(servers, n) > 0 || average * Weighted(servers, n) <= 1
  {
    var n, average := |servers|, Average(servers).value;
    var total, weighted, unweighted := Total(servers, n), Weighted(servers, n), Unweighted(servers, n);
    TotalBound(servers, n);
    FallsThroughIff(servers);
    AllCounted(servers, n);
    Covered(total, weighted, unweighted, average);
    hide Total, Weighted, Unweighted, Average, Reaches;
  }

  lemma Covered(total: nat, weighted: nat, unweighted: nat, average: nat)
    requires total > 0 ==> weighted > 0 && average == total / weighted
    ensures total + unweighted * average + 1 < average * (weighted + unweighted)
      <==> total == 0 && average * weighted > 1
  {
    assert average * (weighted + unweighted) == average * weighted + unweighted * average;
    if total > 0 { assert total / weighted * weighted <= total; }
  }

  lemma {:induction false} AllCounted(servers: seq<ServerConfig>, n: nat)
    requires n <= |servers| && forall i :: 0 <= i < |servers| ==> servers[i].enabled
    ensures Weighted(servers, n) + Unweighted(servers, n) == n
  {
    if n > 0 { AllCounted(servers, n - 1); }
  }

  // ---------------------------------------------------------------------
  // From the lists to the rules

  /** Lists sorted at the start are searched exactly after every run of operations. */
  lemma RunKeepsSearch(st: State, ops: seq<Op>)
    requires forall srv <- st.servers ::
      && (srv.domains.Some? ==> srv.domains.value == Sort(srv.domains.value))
      && (srv.apps.Some? ==> srv.apps.value == Sort(srv.apps.value))
    ensures DomainsSorted(Run(st, ops).servers)
  {
    assert Sorted([]);
    hide Sort, Sorted, Run;
    forall i | 0 <= i < |st.servers| ensures ListsSorted(st.servers[i]) {
      assert st.servers[i] in st.servers;
      SortSorts(Listed(st.servers[i].domains));
      SortSorts(Listed(st.servers[i].apps));
    }
    RunKeepsSorted(st, ops);
    assert forall i :: 0 <= i < |Run(st, ops).servers| ==> ListsSorted(Run(st, ops).servers[i]);
  }

  /**
    After a domain is assigned to a server, that server's domain rule matches a target
    under it if and only if the server is enabled, and the domain has two labels or the
    rule matched before.
   */
  lemma AssignedDomainMatches(st: State, domain: string, host: string, target: string)
    requires host != "" && HostIndex(st.servers, host) < |st.servers|
    requires DotSuffix(domain, WithoutPort(target))
    ensures var i := HostIndex(st.servers, host);
      var after := Apply(st, SetDomain(domain, host)).0.servers;
      |after| == |st.servers|
      && after[i].enabled == st.servers[i].enabled
      && (MatchesDomain(after[i], target)
          <==> st.servers[i].enabled && ('.' in domain || MatchesDomain(st.servers[i], target)))
  {
    var i := HostIndex(st.servers, host);
    SetDomainLists(st, domain, host, i, domain);
    forall d ensures d in Listed(Apply(st, SetDomain(domain, host)).0.servers[i].domains)
      <==> d in Listed(st.servers[i].domains) || d == domain
    {
      SetDomainLists(st, domain, host, i, d);
    }
    hide With, Sort;
    assert '.' in domain <==> IsVariant(domain, WithoutPort(target));
  }

  /**
    After a domain is assigned to a server, the script answers DIRECT exactly for the
    targets under the other direct domains, and under this one if it was direct twice.
   */
  lemma ScriptAfterAssignment(st: State, domain: string, host: string, buckets: seq<seq<string>>, name: string)
    requires host != "" && Pac.IsIndex(buckets, Apply(st, SetDomain(domain, host)).0.domains)
    ensures (exists i: nat :: Pac.Finds(buckets, name, i))
      <==> exists d :: d in st.domains && DotSuffix(d, name) && (d == domain ==> multiset(st.domains)[domain] > 1)
  {
    var direct := Apply(st, SetDomain(domain, host)).0.domains;
    Pac.IndexMeansSuffix(buckets, direct, name);
    forall d ensures d in direct <==> d in st.domains && (d == domain ==> multiset(st.domains)[domain] > 1) {
      DirectDomains(st, domain, host, d);
      assert d in st.domains <==> d in multiset(st.domains);
    }
  }

  /**
    And the proxy chooses that server for a target under the domain that no application
    rule decides, if and only if no enabled server before it lists a suffix of the target.
   */
  lemma AssignedDomainRoutes(st: State, domain: string, host: string, target: string, process: string,
                             random: nat, choice: Selection, draw: nat)
    requires host != "" && HostIndex(st.servers, host) < |st.servers|
    requires st.servers[HostIndex(st.servers, host)].enabled && DomainsSorted(st.servers)
    requires '.' in domain && DotSuffix(domain, WithoutPort(target))
    requires !IsDirect(st.apps, process) && NoneByApp(st.servers, process)
    requires var after := Apply(st, SetDomain(domain, host)).0;
      Selects(after.servers, after.apps, target, process, random, choice, draw)
    ensures choice == Chosen(HostIndex(st.servers, host))
      <==> NoneByDomain(st.servers[..HostIndex(st.servers, host)], target)
  {
    var i, after := HostIndex(st.servers, host), Apply(st, SetDomain(domain, host)).0;
    AssignedDomainMatches(st, domain, host, target);
    OnlyThatServer(st, domain, host);
    AppsStay(st.servers, after.servers, process);
    hide Apply, Sorted, MatchesDomain, MatchesApp;
    assert after.servers[..i] == st.servers[..i];
    FirstIsUnique(after.servers, target, i, choice);
  }

  lemma OnlyThatServer(st: State, domain: string, host: string)
    requires host != "" && HostIndex(st.servers, host) < |st.servers| && DomainsSorted(st.servers)
    ensures var i, after := HostIndex(st.servers, host), Apply(st, SetDomain(domain, host)).0;
      && |after.servers| == |st.servers| && after.apps == st.apps && DomainsSorted(after.servers)
      && (forall k :: 0 <= k < |st.servers| && k != i ==> after.servers[k] == st.servers[k])
      && after.servers[i].enabled == st.servers[i].enabled && after.servers[i].apps == st.servers[i].apps
  {
    var i := HostIndex(st.servers, host);
    if st.servers[i].enabled { WithKeepsSorted(st.servers[i].domains, domain); }
  }

  lemma AppsStay(servers: seq<ServerConfig>, after: seq<ServerConfig>, process: string)
    requires |after| == |servers| && NoneByApp(servers, process)
    requires forall k :: 0 <= k < |servers| ==>
      after[k].enabled == servers[k].enabled && after[k].apps == servers[k].apps
    ensures NoneByApp(after, process)
  {
    forall k | 0 <= k < |after| ensures !MatchesApp(after[k], process) {
      assert !MatchesApp(servers[k], process);
    }
  }

  lemma NoneAt(servers: seq<ServerConfig>, n: nat, target: string, k: nat)
    requires k < n <= |servers| && NoneByDomain(servers[..n], target)
    ensures !MatchesDomain(servers[k], target)
  {
    assert servers[..n][k] == servers[k];
  }

  /** If the `i`-th server matches, the first that matches is the `i`-th exactly if none before it does. */
  lemma FirstIsUnique(servers: seq<ServerConfig>, target: string, i: nat, choice: Selection)
    requires i < |servers| && MatchesDomain(servers[i], target)
    ensures !NoneByDomain(servers, target)
    ensures choice.Chosen? && FirstByDomain(servers, target, choice.index)
      ==> (choice.index == i <==> NoneByDomain(servers[..i], target))
  {
    if choice.Chosen? && FirstByDomain(servers, target, choice.index) && NoneByDomain(servers[..i], target) {
      var j := choice.index;
      if j < i {
        NoneAt(servers, i, target, j);
      } else if i < j {
        NoneAt(servers, j, target, i);
      }
    }
  }
}
