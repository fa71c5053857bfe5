/** `Proxy`: the lists of domains and applications that decide where a connection goes. */
module Routing {
  import opened Bytes
  import opened Domains

  datatype ServerConfig = ServerConfig(
    host: string,
    weight: Option<byte>,
    domains: Option<seq<string>>,
    apps: Option<seq<string>>,
    enabled: bool
  )

  datatype Outcome = Ok | NotFound

  /** `domains` are the direct ones, kept by the PAC service; `apps` the direct applications. */
  datatype State = State(servers: seq<ServerConfig>, apps: seq<string>, domains: seq<string>)

  // ---------------------------------------------------------------------
  // The lists

  function Listed(list: Option<seq<string>>): seq<string> {
    match list case None => [] case Some(l) => l
  }

  /** The list with `x` in it, sorted anew if `x` had to be added. */
  function With(list: Option<seq<string>>, x: string): Option<seq<string>> {
    match list
    case None => Some([x])
    case Some(l) => if x in l then list else Some(Sort(l + [x]))
  }

  function Without(list: Option<seq<string>>, x: string): Option<seq<string>> {
    match list
    case None => None
    case Some(l) => Some(RemoveFirst(l, x))
  }

  /** The first server of this host, or the number of servers. */
  function HostIndex(servers: seq<ServerConfig>, host: string): (i: nat)
    ensures i <= |servers|
    ensures i < |servers| ==> servers[i].host == host
    ensures forall j :: 0 <= j < i ==> servers[j].host != host
  {
    if servers == [] then 0
    else if servers[0].host == host then 0
    else 1 + HostIndex(servers[1..], host)
  }

  function WithoutDomain(servers: seq<ServerConfig>, domain: string): (r: seq<ServerConfig>)
    ensures |r| == |servers|
    ensures forall i :: 0 <= i < |r| ==> r[i] == servers[i].(domains := Without(servers[i].domains, domain))
  {
    seq(|servers|, i requires 0 <= i < |servers| => servers[i].(domains := Without(servers[i].domains, domain)))
  }

  function WithoutApp(servers: seq<ServerConfig>, app: string): (r: seq<ServerConfig>)
    ensures |r| == |servers|
    ensures forall i :: 0 <= i < |r| ==> r[i] == servers[i].(apps := Without(servers[i].apps, app))
  {
    seq(|servers|, i requires 0 <= i < |servers| => servers[i].(apps := Without(servers[i].apps, app)))
  }

  /** The operations on the lists, each with its whole effect. */
  datatype Op =
    | SetDomain(domain: string, host: string)
    | RemoveDomain(domain: string)
    | SetApp(app: string, host: string)
    | RemoveApp(app: string)

  /** The domain or application an operation is about. */
  function Subject(op: Op): string {
    match op
    case SetDomain(domain, _) => domain
    case RemoveDomain(domain) => domain
    case SetApp(app, _) => app
    case RemoveApp(app) => app
  }

  function Apply(st: State, op: Op): (State, Outcome) {
    match op
    case SetDomain(domain, host) =>
      if host != "" then
        var i := HostIndex(st.servers, host);
        var direct := RemoveFirst(st.domains, domain);
        if i < |st.servers| then
          (State(st.servers[i := st.servers[i].(domains := With(st.servers[i].domains, domain))], st.apps, direct), Ok)
        else (st.(domains := direct), NotFound)
      else
        (State(WithoutDomain(st.servers, domain), st.apps,
               if domain in st.domains then st.domains else st.domains + [domain]), Ok)
    case RemoveDomain(domain) =>
      if domain in st.domains then
        (State(WithoutDomain(st.servers, domain), st.apps, RemoveFirst(st.domains, domain)), Ok)
      else (st, NotFound)
    case SetApp(app, host) =>
      if host != "" then
        var i := HostIndex(st.servers, host);
        var direct := RemoveFirst(st.apps, app);
        if i < |st.servers| then
          (State(st.servers[i := st.servers[i].(apps := With(st.servers[i].apps, app))], direct, st.domains), Ok)
        else (st.(apps := direct), NotFound)
      else
        (State(WithoutApp(st.servers, app), if app in st.apps then st.apps else st.apps + [app], st.domains), Ok)
    case RemoveApp(app) =>
      if app in st.apps then
        (State(WithoutApp(st.servers, app), RemoveFirst(st.apps, app), st.domains), Ok)
      else (st, NotFound)
  }

  predicate ListsSorted(srv: ServerConfig) { Sorted(Listed(srv.domains)) && Sorted(Listed(srv.apps)) }

  predicate AllSorted(servers: seq<ServerConfig>) { forall i :: 0 <= i < |servers| ==> ListsSorted(servers[i]) }

  lemma WithKeepsSorted(list: Option<seq<string>>, x: string)
    requires Sorted(Listed(list))
    ensures Sorted(Listed(With(list, x))) && Sorted(Listed(Without(list, x)))
  {
    match list {
      case None => LeqTotal(x, x);
      case Some(l) =>
        SortSorts(l + [x]);
        RemoveKeepsSorted(l, x);
    }
  }

  /** Every operation keeps every list sorted. */
  lemma ApplyKeepsSorted(st: State, op: Op)
    requires AllSorted(st.servers)
    ensures AllSorted(Apply(st, op).0.servers)
  {
    hide Sorted, With, Without, RemoveFirst;
    var x := Subject(op);
    var after := Apply(st, op).0.servers;
    forall i | 0 <= i < |after| ensures ListsSorted(after[i]) {
      assert ListsSorted(st.servers[i]);
      WithKeepsSorted(st.servers[i].domains, x);
      WithKeepsSorted(st.servers[i].apps, x);
    }
  }

  function Run(st: State, ops: seq<Op>): State
    decreases |ops|
  {
    if ops == [] then st else Run(Apply(st, ops[0]).0, ops[1..])
  }

  /** So does every run of them: the binary search of `SelectServer` stays a membership test. */
  lemma {:induction false} RunKeepsSorted(st: State, ops: seq<Op>)
    requires AllSorted(st.servers)
    ensures AllSorted(Run(st, ops).servers)
    decreases |ops|
  {
    if ops != [] {
      ApplyKeepsSorted(st, ops[0]);
      RunKeepsSorted(Apply(st, ops[0]).0, ops[1..]);
    }
  }

  // ---------------------------------------------------------------------
  // What each operation does

  /** How long a list is and how often what is listed: one entry more, unless it is there already. */
  lemma WithCounts(list: Option<seq<string>>, x: string)
    ensures multiset(Listed(With(list, x)))
         == multiset(Listed(list)) + if x in Listed(list) then multiset{} else multiset{x}
    ensures x in Listed(list) ==> With(list, x) == list
    ensures x !in Listed(list) ==> Sorted(Listed(With(list, x)))
  {
    match list {
      case None => LeqTotal(x, x);
      case Some(l) => SortSorts(l + [x]);
    }
  }

  /**
    A server that a domain is assigned to lists it once more if it did not list it, in a
    sorted list; all the rest of it and all the other servers stay as they are.
   */
  lemma SetDomainAtServer(st: State, domain: string, host: string, i: nat)
    requires host != "" && i < |st.servers|
    ensures |Apply(st, SetDomain(domain, host)).0.servers| == |st.servers|
    ensures var before, after := st.servers[i], Apply(st, SetDomain(domain, host)).0.servers[i];
      if st.servers[i].host == host && (forall j :: 0 <= j < i ==> st.servers[j].host != host) then
        && after == before.(domains := after.domains)
        && (if domain in Listed(before.domains) then after == before
            else
              && multiset(Listed(after.domains)) == multiset(Listed(before.domains)) + multiset{domain}
              && Sorted(Listed(after.domains)))
      else after == before
  {
    hide Sorted, RemoveFirst, With;
    WithCounts(st.servers[i].domains, domain);
  }

  /** The same of an application. */
  lemma SetAppAtServer(st: State, app: string, host: string, i: nat)
    requires host != "" && i < |st.servers|
    ensures |Apply(st, SetApp(app, host)).0.servers| == |st.servers|
    ensures var before, after := st.servers[i], Apply(st, SetApp(app, host)).0.servers[i];
      if st.servers[i].host == host && (forall j :: 0 <= j < i ==> st.servers[j].host != host) then
        && after == before.(apps := after.apps)
        && (if app in Listed(before.apps) then after == before
            else
              && multiset(Listed(after.apps)) == multiset(Listed(before.apps)) + multiset{app}
              && Sorted(Listed(after.apps)))
      else after == before
  {
    hide Sorted, RemoveFirst, With;
    WithCounts(st.servers[i].apps, app);
  }

  /** An operation fails for want of the host it names, or of the entry it is to remove. */
  lemma Outcomes(st: State, op: Op)
    ensures Apply(st, op).1.Ok? <==> match op
      case SetDomain(_, host) => host == "" || exists i :: 0 <= i < |st.servers| && st.servers[i].host == host
      case SetApp(_, host) => host == "" || exists i :: 0 <= i < |st.servers| && st.servers[i].host == host
      case RemoveDomain(domain) => domain in st.domains
      case RemoveApp(app) => app in st.apps
  {
    hide RemoveFirst, With;
  }

  /** Of a server only the lists change, and what is done to domains leaves all applications alone and the reverse. */
  lemma Frame(st: State, op: Op, i: nat)
    requires i < |st.servers|
    ensures |Apply(st, op).0.servers| == |st.servers|
    ensures var (before, after) := (st.servers[i], Apply(st, op).0.servers[i]);
      && after.host == before.host && after.weight == before.weight && after.enabled == before.enabled
      && (op.SetDomain? || op.RemoveDomain? ==> after.apps == before.apps && Apply(st, op).0.apps == st.apps)
      && (op.SetApp? || op.RemoveApp? ==> after.domains == before.domains && Apply(st, op).0.domains == st.domains)
  {
    hide RemoveFirst, With;
  }

  /** What becomes of the direct domains in their order; `i` is where the domain stands first, if at all. */
  lemma DirectDomainOrder(st: State, domain: string, host: string, i: nat)
    requires i <= |st.domains| && (i < |st.domains| ==> st.domains[i] == domain)
    requires forall j :: 0 <= j < i ==> st.domains[j] != domain
    ensures var list, after := st.domains, Apply(st, SetDomain(domain, host)).0.domains;
      if host == "" then after == (if i < |list| then list else list + [domain])
      else after == (if i < |list| then list[..i] + list[i + 1..] else list)
    ensures i < |st.domains| ==>
      Apply(st, RemoveDomain(domain)).0.domains == st.domains[..i] + st.domains[i + 1..]
  {
    FirstGoes(st.domains, domain, i);
    DomainsDirectly(st, domain, host);
    hide RemoveFirst, Apply;
  }

  lemma DomainsDirectly(st: State, domain: string, host: string)
    ensures var list, after := st.domains, Apply(st, SetDomain(domain, host)).0.domains;
      if host != "" then after == RemoveFirst(list, domain)
      else after == if domain in list then list else list + [domain]
    ensures domain in st.domains ==> Apply(st, RemoveDomain(domain)).0.domains == RemoveFirst(st.domains, domain)
  {
    hide RemoveFirst, With, Without;
  }

  lemma DirectAppOrder(st: State, app: string, host: string, i: nat)
    requires i <= |st.apps| && (i < |st.apps| ==> st.apps[i] == app)
    requires forall j :: 0 <= j < i ==> st.apps[j] != app
    ensures var list, after := st.apps, Apply(st, SetApp(app, host)).0.apps;
      if host == "" then after == (if i < |list| then list else list + [app])
      else after == (if i < |list| then list[..i] + list[i + 1..] else list)
    ensures i < |st.apps| ==> Apply(st, RemoveApp(app)).0.apps == st.apps[..i] + st.apps[i + 1..]
  {
    FirstGoes(st.apps, app, i);
    AppsDirectly(st, app, host);
    hide RemoveFirst, Apply;
  }

  lemma AppsDirectly(st: State, app: string, host: string)
    ensures var list, after := st.apps, Apply(st, SetApp(app, host)).0.apps;
      if host != "" then after == RemoveFirst(list, app) else after == if app in list then list else list + [app]
    ensures app in st.apps ==> Apply(st, RemoveApp(app)).0.apps == RemoveFirst(st.apps, app)
  {
    hide RemoveFirst, With, Without;
  }

  lemma FirstGoes(list: seq<string>, x: string, i: nat)
    requires i <= |list| && (i < |list| ==> list[i] == x)
    requires forall j :: 0 <= j < i ==> list[j] != x
    ensures i < |list| <==> x in list
    ensures RemoveFirst(list, x) == if i < |list| then list[..i] + list[i + 1..] else list
  {
    if i < |list| { RemovesFirst(list, x, i); } else { RemovesNothing(list, x); }
  }

  // ---------------------------------------------------------------------
  // Without duplicates

  ghost predicate Distinct(list: seq<string>) { Once(multiset(list)) }

  ghost predicate Once(entries: multiset<string>) { forall x :: entries[x] <= 1 }

  lemma StillOnce(entries: multiset<string>, x: string)
    requires Once(entries)
    ensures Once(entries - multiset{x}) && (x !in entries ==> Once(entries + multiset{x}))
    ensures entries + multiset{} == entries
  {
  }

  /** No two entries are the same. */
  lemma {:induction false} DistinctMeans(list: seq<string>)
    ensures Distinct(list) <==> forall i, j :: 0 <= i < j < |list| ==> list[i] != list[j]
  {
    if list != [] {
      var first, rest := list[0], list[1..];
      assert list == [first] + rest;
      DistinctMeans(rest);
      assert multiset(list) == multiset{first} + multiset(rest);
      assert first in rest <==> first in multiset(rest);
      OneInFront(multiset(rest), first);
      hide Once;
      assert (forall i, j :: 0 <= i < j < |list| ==> list[i] != list[j])
        <==> first !in rest && forall i, j :: 0 <= i < j < |rest| ==> rest[i] != rest[j];
    }
  }

  lemma OneInFront(entries: multiset<string>, x: string)
    ensures Once(multiset{x} + entries) <==> Once(entries) && x !in entries
  {
    if Once(multiset{x} + entries) {
      assert (multiset{x} + entries)[x] <= 1;
      forall y ensures entries[y] <= 1 { assert (multiset{x} + entries)[y] <= 1; }
    }
  }

  ghost predicate AllDistinct(st: State) {
    && Distinct(st.apps) && Distinct(st.domains)
    && forall i :: 0 <= i < |st.servers| ==>
         Distinct(Listed(st.servers[i].domains)) && Distinct(Listed(st.servers[i].apps))
  }

  lemma DistinctAfter(list: Option<seq<string>>, x: string)
    requires Distinct(Listed(list))
    ensures Distinct(Listed(With(list, x))) && Distinct(Listed(Without(list, x)))
    ensures Distinct(RemoveFirst(Listed(list), x))
    ensures x !in Listed(list) ==> Distinct(Listed(list) + [x])
  {
    var l := Listed(list);
    WithCounts(list, x);
    StillOnce(multiset(l), x);
    assert x in multiset(l) <==> x in l;
    assert Listed(Without(list, x)) == RemoveFirst(l, x);
    assert multiset(RemoveFirst(l, x)) == multiset(l) - multiset{x};
    hide With, Without, RemoveFirst, Sort, Once, Sorted;
    assert multiset(l + [x]) == multiset(l) + multiset{x};
  }

  /** No operation lists anything twice that was listed once. */
  lemma ApplyKeepsDistinct(st: State, op: Op)
    requires AllDistinct(st)
    ensures AllDistinct(Apply(st, op).0)
  {
    hide Distinct, With, Without, RemoveFirst;
    var x := Subject(op);
    var after := Apply(st, op).0;
    DistinctAfter(Some(st.apps), x);
    DistinctAfter(Some(st.domains), x);
    forall i | 0 <= i < |after.servers|
      ensures Distinct(Listed(after.servers[i].domains)) && Distinct(Listed(after.servers[i].apps))
    {
      DistinctAfter(st.servers[i].domains, x);
      DistinctAfter(st.servers[i].apps, x);
    }
  }

  lemma {:induction false} RunKeepsDistinct(st: State, ops: seq<Op>)
    requires AllDistinct(st)
    ensures AllDistinct(Run(st, ops))
    decreases |ops|
  {
    if ops != [] {
      ApplyKeepsDistinct(st, ops[0]);
      RunKeepsDistinct(Apply(st, ops[0]).0, ops[1..]);
    }
  }

  /** After any run from lists without duplicates, a domain made direct is with no server and direct exactly once. */
  lemma MadeDirect(st: State, ops: seq<Op>, domain: string)
    requires AllDistinct(st)
    ensures var after := Apply(Run(st, ops), SetDomain(domain, "")).0;
      && multiset(after.domains)[domain] == 1
      && forall i :: 0 <= i < |after.servers| ==> domain !in Listed(after.servers[i].domains)
  {
    RunKeepsDistinct(st, ops);
    var now := Run(st, ops);
    var after := Apply(now, SetDomain(domain, "")).0;
    hide Run;
    ApplyKeepsDistinct(now, SetDomain(domain, ""));
    forall i | 0 <= i < |after.servers| ensures domain !in Listed(after.servers[i].domains) {
      ClearDomainLists(now, domain, i, domain);
    }
    DirectDomains(now, domain, "", domain);
    hide Apply;
    assert domain in multiset(after.domains);
  }

  /** The same of an application. */
  lemma AppMadeDirect(st: State, ops: seq<Op>, app: string)
    requires AllDistinct(st)
    ensures var after := Apply(Run(st, ops), SetApp(app, "")).0;
      && multiset(after.apps)[app] == 1
      && forall i :: 0 <= i < |after.servers| ==> app !in Listed(after.servers[i].apps)
  {
    RunKeepsDistinct(st, ops);
    var now := Run(st, ops);
    var after := Apply(now, SetApp(app, "")).0;
    hide Run;
    ApplyKeepsDistinct(now, SetApp(app, ""));
    forall i | 0 <= i < |after.servers| ensures app !in Listed(after.servers[i].apps) {
      ClearAppLists(now, app, i, app);
    }
    DirectApps(now, app, "", app);
    hide Apply;
    assert app in multiset(after.apps);
  }

  // ---------------------------------------------------------------------
  // Who lists what

  lemma SortHas(list: seq<string>, x: string)
    ensures x in Sort(list) <==> x in list
  {
    assert x in multiset(Sort(list)) <==> x in multiset(list);
  }

  /** Assigning a domain to a server changes who lists what only for that domain and that server. */
  lemma SetDomainLists(st: State, domain: string, host: string, i: nat, x: string)
    requires host != "" && i < |st.servers|
    ensures |Apply(st, SetDomain(domain, host)).0.servers| == |st.servers|
    ensures Apply(st, SetDomain(domain, host)).1.Ok? <==> HostIndex(st.servers, host) < |st.servers|
    ensures var list := Listed(st.servers[i].domains);
      var after := Listed(Apply(st, SetDomain(domain, host)).0.servers[i].domains);
      x in after <==> (x in list || (x == domain && i == HostIndex(st.servers, host)))
  {
    hide RemoveFirst, Sort, HostIndex;
    SortHas(Listed(st.servers[i].domains) + [domain], x);
  }

  /**
    Making a domain direct takes it from every server that lists it once; a server
    lists it afterwards if and only if it did so more than once. The rest stays.
   */
  lemma ClearDomainLists(st: State, domain: string, i: nat, x: string)
    requires i < |st.servers|
    ensures domain in Apply(st, SetDomain(domain, "")).0.domains
    ensures |Apply(st, SetDomain(domain, "")).0.servers| == |st.servers|
    ensures var list := Listed(st.servers[i].domains);
      var after := Listed(Apply(st, SetDomain(domain, "")).0.servers[i].domains);
      x in after <==> (if x == domain then multiset(list)[domain] > 1 else x in list)
  {
    hide RemoveFirst, Sort, HostIndex;
    RemovedHas(Listed(st.servers[i].domains), domain, x);
  }

  /** Hosts never change, so neither does what a host name finds. */
  lemma HostIndexKept(servers: seq<ServerConfig>, after: seq<ServerConfig>, host: string)
    requires |servers| == |after|
    requires forall k :: 0 <= k < |servers| ==> servers[k].host == after[k].host
    ensures HostIndex(servers, host) == HostIndex(after, host)
  {
  }

  /** Assigning the same domain to two servers leaves it with both: ownership is not exclusive. */
  lemma NotExclusive(st: State, domain: string, host1: string, host2: string)
    requires host1 != "" && host2 != ""
    requires HostIndex(st.servers, host1) < |st.servers| && HostIndex(st.servers, host2) < |st.servers|
    ensures var after := Apply(Apply(st, SetDomain(domain, host1)).0, SetDomain(domain, host2)).0.servers;
      |after| == |st.servers|
      && domain in Listed(after[HostIndex(st.servers, host1)].domains)
      && domain in Listed(after[HostIndex(st.servers, host2)].domains)
  {
    var mid := Apply(st, SetDomain(domain, host1)).0;
    var i, j := HostIndex(st.servers, host1), HostIndex(st.servers, host2);
    HostIndexKept(st.servers, mid.servers, host2);
    hide Apply, With, HostIndex;
    SetDomainLists(st, domain, host1, i, domain);
    SetDomainLists(mid, domain, host2, i, domain);
    SetDomainLists(mid, domain, host2, j, domain);
  }

  /** The assigned server ends up the only one with the domain if and only if no other had it before. */
  lemma ExclusiveIff(st: State, domain: string, host: string)
    requires host != "" && HostIndex(st.servers, host) < |st.servers|
    ensures |Apply(st, SetDomain(domain, host)).0.servers| == |st.servers|
    ensures var i := HostIndex(st.servers, host);
      OnlyAt(Apply(st, SetDomain(domain, host)).0.servers, domain, i) <==> OnlyAt(st.servers, domain, i)
  {
    var i, after := HostIndex(st.servers, host), Apply(st, SetDomain(domain, host)).0.servers;
    hide Apply, With, HostIndex;
    SetDomainLists(st, domain, host, i, domain);
    forall k | 0 <= k < |st.servers| && k != i
      ensures domain in Listed(after[k].domains) <==> domain in Listed(st.servers[k].domains)
    {
      SetDomainLists(st, domain, host, k, domain);
    }
  }

  /** No server but the `i`-th lists the domain. */
  predicate OnlyAt(servers: seq<ServerConfig>, domain: string, i: nat) {
    forall k :: 0 <= k < |servers| && k != i ==> domain !in Listed(servers[k].domains)
  }

  lemma RemovedHas(list: seq<string>, x: string, y: string)
    ensures y in RemoveFirst(list, x) <==> (if y == x then multiset(list)[x] > 1 else y in list)
  {
    assert y in RemoveFirst(list, x) <==> y in multiset(RemoveFirst(list, x));
    assert y in list <==> y in multiset(list);
  }

  /** Of the direct domains only the assigned one can go, and stays where it was listed twice. */
  lemma DirectDomains(st: State, domain: string, host: string, x: string)
    ensures x in Apply(st, SetDomain(domain, host)).0.domains
      <==> if x != domain then x in st.domains else host == "" || multiset(st.domains)[domain] > 1
  {
    hide RemoveFirst, Sort, HostIndex;
    RemovedHas(st.domains, domain, x);
  }

  lemma DirectApps(st: State, app: string, host: string, x: string)
    ensures x in Apply(st, SetApp(app, host)).0.apps
      <==> if x != app then x in st.apps else host == "" || multiset(st.apps)[app] > 1
  {
    hide RemoveFirst, Sort, HostIndex;
    RemovedHas(st.apps, app, x);
  }

  /** A domain that is removed goes from the direct ones and from every server, once from each; others stay. */
  lemma RemoveDomainLists(st: State, domain: string, i: nat, x: string)
    requires i < |st.servers|
    ensures |Apply(st, RemoveDomain(domain)).0.servers| == |st.servers|
    ensures Apply(st, RemoveDomain(domain)).1.Ok? <==> domain in st.domains
    ensures var (after, outcome) := Apply(st, RemoveDomain(domain));
      var list, left := Listed(st.servers[i].domains), Listed(after.servers[i].domains);
      if outcome.Ok? then
        && (x in after.domains <==> if x == domain then multiset(st.domains)[domain] > 1 else x in st.domains)
        && (x in left <==> if x == domain then multiset(list)[domain] > 1 else x in list)
      else after == st
  {
    hide RemoveFirst, Sort, HostIndex;
    RemovedHas(st.domains, domain, x);
    RemovedHas(Listed(st.servers[i].domains), domain, x);
  }

  /** The same of applications. */
  lemma RemoveAppLists(st: State, app: string, i: nat, x: string)
    requires i < |st.servers|
    ensures |Apply(st, RemoveApp(app)).0.servers| == |st.servers|
    ensures Apply(st, RemoveApp(app)).1.Ok? <==> app in st.apps
    ensures var (after, outcome) := Apply(st, RemoveApp(app));
      var list, left := Listed(st.servers[i].apps), Listed(after.servers[i].apps);
      if outcome.Ok? then
        && (x in after.apps <==> if x == app then multiset(st.apps)[app] > 1 else x in st.apps)
        && (x in left <==> if x == app then multiset(list)[app] > 1 else x in list)
      else after == st
  {
    hide RemoveFirst, Sort, HostIndex;
    RemovedHas(st.apps, app, x);
    RemovedHas(Listed(st.servers[i].apps), app, x);
  }

  /** Assigning an application changes who lists what only for it and for that server. */
  lemma SetAppLists(st: State, app: string, host: string, i: nat, x: string)
    requires host != "" && i < |st.servers|
    ensures |Apply(st, SetApp(app, host)).0.servers| == |st.servers|
    ensures Apply(st, SetApp(app, host)).1.Ok? <==> HostIndex(st.servers, host) < |st.servers|
    ensures var list := Listed(st.servers[i].apps);
      var after := Listed(Apply(st, SetApp(app, host)).0.servers[i].apps);
      x in after <==> (x in list || (x == app && i == HostIndex(st.servers, host)))
  {
    hide RemoveFirst, Sort, HostIndex;
    SortHas(Listed(st.servers[i].apps) + [app], x);
  }

  /** An application made direct stays with a server if and only if it was listed there more than once. */
  lemma ClearAppLists(st: State, app: string, i: nat, x: string)
    requires i < |st.servers|
    ensures |Apply(st, SetApp(app, "")).0.servers| == |st.servers|
    ensures var list := Listed(st.servers[i].apps);
      var after := Listed(Apply(st, SetApp(app, "")).0.servers[i].apps);
      x in after <==> (if x == app then multiset(list)[app] > 1 else x in list)
  {
    hide RemoveFirst, Sort, HostIndex;
    RemovedHas(Listed(st.servers[i].apps), app, x);
  }

  // ---------------------------------------------------------------------
  // The lists, updated in place

  class Proxy {
    var servers: seq<ServerConfig>
    var apps: seq<string>
    var domains: seq<string>

    constructor (servers: seq<ServerConfig>, apps: seq<string>, domains: seq<string>)
      ensures Lists() == State(servers, apps, domains)
    {
      this.servers, this.apps, this.domains := servers, apps, domains;
    }

    function Lists(): State
      reads this
    {
      State(servers, apps, domains)
    }

    method RemoveDomainFromServers(domain: string)
      modifies `servers
      ensures servers == WithoutDomain(old(servers), domain)
    {
      for i := 0 to |servers|
        invariant |servers| == |old(servers)|
        invariant servers[i..] == old(servers)[i..]
        invariant forall k :: 0 <= k < i ==>
          servers[k] == old(servers)[k].(domains := Without(old(servers)[k].domains, domain))
      {
        assert servers[i] == servers[i..][0] == old(servers)[i];
        assert servers[i + 1..] == servers[i..][1..];
        assert old(servers)[i + 1..] == old(servers)[i..][1..];
        servers := servers[i := servers[i].(domains := Without(servers[i].domains, domain))];
      }
    }

    method RemoveAppFromServers(app: string)
      modifies `servers
      ensures servers == WithoutApp(old(servers), app)
    {
      for i := 0 to |servers|
        invariant |servers| == |old(servers)|
        invariant servers[i..] == old(servers)[i..]
        invariant forall k :: 0 <= k < i ==>
          servers[k] == old(servers)[k].(apps := Without(old(servers)[k].apps, app))
      {
        assert servers[i] == servers[i..][0] == old(servers)[i];
        assert servers[i + 1..] == servers[i..][1..];
        assert old(servers)[i + 1..] == old(servers)[i..][1..];
        servers := servers[i := servers[i].(apps := Without(servers[i].apps, app))];
      }
    }

    method SetDomain(domain: string, serverHost: string) returns (outcome: Outcome)
      modifies this
      ensures (Lists(), outcome) == Apply(old(Lists()), Op.SetDomain(domain, serverHost))
    {
      if serverHost != "" {
        domains := RemoveFirst(domains, domain);
        var pos := HostIndex(servers, serverHost);
        if pos < |servers| {
          servers := servers[pos := servers[pos].(domains := With(servers[pos].domains, domain))];
          outcome := Ok;
        } else {
          outcome := NotFound;
        }
      } else {
        if domain !in domains {
          domains := domains + [domain];
        }
        RemoveDomainFromServers(domain);
        outcome := Ok;
      }
    }

    method RemoveDomain(domain: string) returns (outcome: Outcome)
      modifies this
      ensures (Lists(), outcome) == Apply(old(Lists()), Op.RemoveDomain(domain))
    {
      if domain !in domains {
        return NotFound;
      }
      domains := RemoveFirst(domains, domain);
      RemoveDomainFromServers(domain);
      outcome := Ok;
    }

    method SetApp(app: string, serverHost: string) returns (outcome: Outcome)
      modifies this
      ensures (Lists(), outcome) == Apply(old(Lists()), Op.SetApp(app, serverHost))
    {
      if serverHost != "" {
        apps := RemoveFirst(apps, app);
        var pos := HostIndex(servers, serverHost);
        if pos < |servers| {
          servers := servers[pos := servers[pos].(apps := With(servers[pos].apps, app))];
          outcome := Ok;
        } else {
          outcome := NotFound;
        }
      } else {
        if app !in apps {
          apps := apps + [app];
        }
        RemoveAppFromServers(app);
        outcome := Ok;
      }
    }

    method RemoveApp(app: string) returns (outcome: Outcome)
      modifies this
      ensures (Lists(), outcome) == Apply(old(Lists()), Op.RemoveApp(app))
    {
      if app !in apps {
        return NotFound;
      }
      apps := RemoveFirst(apps, app);
      RemoveAppFromServers(app);
      outcome := Ok;
    }
  }
}
