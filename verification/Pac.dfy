/** The proxy auto-configuration index: direct domains bucketed by their number of labels. */
module Pac {
  import opened Domains

  function Dots(s: string): nat {
    if s == "" then 0 else Dots(s[1..]) + if s[0] == '.' then 1 else 0
  }

  lemma {:induction false} DotsAppend(a: string, b: string)
    ensures Dots(a + b) == Dots(a) + Dots(b)
  {
    if a == "" {
      assert a + b == b;
    } else {
      assert (a + b)[1..] == a[1..] + b;
      DotsAppend(a[1..], b);
    }
  }

  lemma {:induction false} NoDots(s: string)
    requires '.' !in s
    ensures Dots(s) == 0
  {
    if s != "" { NoDots(s[1..]); }
  }

  /** A name has one label more than dots. */
  lemma {:induction false} DotsAndLabels(s: string)
    ensures |Labels(s)| == Dots(s) + 1
    decreases |s|
  {
    if '.' !in s {
      NoDots(s);
    } else {
      var front, rest := s[..FirstDot(s)], s[FirstDot(s) + 1..];
      DotsAndLabels(rest);
      NoDots(front);
      assert Labels(s) == [front] + Labels(rest);
      hide Labels, FirstDot;
      DotsAppend(front, "." + rest);
      assert s == front + ("." + rest) && ("." + rest)[1..] == rest;
    }
  }

  method CountDots(host: string) returns (count: nat)
    ensures count == Dots(host)
  {
    count := 0;
    for i := 0 to |host|
      invariant count == Dots(host[..i])
    {
      assert host[..i + 1] == host[..i] + [host[i]];
      DotsAppend(host[..i], [host[i]]);
      count := count + if host[i] == '.' then 1 else 0;
    }
    assert host[..|host|] == host;
  }

  /** `buckets[k]` holds exactly the domains of `k + 1` labels. */
  ghost predicate IsIndex(buckets: seq<seq<string>>, domains: seq<string>) {
    && (forall d <- domains :: |Labels(d)| <= |buckets|)
    && forall k, d :: 0 <= k < |buckets| ==> (d in buckets[k] <==> d in domains && |Labels(d)| == k + 1)
  }

  method UpdateContent(domains: seq<string>) returns (hostsByDots: seq<seq<string>>)
    ensures IsIndex(hostsByDots, domains)
  {
    hostsByDots := [];
    for i := 0 to |domains|
      invariant IsIndex(hostsByDots, domains[..i])
    {
      var host := domains[i];
      var dots := CountDots(host);
      var dotsCnt := dots + 1;
      DotsAndLabels(host);
      ghost var before := hostsByDots;
      if |hostsByDots| < dotsCnt {
        for n := |hostsByDots| to dotsCnt
          invariant |hostsByDots| == n && hostsByDots[..|before|] == before
          invariant forall k :: |before| <= k < n ==> hostsByDots[k] == []
        {
          hostsByDots := hostsByDots + [[]];
        }
      }
      Pad(before, hostsByDots, domains[..i]);
      AddToIndex(hostsByDots, domains[..i], host);
      hostsByDots := hostsByDots[dotsCnt - 1 := hostsByDots[dotsCnt - 1] + [host]];
      assert domains[..i + 1] == domains[..i] + [host];
    }
    assert domains[..|domains|] == domains;
  }

  lemma Pad(before: seq<seq<string>>, after: seq<seq<string>>, domains: seq<string>)
    requires IsIndex(before, domains)
    requires |before| <= |after| && after[..|before|] == before
    requires forall k :: |before| <= k < |after| ==> after[k] == []
    ensures IsIndex(after, domains)
  {
    forall k, d | 0 <= k < |after|
      ensures d in after[k] <==> d in domains && |Labels(d)| == k + 1
    {
      if k < |before| { assert after[k] == before[k]; }
    }
  }

  lemma AddToIndex(buckets: seq<seq<string>>, domains: seq<string>, host: string)
    requires IsIndex(buckets, domains) && |Labels(host)| <= |buckets|
    ensures var k := |Labels(host)| - 1;
      IsIndex(buckets[k := buckets[k] + [host]], domains + [host])
  {
  }

  /** What the generated script looks for: the last labels of the host in the bucket of their number. */
  predicate Finds(list: seq<seq<string>>, host: string, i: nat) {
    i < |list| && i < |Labels(host)| && Join(Last(Labels(host), i + 1)) in list[i]
  }

  method FindProxyForUrl(list: seq<seq<string>>, host: string) returns (direct: bool)
    ensures direct <==> exists i: nat :: Finds(list, host, i)
  {
    var parts := Labels(host);
    var i := 0;
    while i < |list|
      invariant 0 <= i <= |list| && i <= |parts|
      invariant forall j: nat :: j < i ==> !Finds(list, host, j)
    {
      var partCount := i + 1;
      if partCount > |parts| {
        break;
      }
      var phost := Join(Last(parts, partCount));
      if phost in list[i] {
        assert Finds(list, host, i);
        return true;
      }
      i := i + 1;
    }
    direct := false;
  }

  /** The script answers DIRECT if and only if a listed domain is a dot-suffix of the host. */
  lemma IndexMeansSuffix(list: seq<seq<string>>, domains: seq<string>, host: string)
    requires IsIndex(list, domains)
    ensures (exists i: nat :: Finds(list, host, i)) <==> exists d :: d in domains && DotSuffix(d, host)
  {
    if i: nat :| Finds(list, host, i) {
      LastLabels(host, i + 1);
      assert DotSuffix(Join(Last(Labels(host), i + 1)), host);
    }
    if d :| d in domains && DotSuffix(d, host) {
      SuffixIsLastLabels(d, host);
      assert Finds(list, host, |Labels(d)| - 1);
    }
  }
}
