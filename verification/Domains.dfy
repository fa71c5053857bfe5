/** Domain names as dot-separated labels, and sorted lists of them. */
module Domains {
  import opened Bytes

  // ---------------------------------------------------------------------
  // Labels and suffixes

  function FirstDot(s: string): (i: nat)
    requires '.' in s
    ensures i < |s| && s[i] == '.' && '.' !in s[..i]
  {
    if s[0] == '.' then 0
    else
      assert s == [s[0]] + s[1..];
      var i := FirstDot(s[1..]);
      assert s[..i + 1] == [s[0]] + s[1..][..i];
      i + 1
  }

  /** `s.split('.')`. */
  function Labels(s: string): (labels: seq<string>)
    ensures labels != []
    decreases |s|
  {
    if '.' !in s then [s] else [s[..FirstDot(s)]] + Labels(s[FirstDot(s) + 1..])
  }

  /** `labels.join(".")`. */
  function Join(labels: seq<string>): string {
    if labels == [] then ""
    else if |labels| == 1 then labels[0]
    else labels[0] + "." + Join(labels[1..])
  }

  /** `v` is `s` or what follows one of its dots. */
  predicate DotSuffix(v: string, s: string) {
    v == s || (|v| < |s| && s[|s| - |v| - 1] == '.' && s[|s| - |v|..] == v)
  }

  lemma {:induction false} JoinLabels(s: string)
    ensures Join(Labels(s)) == s
    decreases |s|
  {
    if '.' in s {
      var f := FirstDot(s);
      JoinLabels(s[f + 1..]);
      var rest := Labels(s[f + 1..]);
      assert ([s[..f]] + rest)[1..] == rest;
      assert s == s[..f] + "." + s[f + 1..];
    }
  }

  /** In other words: `v` is all of `s`, or stands at its end behind a dot. */
  lemma DotSuffixMeans(v: string, s: string)
    ensures DotSuffix(v, s) <==> v == s || exists front: string :: s == front + "." + v
  {
    if DotSuffix(v, s) && v != s {
      assert s == s[..|s| - |v| - 1] + "." + v;
    }
    if front: string :| s == front + "." + v {
      assert s[|front|] == '.' && s[|front| + 1..] == v;
    }
  }

  lemma AfterDot(s: string, f: nat)
    requires f < |s| && s[f] == '.'
    ensures DotSuffix(s[f + 1..], s)
  {
  }

  lemma SuffixTrans(u: string, v: string, s: string)
    requires DotSuffix(u, v) && DotSuffix(v, s)
    ensures DotSuffix(u, s)
  {
    if u != v && v != s {
      assert s[|s| - |u|..] == s[|s| - |v|..][|v| - |u|..];
      assert s[|s| - |v|..][|v| - |u| - 1] == s[|s| - |u| - 1];
    }
  }

  /** The last `k` labels. */
  function Last(labels: seq<string>, k: nat): (r: seq<string>)
    requires k <= |labels|
    ensures |r| == k
  {
    labels[|labels| - k..]
  }

  lemma LastOfMore(first: string, rest: seq<string>, k: nat)
    requires k <= |rest|
    ensures Last([first] + rest, k) == Last(rest, k)
  {
  }

  lemma LastOfAll(labels: seq<string>)
    ensures Last(labels, |labels|) == labels
  {
  }

  /** The last labels of a name, joined, are a dot-suffix of it with just these labels. */
  lemma {:induction false} LastLabels(s: string, k: nat)
    requires 0 < k <= |Labels(s)|
    ensures DotSuffix(Join(Last(Labels(s), k)), s)
    ensures Labels(Join(Last(Labels(s), k))) == Last(Labels(s), k)
    decreases |s|
  {
    if k == |Labels(s)| {
      JoinLabels(s);
      LastOfAll(Labels(s));
    } else {
      var f := FirstDot(s);
      var rest := s[f + 1..];
      AfterDot(s, f);
      LastOfMore(s[..f], Labels(rest), k);
      LastLabels(rest, k);
      SuffixTrans(Join(Last(Labels(rest), k)), rest, s);
    }
  }

  /** Every dot-suffix of a name is made of its last labels. */
  lemma {:induction false} SuffixIsLastLabels(v: string, s: string)
    requires DotSuffix(v, s)
    ensures |Labels(v)| <= |Labels(s)|
    ensures v == Join(Last(Labels(s), |Labels(v)|))
    decreases |s|
  {
    if v == s {
      JoinLabels(s);
      LastOfAll(Labels(s));
    } else {
      SuffixOfRest(v, s);
      var rest := s[FirstDot(s) + 1..];
      SuffixIsLastLabels(v, rest);
      LastOfMore(s[..FirstDot(s)], Labels(rest), |Labels(v)|);
      assert Labels(s) == [s[..FirstDot(s)]] + Labels(rest);
    }
  }

  /** A proper dot-suffix is a dot-suffix of what follows the first dot. */
  lemma SuffixOfRest(v: string, s: string)
    requires DotSuffix(v, s) && v != s
    ensures '.' in s && DotSuffix(v, s[FirstDot(s) + 1..])
  {
    assert s[|s| - |v| - 1] in s;
    var f := FirstDot(s);
    FirstDotFirst(s, |s| - |v| - 1);
    hide FirstDot;
    SubSlice(s, f + 1, |s|, |s| - f - 1 - |v|, |s| - f - 1);
    assert s[f + 1..|s|] == s[f + 1..];
  }

  lemma FirstDotFirst(s: string, i: nat)
    requires i < |s| && s[i] == '.'
    ensures FirstDot(s) <= i
  {
    var front := s[..FirstDot(s)];
    assert forall j :: 0 <= j < |front| ==> front[j] in front && s[j] == front[j];
  }

  /** Labels have no dots: with `JoinLabels`, names are cut at every dot and nowhere else. */
  lemma {:induction false} LabelsHaveNoDots(s: string, i: nat)
    requires i < |Labels(s)|
    ensures '.' !in Labels(s)[i]
    decreases |s|
  {
    if '.' in s && i > 0 {
      LabelsHaveNoDots(s[FirstDot(s) + 1..], i - 1);
    }
  }

  lemma TwoLabels(s: string)
    ensures |Labels(s)| >= 2 <==> '.' in s
  {
  }

  /** What stands before the last colon. */
  function WithoutPort(target: string): string {
    if ':' in target then target[..LastColon(target)] else target
  }

  function LastColon(s: string): (i: nat)
    requires ':' in s
    ensures i < |s| && s[i] == ':' && ':' !in s[i + 1..]
  {
    if s[|s| - 1] == ':' then |s| - 1
    else
      assert s == s[..|s| - 1] + [s[|s| - 1]];
      var i := LastColon(s[..|s| - 1]);
      assert s[i + 1..] == s[..|s| - 1][i + 1..] + [s[|s| - 1]];
      i
  }

  /** The port and its colon go; a target without a port stays as it is. */
  lemma PortGoes(host: string, port: string)
    requires ':' !in port
    ensures WithoutPort(host + ":" + port) == host
    ensures ':' !in host ==> WithoutPort(host) == host
  {
    var target := host + ":" + port;
    assert target[|host| + 1..] == port;
    LastColonIs(target, |host|);
    assert target[..|host|] == host;
  }

  lemma {:induction false} LastColonIs(s: string, i: nat)
    requires i < |s| && s[i] == ':' && ':' !in s[i + 1..]
    ensures LastColon(s) == i
  {
    if i < |s| - 1 {
      assert s[i + 1..] == s[..|s| - 1][i + 1..] + [s[|s| - 1]];
      LastColonIs(s[..|s| - 1], i);
    }
  }

  /** What the suffix loop collects: the last two labels of the domain, the last three, and so on. */
  predicate AreVariants(variants: seq<string>, domain: string) {
    && |variants| == |Labels(domain)| - 1
    && forall i :: 0 <= i < |variants| ==> variants[i] == Join(Last(Labels(domain), i + 2))
  }

  /** The names of two or more labels a target is looked up by, shortest first. */
  method DomainVariants(targetHost: string) returns (variants: seq<string>)
    ensures AreVariants(variants, WithoutPort(targetHost))
  {
    var domain := WithoutPort(targetHost);
    var parts := Labels(domain);
    var n := |parts|;
    var accumulated := "";
    variants := [];
    for i := 0 to n
      invariant |variants| == if i == 0 then 0 else i - 1
      invariant i > 0 ==> accumulated == "." + Join(Last(parts, i))
      invariant i == 0 ==> accumulated == ""
      invariant forall j :: 0 <= j < |variants| ==> variants[j] == Join(Last(parts, j + 2))
    {
      assert Last(parts, i + 1)[1..] == Last(parts, i);
      accumulated := parts[n - 1 - i] + accumulated;
      assert accumulated == Join(Last(parts, i + 1));
      if i > 0 {
        variants := variants + [accumulated];
      }
      accumulated := "." + accumulated;
    }
  }

  /** The variants of a name, without the loop. */
  predicate IsVariant(v: string, domain: string) { DotSuffix(v, domain) && '.' in v }

  /** The suffix loop yields exactly the dot-suffixes of two or more labels. */
  lemma VariantsAreSuffixes(domain: string, variants: seq<string>, v: string)
    requires AreVariants(variants, domain)
    ensures v in variants <==> IsVariant(v, domain)
  {
    if v in variants {
      var i :| 0 <= i < |variants| && variants[i] == v;
      LastLabels(domain, i + 2);
      TwoLabels(v);
    }
    if IsVariant(v, domain) {
      SuffixIsLastLabels(v, domain);
      TwoLabels(v);
      assert variants[|Labels(v)| - 2] == v;
    }
  }

  // ---------------------------------------------------------------------
  // Sorted lists

  /** The order of strings, by their first difference. */
  predicate Leq(a: string, b: string) {
    if a == "" then true
    else if b == "" then false
    else a[0] < b[0] || (a[0] == b[0] && Leq(a[1..], b[1..]))
  }

  /** The order is that of the first characters that differ, a front coming before the whole. */
  lemma {:induction false} LeqMeans(a: string, b: string)
    ensures Leq(a, b) <==> a <= b || exists i: nat :: i < |a| && i < |b| && a[..i] == b[..i] && a[i] < b[i]
  {
    if a != "" && b != "" {
      LeqMeans(a[1..], b[1..]);
      if a[0] < b[0] {
        assert a[..0] == b[..0];
      }
      if a[0] == b[0] {
        LaterDifference(a, b);
      }
    }
  }

  lemma LaterDifference(a: string, b: string)
    requires a != "" && b != "" && a[0] == b[0]
    ensures a <= b <==> a[1..] <= b[1..]
    ensures (exists i: nat :: i < |a| && i < |b| && a[..i] == b[..i] && a[i] < b[i])
      <==> exists i: nat :: i < |a[1..]| && i < |b[1..]| && a[1..][..i] == b[1..][..i] && a[1..][i] < b[1..][i]
  {
    if i: nat :| i < |a| && i < |b| && a[..i] == b[..i] && a[i] < b[i] {
      assert a[1..][..i - 1] == a[..i][1..] == b[..i][1..] == b[1..][..i - 1];
      assert a[1..][i - 1] < b[1..][i - 1];
    }
    if i: nat :| i < |a[1..]| && i < |b[1..]| && a[1..][..i] == b[1..][..i] && a[1..][i] < b[1..][i] {
      assert a[..i + 1] == [a[0]] + a[1..][..i] == b[..i + 1];
      assert a[i + 1] < b[i + 1];
    }
  }

  lemma {:induction false} LeqTotal(a: string, b: string)
    ensures Leq(a, b) || Leq(b, a)
  {
    if a != "" && b != "" && a[0] == b[0] { LeqTotal(a[1..], b[1..]); }
  }

  lemma {:induction false} LeqAntisymmetric(a: string, b: string)
    requires Leq(a, b) && Leq(b, a)
    ensures a == b
  {
    if a != "" && b != "" {
      LeqAntisymmetric(a[1..], b[1..]);
      assert a == [a[0]] + a[1..] && b == [b[0]] + b[1..];
    }
  }

  lemma {:induction false} LeqTransitive(a: string, b: string, c: string)
    requires Leq(a, b) && Leq(b, c)
    ensures Leq(a, c)
  {
    if a != "" && a[0] == b[0] == c[0] { LeqTransitive(a[1..], b[1..], c[1..]); }
  }

  predicate Sorted(list: seq<string>) {
    forall i, j :: 0 <= i <= j < |list| ==> Leq(list[i], list[j])
  }

  /** On a sorted list the search finds exactly the members; on any other, members only. */
  method BinarySearch(list: seq<string>, x: string) returns (found: bool)
    ensures found ==> x in list
    ensures Sorted(list) ==> (found <==> x in list)
  {
    var low, high := 0, |list|;
    while low < high
      invariant 0 <= low <= high <= |list|
      invariant Sorted(list) ==> forall i :: 0 <= i < |list| && !(low <= i < high) ==> list[i] != x
    {
      var mid := (low + high) / 2;
      if list[mid] == x {
        return true;
      }
      if Sorted(list) {
        Around(list, mid, x);
      }
      if Leq(list[mid], x) {
        low := mid + 1;
      } else {
        high := mid;
      }
    }
    found := false;
  }

  lemma Around(list: seq<string>, mid: nat, x: string)
    requires Sorted(list) && mid < |list| && list[mid] != x
    ensures Leq(list[mid], x) ==> forall i :: 0 <= i <= mid ==> list[i] != x
    ensures !Leq(list[mid], x) ==> forall i :: mid <= i < |list| ==> list[i] != x
  {
    forall i | 0 <= i < |list| && list[i] == x
      ensures Leq(list[mid], x) <==> i > mid
    {
      if i <= mid && Leq(list[mid], x) { LeqAntisymmetric(list[mid], x); }
    }
  }

  function Insert(list: seq<string>, x: string): (r: seq<string>)
    ensures multiset(r) == multiset(list) + multiset{x}
  {
    if list == [] || Leq(x, list[0]) then [x] + list
    else
      assert list == [list[0]] + list[1..];
      [list[0]] + Insert(list[1..], x)
  }

  /** `list.sort()`. */
  function Sort(list: seq<string>): (r: seq<string>)
    ensures multiset(r) == multiset(list)
  {
    if list == [] then []
    else
      assert list == list[..|list| - 1] + [list[|list| - 1]];
      Insert(Sort(list[..|list| - 1]), list[|list| - 1])
  }

  lemma {:induction false} InsertKeepsSorted(list: seq<string>, x: string)
    requires Sorted(list)
    ensures Sorted(Insert(list, x))
  {
    LeqTotal(x, x);
    if list == [] {
    } else if Leq(x, list[0]) {
      forall j | 0 <= j < |list| ensures Leq(x, list[j]) { LeqTransitive(x, list[0], list[j]); }
    } else {
      var tail := Insert(list[1..], x);
      InsertKeepsSorted(list[1..], x);
      LeqTotal(x, list[0]);
      LeqTotal(list[0], list[0]);
      forall j | 0 <= j < |tail| ensures Leq(list[0], tail[j]) {
        assert tail[j] in multiset(tail);
        assert tail[j] in multiset(list[1..]) || tail[j] == x;
        if tail[j] in list[1..] {
          var k :| 0 <= k < |list[1..]| && list[1..][k] == tail[j];
          assert list[k + 1] == tail[j];
        }
      }
    }
  }

  lemma {:induction false} SortSorts(list: seq<string>)
    ensures Sorted(Sort(list))
  {
    if list != [] {
      SortSorts(list[..|list| - 1]);
      InsertKeepsSorted(Sort(list[..|list| - 1]), list[|list| - 1]);
    }
  }

  /** Of two neighbours in a sorted list the second is not before the first; so it is of any two. */
  lemma {:induction false} SortedByNeighbours(list: seq<string>)
    ensures Sorted(list) <==> forall i :: 0 <= i < |list| - 1 ==> Leq(list[i], list[i + 1])
  {
    hide Leq;
    if forall i :: 0 <= i < |list| - 1 ==> Leq(list[i], list[i + 1]) {
      forall i, j | 0 <= i <= j < |list| ensures Leq(list[i], list[j]) { Ascending(list, i, j); }
    }
  }

  lemma {:induction false} Ascending(list: seq<string>, i: nat, j: nat)
    requires i <= j < |list| && forall k :: 0 <= k < |list| - 1 ==> Leq(list[k], list[k + 1])
    ensures Leq(list[i], list[j])
    decreases j
  {
    if i == j {
      LeqTotal(list[i], list[i]);
    } else {
      Ascending(list, i, j - 1);
      LeqTransitive(list[i], list[j - 1], list[j]);
    }
  }

  /** Removes the first occurrence, if there is one. */
  function RemoveFirst(list: seq<string>, x: string): (r: seq<string>)
    ensures multiset(r) == multiset(list) - multiset{x}
  {
    if list == [] then []
    else
      assert list == [list[0]] + list[1..];
      if list[0] == x then list[1..] else [list[0]] + RemoveFirst(list[1..], x)
  }

  /** Of several occurrences it is the first that goes, and the others keep their order. */
  lemma {:induction false} RemovesFirst(list: seq<string>, x: string, i: nat)
    requires i < |list| && list[i] == x && forall j :: 0 <= j < i ==> list[j] != x
    ensures RemoveFirst(list, x) == list[..i] + list[i + 1..]
  {
    if i > 0 {
      RemovesFirst(list[1..], x, i - 1);
      assert RemoveFirst(list, x) == [list[0]] + RemoveFirst(list[1..], x);
      hide RemoveFirst;
      AroundLater(list, i);
    }
  }

  lemma AroundLater<T>(list: seq<T>, i: nat)
    requires 0 < i < |list|
    ensures [list[0]] + (list[1..][..i - 1] + list[1..][i..]) == list[..i] + list[i + 1..]
  {
  }

  lemma {:induction false} RemovesNothing(list: seq<string>, x: string)
    requires x !in list
    ensures RemoveFirst(list, x) == list
  {
    if list != [] {
      RemovesNothing(list[1..], x);
      assert RemoveFirst(list, x) == [list[0]] + RemoveFirst(list[1..], x);
      hide RemoveFirst;
    }
  }

  lemma {:induction false} RemoveKeepsSorted(list: seq<string>, x: string)
    requires Sorted(list)
    ensures Sorted(RemoveFirst(list, x))
  {
    hide Leq;
    if list != [] && list[0] != x {
      var tail := RemoveFirst(list[1..], x);
      RemoveKeepsSorted(list[1..], x);
      LeqTotal(list[0], list[0]);
      forall j | 0 <= j < |tail| ensures Leq(list[0], tail[j]) {
        assert tail[j] in multiset(tail);
        assert tail[j] in multiset(list[1..]);
        var k :| 0 <= k < |list[1..]| && list[1..][k] == tail[j];
        assert list[k + 1] == tail[j];
      }
    }
  }
}
