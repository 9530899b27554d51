/** Post-processing of a geocode reply before it is shown as the suggestion list
    (index.js, `displaySuggestions`): duplicates are dropped by a lower-cased
    "name-country" key, then the places are ranked GB first, US next, everything else last,
    keeping the reply's order within each rank. */
module Suggestions {
  import opened Text
  import opened KeyScan

  /** One place of a geocode reply, as the suggestion item keeps it. The coordinates are
      kept as the text the item's data attributes hold. */
  datatype Location = Location(name: string, country: string, lat: string, lon: string)

  /** What the geocode collaborator answered: a failed request or unreadable body, a JSON
      `null`, or an array of places. */
  datatype GeocodeReply = Unavailable | NullReply | Places(places: seq<Location>)

  /** The dedupe key: "name-country", lower-cased. */
  function Key(l: Location): string
  {
    Lower(l.name + "-" + l.country)
  }

  /** Every place takes part in the dedupe. */
  function Always(l: Location): bool
  {
    true
  }

  /** The keys of `s`, every place counting. */
  lemma AllEligible(s: seq<Location>)
    ensures EligibleKeys(s, Always, Key) == KeysOf(s, Key)
  {
  }

  /** The filter with a `seen` set: keeps the first place of each key, in reply order. */
  method Dedupe(locations: seq<Location>) returns (unique: seq<Location>)
    ensures unique == Firsts(locations, Always, Key)
    ensures DistinctKeys(unique, Key)
    ensures KeysOf(unique, Key) == KeysOf(locations, Key)
    ensures IsSubsequence(unique, locations)
  {
    var seen: set<string> := {};
    unique := [];
    var i := 0;
    while i < |locations|
      invariant i <= |locations|
      invariant unique == Firsts(locations[..i], Always, Key)
      invariant seen == KeysOf(unique, Key)
    {
      var location := locations[i];
      var key := Key(location);
      assert locations[..i + 1] == locations[..i] + [location];
      assert locations[..i + 1][..i] == locations[..i];
      if key !in seen {
        KeysOfSnoc(unique, location, Key);
        seen := seen + {key};
        unique := unique + [location];
      }
      i := i + 1;
    }
    assert locations[..i] == locations;
    FirstsKeys(locations, Always, Key);
    AllEligible(locations);
    FirstsSubsequence(locations, Always, Key);
  }

  /** Dashes inside the fields can make two different places share a key. */
  lemma KeyCollision()
    ensures Key(Location("A-B", "C", "0", "0")) == Key(Location("A", "B-C", "1", "1"))
  {
    assert "A-B" + "-" + "C" == "A" + "-" + "B-C";
  }

  /** The key ignores ASCII case. */
  lemma KeyIgnoresCase(name: string, country: string, lat: string, lon: string)
    ensures Key(Location(name, country, lat, lon)) == Key(Location(Lower(name), Lower(country), lat, lon))
  {
    var a := name + "-" + country;
    var b := Lower(name) + "-" + Lower(country);
    assert |a| == |b|;
    forall i | 0 <= i < |a| ensures LowerChar(a[i]) == LowerChar(b[i]) {
      if i < |name| {
        assert a[i] == name[i] && b[i] == Lower(name)[i];
      } else if i == |name| {
        assert a[i] == '-' == b[i];
      } else {
        assert a[i] == country[i - |name| - 1] && b[i] == Lower(country)[i - |name| - 1];
      }
    }
  }

  /** Two "name-country" strings whose country parts contain no dash agree only when
      both parts agree: the last dash separates them. */
  lemma SplitAtLastDash(n1: string, c1: string, n2: string, c2: string)
    requires '-' !in c1 && '-' !in c2
    requires n1 + "-" + c1 == n2 + "-" + c2
    ensures n1 == n2 && c1 == c2
  {
    var k := n1 + "-" + c1;
    LastDashOf(n1, c1);
    LastDashOf(n2, c2);
    assert c1 == k[|n1| + 1..];
    assert c2 == k[|n2| + 1..];
    assert n1 == k[..|n1|];
    assert n2 == k[..|n2|];
  }

  /** The position of the last dash of `k`, or -1 when there is none. */
  function LastDash(k: string): int
  {
    if k == [] then -1 else if k[|k| - 1] == '-' then |k| - 1 else LastDash(k[..|k| - 1])
  }

  lemma {:induction false} LastDashOf(n: string, c: string)
    requires '-' !in c
    ensures LastDash(n + "-" + c) == |n|
    decreases |c|
  {
    var k := n + "-" + c;
    if c != [] {
      var c' := c[..|c| - 1];
      assert c[|c| - 1] in c;
      assert k[|k| - 1] == c[|c| - 1];
      assert k[..|k| - 1] == n + "-" + c';
      assert forall ch :: ch in c' ==> ch in c;
      LastDashOf(n, c');
    }
  }

  /** The key is the lower-cased name, a dash and the lower-cased country. */
  lemma KeyParts(l: Location)
    ensures Key(l) == Lower(l.name) + "-" + Lower(l.country)
    ensures '-' !in l.country ==> '-' !in Lower(l.country)
  {
    LowerAppend(l.name + "-", l.country);
    LowerAppend(l.name, "-");
    assert Lower("-") == "-";
    if '-' in Lower(l.country) {
      var i :| 0 <= i < |l.country| && Lower(l.country)[i] == '-';
      LowerDash(l.country[i]);
    }
  }

  /** When neither country contains a dash (ISO codes never do), equal keys mean equal
      names and equal countries up to ASCII case. */
  lemma KeySeparates(a: Location, b: Location)
    requires '-' !in a.country && '-' !in b.country
    requires Key(a) == Key(b)
    ensures Lower(a.name) == Lower(b.name) && Lower(a.country) == Lower(b.country)
  {
    KeyParts(a);
    KeyParts(b);
    SplitAtLastDash(Lower(a.name), Lower(a.country), Lower(b.name), Lower(b.country));
  }

  /** The rank the comparator gives a place: GB before US before the rest. */
  function Rank(l: Location): nat
  {
    if l.country == "GB" then 0 else if l.country == "US" then 1 else 2
  }

  /** The comparator handed to `sort`: negative when `a` goes first, positive when `b`
      does, zero to keep their order. It orders places exactly by Rank. */
  function Compare(a: Location, b: Location): (r: int)
    ensures r < 0 <==> Rank(a) < Rank(b)
    ensures r > 0 <==> Rank(a) > Rank(b)
    ensures r == 0 <==> Rank(a) == Rank(b)
  {
    if a.country == "GB" && b.country != "GB" then -1
    else if a.country != "GB" && b.country == "GB" then 1
    else if a.country == "US" && b.country != "US" then -1
    else if a.country != "US" && b.country == "US" then 1
    else 0
  }

  /** The places of `s` that have rank `g`, in their order in `s`. */
  function Group(s: seq<Location>, g: nat): (r: seq<Location>)
    ensures forall k :: 0 <= k < |r| ==> Rank(r[k]) == g
  {
    if s == [] then []
    else (if Rank(s[0]) == g then [s[0]] else []) + Group(s[1..], g)
  }

  /** The places ranked and, within a rank, in their original order: a stable partition
      into three groups. */
  function SortByRank(s: seq<Location>): seq<Location>
  {
    Group(s, 0) + Group(s, 1) + Group(s, 2)
  }

  /** No pair of places is out of order for the comparator. */
  ghost predicate SortedByCompare(t: seq<Location>)
  {
    forall i, j :: 0 <= i < j < |t| ==> Compare(t[i], t[j]) <= 0
  }

  /** `t` is what a stable sort of `s` with Compare yields: a rearrangement of `s`, in
      comparator order, in which places the comparator calls equal keep their order. */
  ghost predicate IsStableSortOf(t: seq<Location>, s: seq<Location>)
  {
    && multiset(t) == multiset(s)
    && SortedByCompare(t)
    && forall g: nat :: Group(t, g) == Group(s, g)
  }

  lemma {:induction false} GroupAppend(a: seq<Location>, b: seq<Location>, g: nat)
    ensures Group(a + b, g) == Group(a, g) + Group(b, g)
    decreases |a|
  {
    if a != [] {
      assert (a + b)[1..] == a[1..] + b;
      GroupAppend(a[1..], b, g);
    } else {
      assert a + b == b;
    }
  }

  lemma {:induction false} GroupOfGroup(s: seq<Location>, g: nat, h: nat)
    ensures Group(Group(s, h), g) == if g == h then Group(s, h) else []
    decreases |s|
  {
    if s != [] {
      GroupOfGroup(s[1..], g, h);
      var head := if Rank(s[0]) == h then [s[0]] else [];
      GroupAppend(head, Group(s[1..], h), g);
      if Rank(s[0]) == h {
        assert head[1..] == [];
      }
    }
  }

  lemma {:induction false} GroupsMultiset(s: seq<Location>)
    ensures multiset(Group(s, 0)) + multiset(Group(s, 1)) + multiset(Group(s, 2)) == multiset(s)
    decreases |s|
  {
    if s != [] {
      var x, rest := s[0], s[1..];
      assert s == [x] + rest;
      GroupsMultiset(rest);
      GroupCons(x, rest, 0);
      GroupCons(x, rest, 1);
      GroupCons(x, rest, 2);
      assert multiset(s) == multiset{x} + multiset(rest);
      var m0, m1, m2 := multiset(Group(rest, 0)), multiset(Group(rest, 1)), multiset(Group(rest, 2));
      if Rank(x) == 0 {
        assert multiset(Group(s, 0)) == multiset{x} + m0;
        assert multiset(Group(s, 1)) == m1 && multiset(Group(s, 2)) == m2;
      } else if Rank(x) == 1 {
        assert multiset(Group(s, 1)) == multiset{x} + m1;
        assert multiset(Group(s, 0)) == m0 && multiset(Group(s, 2)) == m2;
      } else {
        assert multiset(Group(s, 2)) == multiset{x} + m2;
        assert multiset(Group(s, 0)) == m0 && multiset(Group(s, 1)) == m1;
      }
    }
  }

  /** Ranking rearranges the places and drops none. */
  lemma SortByRankPermutes(s: seq<Location>)
    ensures multiset(SortByRank(s)) == multiset(s)
  {
    GroupsMultiset(s);
  }

  /** Ranking leaves the places in comparator order. */
  lemma SortByRankOrdered(s: seq<Location>)
    ensures SortedByCompare(SortByRank(s))
  {
    var g0, g1, g2 := Group(s, 0), Group(s, 1), Group(s, 2);
    var t := SortByRank(s);
    forall i, j | 0 <= i < j < |t| ensures Rank(t[i]) <= Rank(t[j]) {
      assert Rank(t[i]) == if i < |g0| then 0 else if i < |g0| + |g1| then 1 else 2;
      assert Rank(t[j]) == if j < |g0| then 0 else if j < |g0| + |g1| then 1 else 2;
    }
  }

  /** Ranking keeps the reply's order among the places of each rank. */
  lemma SortByRankStable(s: seq<Location>, g: nat)
    ensures Group(SortByRank(s), g) == Group(s, g)
  {
    var a, b, c := Group(s, 0), Group(s, 1), Group(s, 2);
    GroupAppend(a + b, c, g);
    GroupAppend(a, b, g);
    GroupOfGroup(s, g, 0);
    GroupOfGroup(s, g, 1);
    GroupOfGroup(s, g, 2);
    assert Group(SortByRank(s), g) == Group(a, g) + Group(b, g) + Group(c, g);
    if g == 0 {
      assert Group(a, g) == a && Group(b, g) == [] && Group(c, g) == [];
    } else if g == 1 {
      assert Group(a, g) == [] && Group(b, g) == b && Group(c, g) == [];
    } else if g == 2 {
      assert Group(a, g) == [] && Group(b, g) == [] && Group(c, g) == c;
    } else {
      assert Group(a, g) == [] && Group(b, g) == [] && Group(c, g) == [];
      EmptyGroup(s, g);
    }
  }

  /** No place has a rank above 2. */
  lemma {:induction false} EmptyGroup(s: seq<Location>, g: nat)
    requires g > 2
    ensures Group(s, g) == []
    decreases |s|
  {
    if s != [] {
      EmptyGroup(s[1..], g);
    }
  }

  /** SortByRank is a stable sort of its input with the comparator. */
  lemma SortByRankIsStableSort(s: seq<Location>)
    ensures IsStableSortOf(SortByRank(s), s)
  {
    SortByRankPermutes(s);
    SortByRankOrdered(s);
    forall g: nat ensures Group(SortByRank(s), g) == Group(s, g) {
      SortByRankStable(s, g);
    }
  }

  lemma GroupCons(x: Location, rest: seq<Location>, g: nat)
    ensures Group([x] + rest, g) == (if Rank(x) == g then [x] else []) + Group(rest, g)
  {
    assert ([x] + rest)[1..] == rest;
  }

  /** Dropping the first place of a sorted sequence leaves it sorted, and the first place
      ranks no higher than any other. */
  lemma SortedUncons(t: seq<Location>)
    requires t != [] && SortedByCompare(t)
    ensures SortedByCompare(t[1..])
    ensures forall k :: 0 <= k < |t[1..]| ==> Rank(t[0]) <= Rank(t[1..][k])
  {
    var rest := t[1..];
    forall i, j | 0 <= i < j < |rest| ensures Compare(rest[i], rest[j]) <= 0 {
      assert rest[i] == t[i + 1] && rest[j] == t[j + 1];
    }
    forall k | 0 <= k < |rest| ensures Rank(t[0]) <= Rank(rest[k]) {
      assert rest[k] == t[k + 1];
      assert Compare(t[0], t[k + 1]) <= 0;
    }
  }

  /** Putting a place that ranks no higher than any other in front of a sequence made of
      its rank groups gives again a sequence made of its rank groups. */
  lemma ConsGroups(x: Location, rest: seq<Location>)
    requires forall k :: 0 <= k < |rest| ==> Rank(x) <= Rank(rest[k])
    requires rest == SortByRank(rest)
    ensures [x] + rest == SortByRank([x] + rest)
  {
    GroupCons(x, rest, 0);
    GroupCons(x, rest, 1);
    GroupCons(x, rest, 2);
    if Rank(x) == 1 {
      NoLowerRank(rest, 0);
    } else if Rank(x) == 2 {
      NoLowerRank(rest, 0);
      NoLowerRank(rest, 1);
    }
    ConsGroupsJoin(x, Group(rest, 0), Group(rest, 1), Group(rest, 2));
  }

  /** The sequence identity behind ConsGroups, one rank at a time. */
  lemma ConsGroupsJoin(x: Location, h0: seq<Location>, h1: seq<Location>, h2: seq<Location>)
    requires Rank(x) == 1 ==> h0 == []
    requires Rank(x) == 2 ==> h0 == [] && h1 == []
    ensures [x] + (h0 + h1 + h2) ==
      ((if Rank(x) == 0 then [x] else []) + h0) +
      ((if Rank(x) == 1 then [x] else []) + h1) +
      ((if Rank(x) == 2 then [x] else []) + h2)
  {
  }

  /** A sequence in comparator order is its three rank groups, one after another. */
  lemma {:induction false} SortedIsGroups(t: seq<Location>)
    requires SortedByCompare(t)
    ensures t == SortByRank(t)
    decreases |t|
  {
    if t != [] {
      SortedUncons(t);
      SortedIsGroups(t[1..]);
      ConsGroups(t[0], t[1..]);
      assert t == [t[0]] + t[1..];
    }
  }

  /** A group is empty when every place ranks above it. */
  lemma {:induction false} NoLowerRank(s: seq<Location>, g: nat)
    requires forall k :: 0 <= k < |s| ==> g < Rank(s[k])
    ensures Group(s, g) == []
    decreases |s|
  {
    if s != [] {
      NoLowerRank(s[1..], g);
    }
  }

  /** The stable sort is unique: whatever stable sort the runtime uses, its result is
      SortByRank. */
  lemma StableSortUnique(t: seq<Location>, s: seq<Location>)
    requires IsStableSortOf(t, s)
    ensures t == SortByRank(s)
  {
    SortedIsGroups(t);
    assert Group(t, 0) == Group(s, 0) && Group(t, 1) == Group(s, 1) && Group(t, 2) == Group(s, 2);
  }

  /** The list `displaySuggestions` renders for a reply; empty when it hides the list. */
  function Displayed(reply: GeocodeReply): seq<Location>
  {
    match reply
    case Places(ps) => if |ps| == 0 then [] else SortByRank(Firsts(ps, Always, Key))
    case _ => []
  }

  /** The displayed list is empty exactly when the reply holds no place; otherwise it holds
      one place per key of the reply, every key once, ranked by a stable sort. */
  lemma DisplayedSpec(reply: GeocodeReply)
    ensures Displayed(reply) == [] <==> !(reply.Places? && reply.places != [])
    ensures reply.Places? ==> KeysOf(Displayed(reply), Key) == KeysOf(reply.places, Key)
    ensures DistinctKeys(Displayed(reply), Key)
    ensures reply.Places? && reply.places != [] ==>
      IsStableSortOf(Displayed(reply), Firsts(reply.places, Always, Key))
  {
    if reply.Places? && reply.places != [] {
      var ps := reply.places;
      var d := Firsts(ps, Always, Key);
      FirstsKeys(ps, Always, Key);
      AllEligible(ps);
      assert Key(ps[0]) in KeysOf(ps, Key);
      SortByRankIsStableSort(d);
      PermutationKeepsKeys(d, SortByRank(d), Key);
    }
  }

  /** The list `displaySuggestions` builds from the places of a non-empty reply: dedupe,
      then rank. It is empty only for an empty reply, keeps every key of the reply exactly
      once, and is ranked. */
  method RankedUnique(locations: seq<Location>) returns (sorted: seq<Location>)
    ensures sorted == Displayed(Places(locations))
    ensures sorted == [] <==> locations == []
    ensures DistinctKeys(sorted, Key) && KeysOf(sorted, Key) == KeysOf(locations, Key)
    ensures SortedByCompare(sorted)
  {
    var unique := Dedupe(locations);
    sorted := SortByRank(unique);
    DisplayedSpec(Places(locations));
    SortByRankOrdered(unique);
  }

  /** A worked ranking: US, GB, FR, GB becomes GB, GB, US, FR. */
  lemma RankingExample()
    ensures var us, gb1, fr, gb2 :=
      Location("Boston", "US", "42.36", "-71.06"), Location("Boston", "GB", "52.98", "-0.03"),
      Location("Paris", "FR", "48.86", "2.35"), Location("Paris", "GB", "51.5", "-0.1");
      SortByRank([us, gb1, fr, gb2]) == [gb1, gb2, us, fr]
  {
    var us, gb1, fr, gb2 :=
      Location("Boston", "US", "42.36", "-71.06"), Location("Boston", "GB", "52.98", "-0.03"),
      Location("Paris", "FR", "48.86", "2.35"), Location("Paris", "GB", "51.5", "-0.1");
    var s := [us, gb1, fr, gb2];
    assert Rank(us) == 1 && Rank(gb1) == 0 && Rank(fr) == 2 && Rank(gb2) == 0;
    assert [gb2] == [gb2] + [] && [fr, gb2] == [fr] + [gb2];
    assert [gb1, fr, gb2] == [gb1] + [fr, gb2] && s == [us] + [gb1, fr, gb2];
    assert Group(s, 0) == [gb1, gb2] by {
      GroupCons(gb2, [], 0);
      GroupCons(fr, [gb2], 0);
      GroupCons(gb1, [fr, gb2], 0);
      GroupCons(us, [gb1, fr, gb2], 0);
    }
    assert Group(s, 1) == [us] by {
      GroupCons(gb2, [], 1);
      GroupCons(fr, [gb2], 1);
      GroupCons(gb1, [fr, gb2], 1);
      GroupCons(us, [gb1, fr, gb2], 1);
    }
    assert Group(s, 2) == [fr] by {
      GroupCons(gb2, [], 2);
      GroupCons(fr, [gb2], 2);
      GroupCons(gb1, [fr, gb2], 2);
      GroupCons(us, [gb1, fr, gb2], 2);
    }
    assert Group(s, 0) == [gb1, gb2] && Group(s, 1) == [us] && Group(s, 2) == [fr];
  }
}
