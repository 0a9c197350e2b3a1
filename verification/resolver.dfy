/** `_find_device`: turning the identifier given to `on`, `off` or `toggle`
    into exactly one device, or into nothing when the name is missing or
    ambiguous.  Network calls are inputs: `direct` is what the unicast
    probe of an address produced and `found` what a broadcast round
    produced (each entry already refreshed with `update()`). */
module Resolver {
  import opened Wrappers
  import opened TextOps
  import opened Seqs

  /** A discovered host: the address it was discovered at (the key of the
      discovery dict) and `_safe(dev, "alias")`. */
  datatype Candidate = Candidate(ip: string, alias: Option<string>)

  datatype Outcome =
    | NotFound
    | Found(device: Candidate)
    | Ambiguous(candidates: seq<Candidate>)

  /** The outcome and the handles that were disconnected, in the order the
      disconnects were issued. */
  datatype Resolution = Resolution(outcome: Outcome, disconnected: seq<Candidate>)

  // ---------------------------------------------------------------------------
  // Is the identifier an address?
  // ---------------------------------------------------------------------------

  /** `len(parts) == 4 and all(p.isdigit() for p in parts)` with
      `parts = s.split(".")`.  No range check on the four numbers. */
  predicate IsIpLiteral(s: string): (b: bool)
    ensures b ==> forall ch :: ch in s ==> ch == '.' || IsDigitChar(ch)
  {
    var parts := Split(s, '.');
    if |parts| == 4 && forall i :: 0 <= i < |parts| ==> IsDigits(parts[i]) then
      JoinFour(parts[0], parts[1], parts[2], parts[3], ".");
      assert parts == [parts[0], parts[1], parts[2], parts[3]];
      true
    else false
  }

  ghost predicate DottedQuad(s: string, a: string, b: string, c: string, d: string) {
    IsDigits(a) && IsDigits(b) && IsDigits(c) && IsDigits(d) && s == a + "." + b + "." + c + "." + d
  }

  lemma DigitsHaveNoDot(p: string)
    requires IsDigits(p)
    ensures '.' !in p
  {
    forall k | 0 <= k < |p| ensures p[k] != '.' {
      assert IsDigitChar(p[k]);
    }
  }

  lemma JoinFour(a: string, b: string, c: string, d: string, sep: string)
    ensures Join([a, b, c, d], sep) == a + sep + b + sep + c + sep + d
  {
    var q := [a, b, c, d];
    assert q[1..] == [b, c, d];
    assert q[1..][1..] == [c, d];
    assert q[1..][1..][1..] == [d];
    assert Join([c, d], sep) == c + sep + d;
    assert Join([b, c, d], sep) == b + sep + (c + sep + d);
  }

  /** An identifier counts as an address exactly when it is four non-empty
      runs of decimal digits joined by dots. */
  lemma IpLiteralIffDottedQuad(s: string)
    ensures IsIpLiteral(s) <==> exists a, b, c, d :: DottedQuad(s, a, b, c, d)
  {
    var parts := Split(s, '.');
    if IsIpLiteral(s) {
      assert parts == [parts[0], parts[1], parts[2], parts[3]];
      JoinFour(parts[0], parts[1], parts[2], parts[3], ".");
      assert DottedQuad(s, parts[0], parts[1], parts[2], parts[3]);
    }
    if exists a, b, c, d :: DottedQuad(s, a, b, c, d) {
      var a, b, c, d :| DottedQuad(s, a, b, c, d);
      var quad := [a, b, c, d];
      DigitsHaveNoDot(a);
      DigitsHaveNoDot(b);
      DigitsHaveNoDot(c);
      DigitsHaveNoDot(d);
      JoinFour(a, b, c, d, ".");
      SplitOfJoin(quad, '.');
    }
  }

  /** Every four-field dotted-decimal string is treated as an address, even
      one whose fields are out of the 0-255 range. */
  lemma OutOfRangeOctetsStillAddress()
    ensures IsIpLiteral("999.1.1.300")
  {
    assert DottedQuad("999.1.1.300", "999", "1", "1", "300");
    IpLiteralIffDottedQuad("999.1.1.300");
  }

  /** Too short to hold four digit runs and three dots: a name. */
  lemma ShortIdentifiersAreNames(s: string)
    requires |s| < 7
    ensures !IsIpLiteral(s)
  {
    IpLiteralIffDottedQuad(s);
  }

  // ---------------------------------------------------------------------------
  // Name matching
  // ---------------------------------------------------------------------------

  /** `needle in (_safe(dev, "alias") or "").lower()` with
      `needle = name_or_ip.lower()`. */
  predicate Matches(identifier: string, c: Candidate): (b: bool)
    ensures identifier == "" ==> b
    ensures c.alias.None? ==> (b <==> identifier == "")
  {
    var hay := Lower(c.alias.GetOr(""));
    if identifier == "" then
      ContainsAt(hay, Lower(identifier), 0);
      Contains(hay, Lower(identifier))
    else
      Contains(hay, Lower(identifier))
  }

  /** The discovery result is a dict keyed by address. */
  predicate DistinctIps(cs: seq<Candidate>) {
    forall i, j :: 0 <= i < j < |cs| ==> cs[i].ip != cs[j].ip
  }

  predicate HasIp(cs: seq<Candidate>, ip: string) {
    exists i :: 0 <= i < |cs| && cs[i].ip == ip
  }

  ghost predicate NoMatch(identifier: string, cs: seq<Candidate>) {
    forall i :: 0 <= i < |cs| ==> !Matches(identifier, cs[i])
  }

  ghost predicate UniqueMatchAt(identifier: string, cs: seq<Candidate>, i: int) {
    && 0 <= i < |cs|
    && Matches(identifier, cs[i])
    && forall j :: 0 <= j < |cs| && j != i ==> !Matches(identifier, cs[j])
  }

  ghost predicate TwoMatches(identifier: string, cs: seq<Candidate>) {
    exists i, j :: 0 <= i < j < |cs| && Matches(identifier, cs[i]) && Matches(identifier, cs[j])
  }

  function MatchFn(identifier: string): Candidate -> bool {
    c => Matches(identifier, c)
  }

  /** `not any(ip == m[0] for m in matches)` */
  function Unmatched(matches: seq<Candidate>): Candidate -> bool {
    (c: Candidate) => !HasIp(matches, c.ip)
  }

  // ---------------------------------------------------------------------------
  // The resolver
  // ---------------------------------------------------------------------------

  /** `_find_device(name_or_ip)`.  An address goes to the unicast probe
      and nothing is disconnected; otherwise the broadcast round is
      searched by name, every non-matching handle is disconnected, and on
      ambiguity every matching handle is disconnected as well. */
  function Resolve(identifier: string, direct: Option<Candidate>, found: seq<Candidate>): (r: Resolution)
    requires DistinctIps(found)
    ensures IsIpLiteral(identifier) ==> r.disconnected == []
    ensures IsIpLiteral(identifier) && direct.Some? ==> r.outcome == Found(direct.value)
    ensures IsIpLiteral(identifier) && direct.None? ==> r.outcome == NotFound
    ensures !IsIpLiteral(identifier) && r.outcome.Found? ==> r.outcome.device in found
    ensures !IsIpLiteral(identifier) && r.outcome.Ambiguous? ==> IsSubseq(r.outcome.candidates, found)
  {
    if IsIpLiteral(identifier) then
      Resolution(if direct.Some? then Found(direct.value) else NotFound, [])
    else
      var matches := Filter(found, MatchFn(identifier));
      var unmatched := Filter(found, Unmatched(matches));
      if |matches| == 0 then
        Resolution(NotFound, unmatched)
      else if |matches| > 1 then
        Resolution(Ambiguous(matches), unmatched + matches)
      else
        assert matches[0] in multiset(matches);
        Resolution(Found(matches[0]), unmatched)
  }

  // ---------------------------------------------------------------------------
  // Facts about filtered candidate lists
  // ---------------------------------------------------------------------------

  /** With distinct addresses every discovered handle occurs once. */
  lemma {:induction false} DistinctOccursOnce(s: seq<Candidate>, i: nat)
    requires DistinctIps(s) && i < |s|
    ensures multiset(s)[s[i]] == 1
    decreases |s|
  {
    assert s == [s[0]] + s[1..];
    assert DistinctIps(s[1..]);
    if i == 0 {
      forall k | 0 <= k < |s[1..]| ensures s[1..][k] != s[0] {
        assert s[1..][k].ip == s[k + 1].ip != s[0].ip;
      }
      assert s[0] !in s[1..];
    } else {
      DistinctOccursOnce(s[1..], i - 1);
      assert s[i] == s[1..][i - 1];
      assert s[0].ip != s[i].ip;
    }
  }

  lemma InFilter(s: seq<Candidate>, p: Candidate -> bool, i: nat)
    requires i < |s| && p(s[i])
    ensures s[i] in Filter(s, p)
  {
    assert s[i] in multiset(s);
    assert s[i] in multiset(Filter(s, p));
  }

  lemma {:induction false} FilterFromSource(s: seq<Candidate>, p: Candidate -> bool, k: nat)
    requires k < |Filter(s, p)|
    ensures exists i :: 0 <= i < |s| && s[i] == Filter(s, p)[k]
  {
    var x := Filter(s, p)[k];
    assert x in multiset(Filter(s, p));
    assert x in multiset(s);
    var i :| 0 <= i < |s| && s[i] == x;
  }

  lemma DistinctIpsCons(c: Candidate, rest: seq<Candidate>)
    requires DistinctIps(rest)
    requires forall k :: 0 <= k < |rest| ==> rest[k].ip != c.ip
    ensures DistinctIps([c] + rest)
  {
    var s := [c] + rest;
    forall i, j | 0 <= i < j < |s| ensures s[i].ip != s[j].ip {
      assert s[j] == rest[j - 1];
      if i > 0 { assert s[i] == rest[i - 1]; }
    }
  }

  lemma {:induction false} FilterDistinct(s: seq<Candidate>, p: Candidate -> bool)
    requires DistinctIps(s)
    ensures DistinctIps(Filter(s, p))
    decreases |s|
  {
    if s != [] {
      assert DistinctIps(s[1..]);
      FilterDistinct(s[1..], p);
      var rest := Filter(s[1..], p);
      FilterCons(s, p);
      if p(s[0]) {
        forall k | 0 <= k < |rest| ensures rest[k].ip != s[0].ip {
          FilterFromSource(s[1..], p, k);
        }
        DistinctIpsCons(s[0], rest);
      }
    }
  }

  /** With distinct addresses, "no match shares this address" is "this one
      does not match". */
  lemma HasIpOfMatches(identifier: string, found: seq<Candidate>, i: nat)
    requires DistinctIps(found) && i < |found|
    ensures Unmatched(Filter(found, MatchFn(identifier)))(found[i]) <==> !Matches(identifier, found[i])
  {
    var matches := Filter(found, MatchFn(identifier));
    if HasIp(matches, found[i].ip) {
      var k :| 0 <= k < |matches| && matches[k].ip == found[i].ip;
      FilterFromSource(found, MatchFn(identifier), k);
      var j :| 0 <= j < |found| && found[j] == matches[k];
      assert j == i;
    }
    if Matches(identifier, found[i]) {
      InFilter(found, MatchFn(identifier), i);
      var k :| 0 <= k < |matches| && matches[k] == found[i];
    }
  }

  lemma NoMatchIffNoneKept(identifier: string, found: seq<Candidate>)
    ensures |Filter(found, MatchFn(identifier))| == 0 <==> NoMatch(identifier, found)
  {
    if |Filter(found, MatchFn(identifier))| > 0 {
      FilterFromSource(found, MatchFn(identifier), 0);
    }
    forall i | 0 <= i < |found| && Matches(identifier, found[i])
      ensures Filter(found, MatchFn(identifier)) != []
    {
      InFilter(found, MatchFn(identifier), i);
    }
  }

  lemma TwoKeptAreTwoMatches(identifier: string, found: seq<Candidate>)
    requires DistinctIps(found) && |Filter(found, MatchFn(identifier))| >= 2
    ensures TwoMatches(identifier, found)
  {
    var matches := Filter(found, MatchFn(identifier));
    FilterDistinct(found, MatchFn(identifier));
    FilterFromSource(found, MatchFn(identifier), 0);
    FilterFromSource(found, MatchFn(identifier), 1);
    var i :| 0 <= i < |found| && found[i] == matches[0];
    var j :| 0 <= j < |found| && found[j] == matches[1];
    assert matches[0].ip != matches[1].ip;
    assert Matches(identifier, found[i]) && Matches(identifier, found[j]);
    var lo, hi := if i < j then i else j, if i < j then j else i;
    assert 0 <= lo < hi < |found| && Matches(identifier, found[lo]) && Matches(identifier, found[hi]);
  }

  lemma TwoMatchesAreTwoKept(identifier: string, found: seq<Candidate>)
    requires DistinctIps(found) && TwoMatches(identifier, found)
    ensures |Filter(found, MatchFn(identifier))| >= 2
  {
    var matches := Filter(found, MatchFn(identifier));
    var i, j :| 0 <= i < j < |found| && Matches(identifier, found[i]) && Matches(identifier, found[j]);
    InFilter(found, MatchFn(identifier), i);
    InFilter(found, MatchFn(identifier), j);
    TwoDistinctMembers(matches, found[i], found[j]);
  }

  lemma TwoDistinctMembers<T>(s: seq<T>, a: T, b: T)
    requires a in s && b in s && a != b
    ensures |s| >= 2
  {
    var ia :| 0 <= ia < |s| && s[ia] == a;
    var ib :| 0 <= ib < |s| && s[ib] == b;
    assert ia != ib;
  }

  lemma TwoMatchesIffTwoKept(identifier: string, found: seq<Candidate>)
    requires DistinctIps(found)
    ensures |Filter(found, MatchFn(identifier))| >= 2 <==> TwoMatches(identifier, found)
  {
    if |Filter(found, MatchFn(identifier))| >= 2 {
      TwoKeptAreTwoMatches(identifier, found);
    }
    if TwoMatches(identifier, found) {
      TwoMatchesAreTwoKept(identifier, found);
    }
  }

  lemma OneKeptIsUnique(identifier: string, found: seq<Candidate>) returns (k: nat)
    requires DistinctIps(found) && |Filter(found, MatchFn(identifier))| == 1
    ensures UniqueMatchAt(identifier, found, k)
    ensures Filter(found, MatchFn(identifier))[0] == found[k]
  {
    var matches := Filter(found, MatchFn(identifier));
    FilterFromSource(found, MatchFn(identifier), 0);
    k :| 0 <= k < |found| && found[k] == matches[0];
    assert matches == [found[k]];
    forall j | 0 <= j < |found| && j != k
      ensures !Matches(identifier, found[j])
    {
      assert found[j].ip != found[k].ip;
      assert multiset(matches)[found[j]] == 0;
      assert found[j] in multiset(found);
    }
  }

  lemma UniqueIffOneKept(identifier: string, found: seq<Candidate>)
    requires DistinctIps(found)
    ensures |Filter(found, MatchFn(identifier))| == 1 <==> exists i :: UniqueMatchAt(identifier, found, i)
  {
    var matches := Filter(found, MatchFn(identifier));
    if |matches| == 1 {
      var k := OneKeptIsUnique(identifier, found);
    }
    forall i | UniqueMatchAt(identifier, found, i) ensures |matches| == 1 {
      InFilter(found, MatchFn(identifier), i);
      NoMatchIffNoneKept(identifier, found);
      TwoMatchesIffTwoKept(identifier, found);
    }
  }

  // ---------------------------------------------------------------------------
  // What `_find_device` promises
  // ---------------------------------------------------------------------------

  /** A name nobody matches gives no device. */
  lemma ResolveNotFound(identifier: string, direct: Option<Candidate>, found: seq<Candidate>)
    requires DistinctIps(found) && !IsIpLiteral(identifier)
    ensures Resolve(identifier, direct, found).outcome == NotFound <==> NoMatch(identifier, found)
  {
    NoMatchIffNoneKept(identifier, found);
  }

  /** A device is returned exactly when one discovered device matches, and
      then it is that device: the resolver never picks among several. */
  lemma ResolveFoundIffUnique(identifier: string, direct: Option<Candidate>, found: seq<Candidate>)
    requires DistinctIps(found) && !IsIpLiteral(identifier)
    ensures Resolve(identifier, direct, found).outcome.Found?
            <==> exists i :: UniqueMatchAt(identifier, found, i)
    ensures forall i :: UniqueMatchAt(identifier, found, i) ==>
              Resolve(identifier, direct, found).outcome == Found(found[i])
  {
    UniqueIffOneKept(identifier, found);
    var matches := Filter(found, MatchFn(identifier));
    forall i | UniqueMatchAt(identifier, found, i)
      ensures Resolve(identifier, direct, found).outcome == Found(found[i])
    {
      InFilter(found, MatchFn(identifier), i);
    }
  }

  /** Two or more matches give the ambiguous outcome, listing every match
      in discovery order. */
  lemma ResolveAmbiguous(identifier: string, direct: Option<Candidate>, found: seq<Candidate>)
    requires DistinctIps(found) && !IsIpLiteral(identifier)
    ensures var r := Resolve(identifier, direct, found);
            && (r.outcome.Ambiguous? <==> TwoMatches(identifier, found))
            && (r.outcome.Ambiguous? ==>
                  && |r.outcome.candidates| >= 2
                  && IsSubseq(r.outcome.candidates, found)
                  && (forall k :: 0 <= k < |r.outcome.candidates| ==> Matches(identifier, r.outcome.candidates[k]))
                  && (forall i :: 0 <= i < |found| && Matches(identifier, found[i]) ==> found[i] in r.outcome.candidates))
  {
    ResolveAmbiguousIff(identifier, direct, found);
    ResolveAmbiguousLists(identifier, direct, found);
  }

  lemma ResolveAmbiguousIff(identifier: string, direct: Option<Candidate>, found: seq<Candidate>)
    requires DistinctIps(found) && !IsIpLiteral(identifier)
    ensures Resolve(identifier, direct, found).outcome.Ambiguous? <==> TwoMatches(identifier, found)
  {
    ResolveByMatchCount(identifier, direct, found);
    TwoMatchesIffTwoKept(identifier, found);
  }

  lemma ResolveAmbiguousLists(identifier: string, direct: Option<Candidate>, found: seq<Candidate>)
    requires DistinctIps(found) && !IsIpLiteral(identifier)
    ensures var o := Resolve(identifier, direct, found).outcome;
            o.Ambiguous? ==>
              && |o.candidates| >= 2
              && IsSubseq(o.candidates, found)
              && (forall k :: 0 <= k < |o.candidates| ==> Matches(identifier, o.candidates[k]))
              && (forall i :: 0 <= i < |found| && Matches(identifier, found[i]) ==> found[i] in o.candidates)
  {
    var matches := Filter(found, MatchFn(identifier));
    ResolveByMatchCount(identifier, direct, found);
    forall i | 0 <= i < |found| && Matches(identifier, found[i])
      ensures found[i] in matches
    {
      InFilter(found, MatchFn(identifier), i);
    }
  }

  /** For a name or MAC address, the outcome depends only on the list of
      matches. */
  lemma ResolveByMatchCount(identifier: string, direct: Option<Candidate>, found: seq<Candidate>)
    requires DistinctIps(found) && !IsIpLiteral(identifier)
    ensures var matches := Filter(found, MatchFn(identifier));
            Resolve(identifier, direct, found).outcome
              == if |matches| == 0 then NotFound
                 else if |matches| > 1 then Ambiguous(matches)
                 else Found(matches[0])
  {
  }

  /** Every discovered handle is disconnected exactly once, except the one
      handed back to the caller, which is never disconnected; nothing that
      was not discovered is disconnected. */
  lemma ResolveReleasesAllButReturned(identifier: string, direct: Option<Candidate>, found: seq<Candidate>)
    requires DistinctIps(found) && !IsIpLiteral(identifier)
    ensures var r := Resolve(identifier, direct, found);
            && (forall i :: 0 <= i < |found| ==>
                  multiset(r.disconnected)[found[i]] == if r.outcome == Found(found[i]) then 0 else 1)
            && (forall c :: c in r.disconnected ==> c in found)
  {
    var r := Resolve(identifier, direct, found);
    var matches := Filter(found, MatchFn(identifier));
    var unmatched := Filter(found, Unmatched(matches));
    UniqueIffOneKept(identifier, found);
    forall i | 0 <= i < |found|
      ensures multiset(r.disconnected)[found[i]] == if r.outcome == Found(found[i]) then 0 else 1
    {
      DistinctOccursOnce(found, i);
      HasIpOfMatches(identifier, found, i);
      assert multiset(unmatched)[found[i]] == if Matches(identifier, found[i]) then 0 else 1;
      assert multiset(matches)[found[i]] == if Matches(identifier, found[i]) then 1 else 0;
      if |matches| == 1 {
        if Matches(identifier, found[i]) {
          InFilter(found, MatchFn(identifier), i);
          assert r.outcome == Found(found[i]);
        } else {
          assert matches[0] in multiset(matches);
          assert matches[0] != found[i];
        }
      }
    }
    forall c | c in r.disconnected ensures c in found {
      assert c in multiset(r.disconnected);
      assert c in multiset(unmatched) || c in multiset(matches);
    }
  }
}
