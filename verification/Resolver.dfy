/**
 TXT include resolution: a depth-first walk over `include:` edges with one visited map shared by all
 recursive calls and a guard on the include depth.
 */
module Resolver {
  import opened Wrappers
  import opened Text
  import opened Cidr

  const MAX_DEPTH := 10

  /** TXT records by domain; a missing domain is a failed lookup. */
  type Zone = map<string, seq<string>>

  datatype ResolveError = TooDeep(domain: string) | LookupFailed(domain: string)

  // ---------- tokens ----------

  function Unquoted(words: seq<string>): seq<string> {
    if words == [] then [] else Unquoted(words[..|words| - 1]) + [Trim(words[|words| - 1], {'"'})]
  }

  /** The fields of all records in order, quotes trimmed. */
  function Tokens(records: seq<string>): seq<string> {
    if records == [] then [] else Tokens(records[..|records| - 1]) + Unquoted(Fields(records[|records| - 1]))
  }

  function Target(tok: string): Option<string> {
    if "include:" <= tok then Some(tok[|"include:"|..]) else None
  }

  predicate IsRange(tok: string) { Target(tok).None? && ValidateCIDR(tok).Some? }

  function Ranges(toks: seq<string>): multiset<string> {
    if toks == [] then multiset{}
    else
      var n := |toks| - 1;
      Ranges(toks[..n]) + (if IsRange(toks[n]) then multiset{toks[n]} else multiset{})
  }

  /** The ranges of a list of domains, each domain counted once per occurrence in the list. */
  function RangesOf(zone: Zone, domains: seq<string>): multiset<string> {
    if domains == [] then multiset{}
    else
      var n := |domains| - 1;
      RangesOf(zone, domains[..n]) + (if domains[n] in zone then Ranges(Tokens(zone[domains[n]])) else multiset{})
  }

  // ---------- the include graph ----------

  ghost predicate Edge(zone: Zone, a: string, b: string) {
    a in zone && exists tok :: tok in Tokens(zone[a]) && Target(tok) == Some(b)
  }

  /** A walk along include edges that visits `q` in order and would step to `d` next. */
  ghost predicate Walk(zone: Zone, q: seq<string>, d: string) {
    q == [] || (Walk(zone, q[..|q| - 1], q[|q| - 1]) && Edge(zone, q[|q| - 1], d))
  }

  ghost predicate Reachable(zone: Zone, a: string, b: string) {
    a == b || exists q :: q != [] && q[0] == a && Walk(zone, q, b)
  }

  ghost predicate NoRepeat(q: seq<string>) {
    forall i, j :: 0 <= i < j < |q| ==> q[i] != q[j]
  }

  lemma WalkSnoc(zone: Zone, q: seq<string>, d: string, e: string)
    requires Walk(zone, q, d) && Edge(zone, d, e)
    ensures Walk(zone, q + [d], e)
  {
    hide Edge;
    assert (q + [d])[..|q|] == q;
  }

  lemma ReachStep(zone: Zone, a: string, b: string, c: string)
    requires Edge(zone, a, b) && Reachable(zone, b, c)
    ensures Reachable(zone, a, c)
  {
    hide Edge;
    if b == c {
      assert [a][..0] == [] && Walk(zone, [a], c);
      assert [a][0] == a;
    } else {
      var q :| q != [] && q[0] == b && Walk(zone, q, c);
      WalkCons(zone, a, q, c);
      assert ([a] + q)[0] == a;
    }
  }

  lemma {:induction false} WalkCons(zone: Zone, a: string, q: seq<string>, d: string)
    requires Walk(zone, q, d) && q != [] && Edge(zone, a, q[0])
    ensures Walk(zone, [a] + q, d)
  {
    hide Edge;
    var n := |q| - 1;
    assert ([a] + q)[..|[a] + q| - 1] == [a] + q[..n];
    if n == 0 {
      assert [a] + q[..n] == [a] && [a][..0] == [];
      assert Walk(zone, [a], q[0]);
    } else {
      WalkCons(zone, a, q[..n], q[n]);
    }
  }

  /** A set closed under edges contains everything reachable from its members. */
  lemma {:induction false} ClosedContainsReachable(zone: Zone, closed: set<string>, q: seq<string>, d: string)
    requires forall a, b :: a in closed && Edge(zone, a, b) ==> b in closed
    requires q != [] && q[0] in closed && Walk(zone, q, d)
    ensures d in closed
  {
    hide Edge;
    var n := |q| - 1;
    if n > 0 {
      ClosedContainsReachable(zone, closed, q[..n], q[n]);
    }
    assert Edge(zone, q[n], d);
  }

  lemma {:induction false} WalkInZone(zone: Zone, q: seq<string>, d: string)
    requires Walk(zone, q, d)
    ensures forall x :: x in q ==> x in zone
  {
    if q != [] {
      WalkInZone(zone, q[..|q| - 1], q[|q| - 1]);
    }
  }

  // ---------- sums over domains ----------

  lemma {:induction false} RangesOfConcat(zone: Zone, a: seq<string>, b: seq<string>)
    ensures RangesOf(zone, a + b) == RangesOf(zone, a) + RangesOf(zone, b)
  {
    hide Ranges, Tokens;
    if b == [] {
      assert a + b == a;
    } else {
      assert (a + b)[..|a + b| - 1] == a + b[..|b| - 1];
      RangesOfConcat(zone, a, b[..|b| - 1]);
    }
  }

  lemma RangesOfOne(zone: Zone, d: string)
    requires d in zone
    ensures RangesOf(zone, [d]) == Ranges(Tokens(zone[d]))
  {
    hide Ranges, Tokens;
    assert [d][..0] == [];
  }

  ghost predicate ListsSet(list: seq<string>, s: set<string>) {
    NoRepeat(list) && forall d :: d in list <==> d in s
  }

  // ---------- the walk ----------

  /** A call from `root` took the map from `before` to `after` by expanding `added`. */
  ghost predicate Grown(zone: Zone, root: string, before: set<string>, after: set<string>, added: seq<string>) {
    before <= after && ListsSet(added, after - before) && forall d :: d in added ==> Reachable(zone, root, d)
  }

  /** The records and all includes of `domains` have been followed. */
  ghost predicate Followed(zone: Zone, domains: set<string>, visited: set<string>) {
    forall d :: d in domains ==> d in zone && forall e :: Edge(zone, d, e) ==> e in visited
  }

  /** The state of the token loop: `done` tokens of `fqdn` are processed, `listed` domains were expanded for them. */
  ghost predicate Progress(zone: Zone, fqdn: string, start: set<string>, visited: set<string>, listed: seq<string>,
      done: seq<string>, out: multiset<string>) {
    && fqdn !in start
    && Grown(zone, fqdn, start, visited, [fqdn] + listed)
    && Followed(zone, visited - start - {fqdn}, visited)
    && (forall tok ::
      tok in done && Target(tok).Some? ==> Target(tok).value in visited)
      && out == RangesOf(zone, listed) + Ranges(done)
  }

  lemma Started(zone: Zone, fqdn: string, start: set<string>)
    requires fqdn !in start
    ensures Progress(zone, fqdn, start, start + {fqdn}, [], [], multiset{})
  {
    assert [fqdn] + [] == [fqdn];
    assert start + {fqdn} - start - {fqdn} == {};
    assert Reachable(zone, fqdn, fqdn);
  }

  lemma AddedTogether(zone: Zone, fqdn: string, target: string, start: set<string>, before: set<string>,
      after: set<string>, listed: seq<string>, added: seq<string>)
    requires Edge(zone, fqdn, target) && Grown(zone, fqdn, start, before, [fqdn] + listed)
             && Grown(zone, target, before, after, added)
    ensures Grown(zone, fqdn, start, after, [fqdn] + (listed + added))
  {
    hide Edge, Reachable;
    forall d | d in added ensures Reachable(zone, fqdn, d) {
      ReachStep(zone, fqdn, target, d);
    }
    var a := [fqdn] + listed;
    assert [fqdn] + (listed + added) == a + added;
    ListsConcat(a, added, before - start, after - before);
    assert after - start == (before - start) + (after - before);
  }

  lemma ListsConcat(a: seq<string>, b: seq<string>, s: set<string>, t: set<string>)
    requires ListsSet(a, s) && ListsSet(b, t) && s !! t
    ensures ListsSet(a + b, s + t)
  {
    var all := a + b;
    forall i, j | 0 <= i < j < |all| ensures all[i] != all[j] {
      if i < |a| <= j {
        assert all[i] in s && all[j] in t by {
          assert a[i] in a && b[j - |a|] in b;
        }
      }
    }
  }

  lemma FollowedTogether(zone: Zone, fqdn: string, start: set<string>, before: set<string>, after: set<string>)
    requires Followed(zone, before - start - {fqdn}, before) && Followed(zone, after - before, after) && before <= after
    ensures Followed(zone, after - start - {fqdn}, after)
  {
    hide Edge;
    forall d | d in after - start - {fqdn} ensures d in zone && forall e :: Edge(zone, d, e) ==> e in after {
      if d in before {
        assert d in before - start - {fqdn};
      } else {
        assert d in after - before;
      }
    }
  }

  lemma RangesSnoc(done: seq<string>, tok: string)
    ensures Ranges(done + [tok]) == if IsRange(tok) then Ranges(done) + multiset{tok} else Ranges(done)
  {
    hide IsRange;
    assert (done + [tok])[..|done|] == done;
  }

  /** One include token: the sub-call's expansions are added and its result is appended. */
  lemma IncludeProgress(zone: Zone, fqdn: string, start: set<string>, before: set<string>, after: set<string>,
      listed: seq<string>, added: seq<string>, done: seq<string>, tok: string, out: multiset<string>)
    requires Progress(zone, fqdn, start, before, listed, done, out) && Target(tok).Some?
             && Edge(zone, fqdn, Target(tok).value)
    requires Grown(zone, Target(tok).value, before, after, added) && Followed(zone, after - before, after)
             && Target(tok).value in after
    ensures Progress(zone, fqdn, start, after, listed + added, done + [tok], out + RangesOf(zone, added))
  {
    hide Edge, Reachable, Grown, Followed, Target, Ranges, RangesOf, IsRange;
    AddedTogether(zone, fqdn, Target(tok).value, start, before, after, listed, added);
    GrownGrows(zone, Target(tok).value, before, after, added);
    FollowedTogether(zone, fqdn, start, before, after);
    RangesOfConcat(zone, listed, added);
    RangesSnoc(done, tok);
    NotARange(tok);
  }

  lemma GrownGrows(zone: Zone, root: string, before: set<string>, after: set<string>, added: seq<string>)
    requires Grown(zone, root, before, after, added)
    ensures before <= after
  {
  }

  /** One other token: appended exactly when it is a range. */
  lemma RangeProgress(zone: Zone, fqdn: string, start: set<string>, visited: set<string>, listed: seq<string>,
      done: seq<string>, tok: string, out: multiset<string>)
    requires Progress(zone, fqdn, start, visited, listed, done, out) && Target(tok).None?
    ensures Progress(zone, fqdn, start, visited, listed, done + [tok], if ValidateCIDR(tok).Some?
            then out + multiset{tok} else out)
  {
    hide Grown, Followed, Target, Ranges, RangesOf, ValidateCIDR;
    RangesSnoc(done, tok);
  }

  lemma Finished(zone: Zone, fqdn: string, start: set<string>, visited: set<string>, listed: seq<string>,
      out: multiset<string>)
    requires fqdn in zone && Progress(zone, fqdn, start, visited, listed, Tokens(zone[fqdn]), out)
    ensures Grown(zone, fqdn, start, visited, [fqdn] + listed) && Followed(zone, visited - start, visited)
            && fqdn in visited
    ensures out == RangesOf(zone, [fqdn] + listed)
  {
    hide Tokens, Target, Ranges, RangesOf;
    RangesOfConcat(zone, [fqdn], listed);
    RangesOfOne(zone, fqdn);
    assert fqdn in [fqdn] + listed;
    forall e | Edge(zone, fqdn, e) ensures e in visited {
      var tok :| tok in Tokens(zone[fqdn]) && Target(tok) == Some(e);
    }
  }

  ghost predicate Explains(zone: Zone, fqdn: string, path: seq<string>, error: ResolveError) {
    match error
    case LookupFailed(d) => d !in zone && Reachable(zone, fqdn, d)
    case TooDeep(d) => exists q :: |q| == MAX_DEPTH + 1 && path + [fqdn] <= q + [d] && NoRepeat(q) && Walk(zone, q, d)
  }

  lemma ExplainsAbove(zone: Zone, fqdn: string, next: string, path: seq<string>, error: ResolveError)
    requires Edge(zone, fqdn, next) && Explains(zone, next, path + [fqdn], error)
    ensures Explains(zone, fqdn, path, error)
  {
    hide Edge, Walk, NoRepeat, Reachable;
    match error {
      case LookupFailed(d) => ReachStep(zone, fqdn, next, d);
      case TooDeep(d) =>
        var q :| |q| == MAX_DEPTH + 1 && path + [fqdn] + [next] <= q + [d] && NoRepeat(q) && Walk(zone, q, d);
        assert path + [fqdn] <= path + [fqdn] + [next];
        assert path + [fqdn] <= q + [d];
    }
  }

  class Walker {
    var visited: set<string>       // the shared map
    var expanded: seq<string>      // domains looked up, in order

    constructor ()
      ensures visited == {} && expanded == []
    {
      visited := {};
      expanded := [];
    }

    /** resolveTXT. `path` is the chain of includes that led here; the depth guard is its length. */
    method Resolve(zone: Zone, fqdn: string, depth: nat, ghost path: seq<string>)
        returns (r: Result<seq<string>, ResolveError>)
      requires |path| == depth <= MAX_DEPTH + 1 && NoRepeat(path) && Walk(zone, path, fqdn)
      requires forall d :: d in path ==> d in visited
      modifies this
      ensures old(expanded) <= expanded
      ensures Grown(zone, fqdn, old(visited), visited, expanded[|old(expanded)|..])
      ensures r.Ok? ==> fqdn in visited && Followed(zone, visited - old(visited), visited)
                        && multiset(r.value) == RangesOf(zone, expanded[|old(expanded)|..])
      ensures r.Err? ==> Explains(zone, fqdn, path, r.error)
      decreases MAX_DEPTH + 1 - depth
    {
      hide Edge, Tokens, Ranges, RangesOf, IsRange, Target, Reachable;
      hide Walk, NoRepeat, Followed, Explains, Grown, Progress, ValidateCIDR;
      ghost var start, base := visited, expanded;
      NothingAdded(zone, fqdn, start);
      if depth > MAX_DEPTH {
        StopsHere(zone, fqdn, path);
        assert expanded[|base|..] == [];
        return Err(TooDeep(fqdn));
      }
      if fqdn in visited {
        assert expanded[|base|..] == [] && visited - start == {};
        return Ok([]);
      }
      visited := visited + {fqdn};
      expanded := expanded + [fqdn];
      Started(zone, fqdn, start);
      ProgressGrown(zone, fqdn, start, visited, [], [], multiset{});
      assert expanded[|base|..] == [fqdn] + [];
      if fqdn !in zone {
        NotFound(zone, fqdn, path);
        return Err(LookupFailed(fqdn));
      }
      var toks := Tokens(zone[fqdn]);
      var out: seq<string> := [];
      ghost var subs: seq<string> := [];
      var i := 0;
      while i < |toks|
        invariant 0 <= i <= |toks|
        invariant expanded == base + ([fqdn] + subs)
        invariant fqdn in visited && start <= visited
        invariant Progress(zone, fqdn, start, visited, subs, toks[..i], multiset(out))
      {
        var tok := toks[i];
        ghost var before := visited;
        assert toks[..i + 1] == toks[..i] + [tok] && tok in toks;
        var target := Target(tok);
        if target.Some? {
          TokenEdge(zone, fqdn, tok);
          StackGrows(zone, path, fqdn, target.value);
          var sub := Resolve(zone, target.value, depth + 1, path + [fqdn]);
          ghost var added := expanded[|base| + 1 + |subs|..];
          assert expanded == base + ([fqdn] + (subs + added));
          assert expanded[|base|..] == [fqdn] + (subs + added);
          ProgressGrown(zone, fqdn, start, before, subs, toks[..i], multiset(out));
          AddedTogether(zone, fqdn, target.value, start, before, visited, subs, added);
          if sub.Err? {
            ExplainsAbove(zone, fqdn, target.value, path, sub.error);
            return Err(sub.error);
          }
          IncludeProgress(zone, fqdn, start, before, visited, subs, added, toks[..i], tok, multiset(out));
          subs := subs + added;
          out := out + sub.value;
          GrownGrows(zone, target.value, before, visited, added);
        } else {
          RangeProgress(zone, fqdn, start, visited, subs, toks[..i], tok, multiset(out));
          if ValidateCIDR(tok).Some? {
            out := out + [tok];
          }
        }
        i := i + 1;
      }
      assert toks[..i] == toks;
      assert expanded[|base|..] == [fqdn] + subs;
      Finished(zone, fqdn, start, visited, subs, multiset(out));
      return Ok(out);
    }
  }

  lemma StopsHere(zone: Zone, fqdn: string, path: seq<string>)
    requires |path| == MAX_DEPTH + 1 && NoRepeat(path) && Walk(zone, path, fqdn)
    ensures Explains(zone, fqdn, path, TooDeep(fqdn))
  {
    assert path + [fqdn] <= path + [fqdn];
  }

  lemma NotFound(zone: Zone, fqdn: string, path: seq<string>)
    requires fqdn !in zone
    ensures Explains(zone, fqdn, path, LookupFailed(fqdn))
  {
  }

  lemma ProgressGrown(zone: Zone, fqdn: string, start: set<string>, visited: set<string>, listed: seq<string>,
      done: seq<string>, out: multiset<string>)
    requires Progress(zone, fqdn, start, visited, listed, done, out)
    ensures Grown(zone, fqdn, start, visited, [fqdn] + listed)
  {
    hide Grown, Followed, Ranges, RangesOf;
  }

  lemma NothingAdded(zone: Zone, fqdn: string, visited: set<string>)
    ensures Grown(zone, fqdn, visited, visited, []) && Followed(zone, {}, visited) && RangesOf(zone, []) == multiset{}
  {
  }

  lemma TokenEdge(zone: Zone, a: string, tok: string)
    requires a in zone && tok in Tokens(zone[a]) && Target(tok).Some?
    ensures Edge(zone, a, Target(tok).value)
  {
  }

  lemma StackGrows(zone: Zone, path: seq<string>, fqdn: string, next: string)
    requires NoRepeat(path) && Walk(zone, path, fqdn) && fqdn !in path && Edge(zone, fqdn, next)
    ensures NoRepeat(path + [fqdn]) && Walk(zone, path + [fqdn], next)
  {
    hide Edge;
    WalkSnoc(zone, path, fqdn, next);
  }

  lemma NotARange(tok: string)
    requires Target(tok).Some?
    ensures !IsRange(tok)
  {
  }

  // ---------- the whole resolution ----------

  /** All domains reachable from the root, listed once each. */
  ghost predicate ListsReachable(zone: Zone, root: string, domains: seq<string>) {
    NoRepeat(domains) && forall d :: d in domains <==> Reachable(zone, root, d)
  }

  /** A chain of includes from the root through one more distinct domain than the guard allows, and on to `d`. */
  ghost predicate TooDeepChain(zone: Zone, root: string, d: string) {
    exists q :: |q| == MAX_DEPTH + 1 && q[0] == root && NoRepeat(q) && Walk(zone, q, d)
  }

  lemma DeepFromRoot(zone: Zone, root: string, d: string)
    requires Explains(zone, root, [], TooDeep(d))
    ensures TooDeepChain(zone, root, d) && Reachable(zone, root, d)
  {
    hide Edge, Walk, NoRepeat;
    var q :| |q| == MAX_DEPTH + 1 && [] + [root] <= q + [d] && NoRepeat(q) && Walk(zone, q, d);
    assert q[0] == (q + [d])[0] == ([] + [root])[0] == root;
  }

  /**
   Resolution from an empty map: on success the result holds exactly the valid ranges of all reachable domains, every
   domain expanded exactly once; it fails only on a reachable domain without records or on an over-long include chain
   that starts at the root.
   */
  method ResolveTXT(zone: Zone, root: string) returns (r: Result<seq<string>, ResolveError>, domains: seq<string>)
    ensures r.Ok? ==> ListsReachable(zone, root, domains) && multiset(r.value) == RangesOf(zone, domains)
    ensures r.Ok? ==> forall d :: Reachable(zone, root, d) ==> d in zone
    ensures r.Err? ==> match r.error
                       case LookupFailed(d) => d !in zone && Reachable(zone, root, d)
                       case TooDeep(d) => TooDeepChain(zone, root, d) && Reachable(zone, root, d)
  {
    hide Edge, RangesOf, Reachable, Walk;
    var w := new Walker();
    assert Walk(zone, [], root) by { EmptyWalk(zone, root); }
    r := w.Resolve(zone, root, 0, []);
    domains := w.expanded;
    assert w.expanded[0..] == w.expanded;
    if r.Ok? {
      assert w.visited - {} == w.visited;
      forall d | Reachable(zone, root, d) ensures d in w.visited {
        ReachedIsIn(zone, root, d, w.visited);
      }
    } else if r.error.TooDeep? {
      DeepFromRoot(zone, root, r.error.domain);
    }
  }

  lemma EmptyWalk(zone: Zone, root: string)
    ensures Walk(zone, [], root)
  {
  }

  lemma ReachedIsIn(zone: Zone, root: string, d: string, closed: set<string>)
    requires root in closed && Reachable(zone, root, d)
    requires forall a, b :: a in closed && Edge(zone, a, b) ==> b in closed
    ensures d in closed
  {
    hide Edge;
    if d != root {
      var q :| q != [] && q[0] == root && Walk(zone, q, d);
      ClosedContainsReachable(zone, closed, q, d);
    }
  }

  lemma {:induction false} NoRepeatFits(q: seq<string>, s: set<string>)
    requires NoRepeat(q) && forall d :: d in q ==> d in s
    ensures |q| <= |s|
  {
    if q != [] {
      var n := |q| - 1;
      assert q[n] in q;
      forall d | d in q[..n] ensures d in s - {q[n]} {
        assert d in q;
      }
      NoRepeatFits(q[..n], s - {q[n]});
    }
  }

  /** Ten domains or fewer never run into the guard, cycles or not. */
  lemma SmallZonesAreNotTooDeep(zone: Zone, root: string, d: string)
    requires |zone| <= 10
    ensures !TooDeepChain(zone, root, d)
  {
    forall q | |q| == MAX_DEPTH + 1 && NoRepeat(q) ensures !Walk(zone, q, d) {
      if Walk(zone, q, d) {
        WalkInZone(zone, q, d);
        NoRepeatFits(q, zone.Keys);
      }
    }
  }
}
