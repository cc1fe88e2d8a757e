/**
 The fragment of nftables the tool emits: rules with conjunctive matches, named address sets,
 first-match evaluation and one level of `jump`.
 */
module Nft {
  import opened Wrappers
  import opened Cidr

  datatype Transport = Tcp | Udp

  datatype Protocol = L4(transport: Transport) | IcmpV4 | IcmpV6 | OtherProtocol

  /** `dport` is looked at for TCP and UDP only. */
  datatype Packet = Packet(lo: bool, established: bool, src: Addr, proto: Protocol, dport: nat)

  datatype SetName = Allow4 | Allow6 | Admin4 | Admin6

  predicate SetIsV6(name: SetName) { name == Allow6 || name == Admin6 }

  /** The live sets: a missing key is a set that does not exist; elements are prefix texts. */
  type Sets = map<SetName, set<string>>

  datatype Guard = Any | FromLoopback | Established | Icmp | Icmp6

  datatype Source = Anyone | InSet(name: SetName) | FromText(text: string)

  datatype Ports = Ports(transport: Transport, ports: seq<int>)

  datatype Action = Accept | Drop | JumpExposed | LogOnly

  datatype Rule = Rule(guard: Guard, dport: Option<Ports>, src: Source, action: Action)

  type Chain = seq<Rule>

  // ---------- matching ----------

  ghost predicate SetHolds(sets: Sets, name: SetName, a: Addr) {
    name in sets && a.v6 == SetIsV6(name) && exists t :: t in sets[name] && Denotes(t, a)
  }

  ghost predicate GuardHolds(g: Guard, p: Packet) {
    match g
    case Any => true
    case FromLoopback => p.lo
    case Established => p.established
    case Icmp => !p.src.v6 && p.proto == IcmpV4
    case Icmp6 => p.src.v6 && p.proto == IcmpV6
  }

  ghost predicate SourceHolds(s: Source, sets: Sets, p: Packet) {
    match s
    case Anyone => true
    case InSet(name) => SetHolds(sets, name, p.src)
    case FromText(text) => Denotes(text, p.src)
  }

  ghost predicate Matches(r: Rule, sets: Sets, p: Packet) {
    && GuardHolds(r.guard, p)
    && (r.dport.Some? ==> p.proto == L4(r.dport.value.transport) && p.dport in r.dport.value.ports)
    && SourceHolds(r.src, sets, p)
  }

  // ---------- first-match evaluation ----------

  datatype Verdict = Accepted | Dropped | NoMatch

  /** Runs a chain; `callee` is the chain that `jump exposed` enters and returns from. */
  ghost function Run(rules: Chain, callee: Chain, sets: Sets, p: Packet): Verdict
    decreases |callee|, |rules|
  {
    if rules == [] then NoMatch
    else if !Matches(rules[0], sets, p) then Run(rules[1..], callee, sets, p)
    else match rules[0].action
      case Accept => Accepted
      case Drop => Dropped
      case LogOnly => Run(rules[1..], callee, sets, p)
      case JumpExposed =>
        var inner := Run(callee, [], sets, p);
        if inner.NoMatch? then Run(rules[1..], callee, sets, p) else inner
  }

  /** The base chain's policy is drop: only an explicit accept lets a packet in. */
  ghost predicate LetsIn(rules: Chain, callee: Chain, sets: Sets, p: Packet) {
    Run(rules, callee, sets, p).Accepted?
  }

  lemma {:induction false} RunConcat(a: Chain, b: Chain, callee: Chain, sets: Sets, p: Packet)
    ensures Run(a + b, callee, sets, p) ==
            if Run(a, callee, sets, p).NoMatch? then Run(b, callee, sets, p) else Run(a, callee, sets, p)
  {
    if a == [] {
      assert a + b == b;
    } else {
      assert (a + b)[0] == a[0] && (a + b)[1..] == a[1..] + b;
      RunConcat(a[1..], b, callee, sets, p);
    }
  }

  /** A chain only sees the verdict of the chain it jumps to. */
  lemma {:induction false} CalleeVerdictSuffices(rules: Chain, a: Chain, b: Chain, sets: Sets, p: Packet)
    requires Run(a, [], sets, p) == Run(b, [], sets, p)
    ensures Run(rules, a, sets, p) == Run(rules, b, sets, p)
    decreases |rules|
  {
    hide Matches;
    if rules != [] {
      CalleeVerdictSuffices(rules[1..], a, b, sets, p);
    }
  }

  /** Inserting an accept rule anywhere never loses a packet, and gains only packets it matches. */
  lemma {:induction false} InsertAccept(a: Chain, r: Rule, b: Chain, callee: Chain, sets: Sets, p: Packet)
    requires r.action == Accept
    ensures LetsIn(a + b, callee, sets, p) ==> LetsIn(a + [r] + b, callee, sets, p)
    ensures LetsIn(a + [r] + b, callee, sets, p) <==>
            LetsIn(a + b, callee, sets, p) || (Matches(r, sets, p) && Run(a, callee, sets, p).NoMatch?)
  {
    RunConcat(a, b, callee, sets, p);
    RunConcat(a + [r], b, callee, sets, p);
    RunConcat(a, [r], callee, sets, p);
    assert [r][1..] == [];
  }

  /** No rule of the chain itself drops. */
  ghost predicate NoDrop(rules: Chain) {
    forall r :: r in rules ==> r.action != Drop
  }

  /** A drop rule of the chain matches the packet. */
  ghost predicate DropMatches(rules: Chain, sets: Sets, p: Packet) {
    exists r :: r in rules && r.action == Drop && Matches(r, sets, p)
  }

  /** `exposed` never jumps on. */
  ghost predicate Flat(rules: Chain) {
    forall r :: r in rules ==> r.action != JumpExposed
  }

  lemma {:induction false} DroppedByMatch(rules: Chain, sets: Sets, p: Packet)
    requires Flat(rules) && Run(rules, [], sets, p).Dropped?
    ensures DropMatches(rules, sets, p)
  {
    if !Matches(rules[0], sets, p) || rules[0].action == LogOnly {
      DroppedByMatch(rules[1..], sets, p);
      var r :| r in rules[1..] && r.action == Drop && Matches(r, sets, p);
      assert r in rules;
    } else {
      assert rules[0] in rules;
    }
  }

  /** In a chain without drops, a matching accept is reached unless the jump drops the packet. */
  lemma {:induction false} AcceptReached(rules: Chain, r: Rule, callee: Chain, sets: Sets, p: Packet)
    requires NoDrop(rules) && r in rules && r.action == Accept && Matches(r, sets, p)
    requires !Run(callee, [], sets, p).Dropped?
    ensures LetsIn(rules, callee, sets, p)
  {
    if rules[0] != r {
      assert r in rules[1..];
      AcceptReached(rules[1..], r, callee, sets, p);
    }
  }

  /** Where an acceptance comes from. */
  lemma {:induction false} AcceptedBySomething(rules: Chain, callee: Chain, sets: Sets, p: Packet)
    requires LetsIn(rules, callee, sets, p)
    ensures (exists r ::
              r in rules && r.action == Accept && Matches(r, sets, p))
              || (Run(callee, [], sets, p).Accepted? &&
             exists r :: r in rules && r.action == JumpExposed && Matches(r, sets, p))
  {
    var inner := Run(callee, [], sets, p);
    if Matches(rules[0], sets, p)
      && (rules[0].action == Accept || (rules[0].action == JumpExposed && !inner.NoMatch?)) {
      assert rules[0] in rules;
    } else {
      AcceptedBySomething(rules[1..], callee, sets, p);
      assert forall r :: r in rules[1..] ==> r in rules;
    }
  }

  // ---------- growing sets ----------

  /** Loading more elements additively. */
  function MergeSets(a: Sets, b: Sets): (r: Sets)
    ensures r.Keys == a.Keys + b.Keys
    ensures forall n :: n in r ==> r[n] == (if n in a then a[n] else {}) + (if n in b then b[n] else {})
  {
    map n | n in a.Keys + b.Keys :: (if n in a then a[n] else {}) + (if n in b then b[n] else {})
  }

  lemma MergeSelf(a: Sets)
    ensures MergeSets(a, a) == a
  {
    var r := MergeSets(a, a);
    forall n | n in a ensures r[n] == a[n] {
      assert a[n] + a[n] == a[n];
    }
  }

  lemma MatchesGrows(r: Rule, a: Sets, b: Sets, p: Packet)
    requires Matches(r, a, p)
    ensures Matches(r, MergeSets(a, b), p) && Matches(r, MergeSets(b, a), p)
  {
    if r.src.InSet? {
      var t :| t in a[r.src.name] && Denotes(t, p.src);
      assert t in MergeSets(a, b)[r.src.name];
      assert t in MergeSets(b, a)[r.src.name];
    }
  }

  // ---------- rules of one port ----------

  predicate ForPort(r: Rule, port: nat) {
    r.dport.Some? && r.dport.value.ports == [port]
  }

  /** The rules a `grep "dport <port>([^0-9]|$)"` selects, in order. */
  function PortRules(rules: Chain, port: nat): Chain {
    if rules == [] then []
    else
      var n := |rules| - 1;
      PortRules(rules[..n], port) + (if ForPort(rules[n], port) then [rules[n]] else [])
  }

  /** The rules left after those handles are deleted. */
  function RemovePort(rules: Chain, port: nat): Chain {
    if rules == [] then []
    else
      var n := |rules| - 1;
      RemovePort(rules[..n], port) + (if ForPort(rules[n], port) then [] else [rules[n]])
  }

  lemma PortStep(rules: Chain, x: Rule, port: nat)
    ensures PortRules(rules + [x], port) ==
            if ForPort(x, port) then PortRules(rules, port) + [x] else PortRules(rules, port)
    ensures RemovePort(rules + [x], port) ==
            if ForPort(x, port) then RemovePort(rules, port) else RemovePort(rules, port) + [x]
  {
    assert (rules + [x])[..|rules|] == rules;
  }

  lemma {:induction false} PortRulesIn(rules: Chain, port: nat)
    ensures forall x :: x in PortRules(rules, port) <==> x in rules && ForPort(x, port)
    ensures forall x :: x in RemovePort(rules, port) <==> x in rules && !ForPort(x, port)
  {
    if rules != [] {
      PortRulesIn(rules[..|rules| - 1], port);
    }
  }

  lemma {:induction false} PortRulesConcat(a: Chain, b: Chain, port: nat)
    ensures PortRules(a + b, port) == PortRules(a, port) + PortRules(b, port)
    ensures RemovePort(a + b, port) == RemovePort(a, port) + RemovePort(b, port)
  {
    if b == [] {
      assert a + b == a;
    } else {
      var n := |b| - 1;
      assert b == b[..n] + [b[n]] && a + b == a + b[..n] + [b[n]];
      PortRulesConcat(a, b[..n], port);
      PortStep(a + b[..n], b[n], port);
      PortStep(b[..n], b[n], port);
    }
  }

  lemma {:induction false} RemoveThenSelect(rules: Chain, gone: nat, port: nat)
    ensures PortRules(RemovePort(rules, gone), port) == if port == gone then [] else PortRules(rules, port)
  {
    if rules != [] {
      var n := |rules| - 1;
      var x := rules[n];
      assert rules == rules[..n] + [x];
      RemoveThenSelect(rules[..n], gone, port);
      PortStep(rules[..n], x, gone);
      PortStep(rules[..n], x, port);
      PortStep(RemovePort(rules[..n], gone), x, port);
    }
  }

  lemma {:induction false} RemoveTwice(rules: Chain, a: nat, b: nat)
    ensures RemovePort(RemovePort(rules, a), b) == RemovePort(RemovePort(rules, b), a)
    ensures RemovePort(RemovePort(rules, a), a) == RemovePort(rules, a)
  {
    if rules != [] {
      var n := |rules| - 1;
      var x := rules[n];
      assert rules == rules[..n] + [x];
      RemoveTwice(rules[..n], a, b);
      PortStep(rules[..n], x, a);
      PortStep(rules[..n], x, b);
      PortStep(RemovePort(rules[..n], a), x, a);
      PortStep(RemovePort(rules[..n], a), x, b);
      PortStep(RemovePort(rules[..n], b), x, a);
    }
  }

  ghost predicate AllFor(rules: Chain, port: nat) {
    forall r :: r in rules ==> ForPort(r, port)
  }

  lemma {:induction false} AllForPort(rules: Chain, port: nat, q: nat)
    requires AllFor(rules, port)
    ensures PortRules(rules, q) == if q == port then rules else []
    ensures RemovePort(rules, q) == if q == port then [] else rules
  {
    if rules != [] {
      var n := |rules| - 1;
      assert rules == rules[..n] + [rules[n]] && rules[n] in rules;
      AllForPort(rules[..n], port, q);
      PortStep(rules[..n], rules[n], q);
    }
  }

  /** Every rule of the chain is about exactly one port. */
  ghost predicate PerPort(rules: Chain) {
    forall r :: r in rules ==> r.dport.Some? && |r.dport.value.ports| == 1
  }

  lemma SkipsForeign(r: Rule, sets: Sets, p: Packet)
    requires r.dport.Some? && |r.dport.value.ports| == 1 && !ForPort(r, p.dport)
    ensures !Matches(r, sets, p)
  {
    var q := r.dport.value.ports;
    assert q == [q[0]];
  }

  /** Of such a chain, a packet only ever meets the rules of its own port. */
  lemma {:induction false} OnlyOwnPort(rules: Chain, sets: Sets, p: Packet)
    requires PerPort(rules)
    ensures Run(rules, [], sets, p) == Run(PortRules(rules, p.dport), [], sets, p)
  {
    hide Matches;
    if rules != [] {
      var n := |rules| - 1;
      var init, x := rules[..n], rules[n];
      assert rules == init + [x] && x in rules;
      OnlyOwnPort(init, sets, p);
      RunConcat(init, [x], [], sets, p);
      PortStep(init, x, p.dport);
      if ForPort(x, p.dport) {
        RunConcat(PortRules(init, p.dport), [x], [], sets, p);
      } else {
        SkipsForeign(x, sets, p);
        assert [x][1..] == [];
      }
    }
  }

  // ---------- a block appended several times ----------

  function Repeat(block: Chain, times: nat): Chain {
    if times == 0 then [] else Repeat(block, times - 1) + block
  }

  lemma {:induction false} RepeatRuns(block: Chain, times: nat, sets: Sets, p: Packet)
    requires times > 0
    ensures Run(Repeat(block, times), [], sets, p) == Run(block, [], sets, p)
  {
    RunConcat(Repeat(block, times - 1), block, [], sets, p);
    if times == 1 {
      assert Repeat(block, 0) + block == block;
    } else {
      RepeatRuns(block, times - 1, sets, p);
    }
  }
}
