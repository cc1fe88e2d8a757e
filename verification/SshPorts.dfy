/**
 SSH across a migration: the base ruleset of the hardening step, the scan of the live input chain
 that decides which ports stay open, and what an installation with those ports lets in.
 */
module SshPorts {
  import opened Wrappers
  import opened Text
  import opened Cidr
  import opened Nft
  import opened Registry
  import opened Policy
  import opened Listing
  import opened Peering

  const GATED: set<int> := {80, 443, 6443}
  const PUNCTUATION: set<char> := {'{', '}', ',', '/', ';'}

  // ---------- the text of a dport rule ----------

  ghost predicate Naturals(ports: seq<int>) { forall p :: p in ports ==> p >= 0 }

  function DecInt(p: int): string { if p >= 0 then Dec(p) else "-" + Dec(-p) }

  function WithCommas(ports: seq<int>): seq<string> {
    if ports == [] then [] else WithCommas(ports[..|ports| - 1]) + [DecInt(ports[|ports| - 1]) + ","]
  }

  /** The blank-separated words of joinPorts. */
  function PortWords(ports: seq<int>): seq<string> {
    if ports == [] then [] else WithCommas(ports[..|ports| - 1]) + [DecInt(ports[|ports| - 1])]
  }

  function SourceWords(src: Source): seq<string> {
    match src
    case Anyone => []
    case InSet(name) => [if SetIsV6(name) then "ip6" else "ip", "saddr", "@set"]
    case FromText(text) => [if Free(text, ':') then "ip" else "ip6", "saddr", Listed(text)]
  }

  /** `tcp dport { 22, 2222 } accept` for an open list, `tcp dport 10250 ip saddr 10.0.0.5/32 accept` for a peer. */
  function RuleWords(r: Rule): seq<string>
    requires r.dport.Some?
  {
    [TransportText(r.dport.value.transport), "dport"] +
    (if r.src.Anyone? then ["{"] + PortWords(r.dport.value.ports) + ["}"] else PortWords(r.dport.value.ports)) +
    SourceWords(r.src) + ["accept"]
  }

  function RuleLine(r: Rule): string
    requires r.dport.Some?
  {
    Join(RuleWords(r), ' ')
  }

  /** The line of an open list, word for word. */
  lemma OpenLine(ports: seq<int>)
    requires ports != []
    ensures RuleLine(OpenTcp(ports)) == "tcp dport { " + Join(PortWords(ports), ' ') + " } accept"
  {
    hide Join, PortWords;
    var w := PortWords(ports);
    assert w != [] by { SomePortWords(ports); }
    JoinFour("tcp", "dport", "{", w, "}", "accept");
    assert RuleWords(OpenTcp(ports)) == ["tcp", "dport", "{"] + w + ["}", "accept"];
    assert "tcp" + " " + "dport" + " " + "{" + " " == "tcp dport { ";
    assert " " + "}" + " " + "accept" == " } accept";
    var text := Join(w, ' ');
    assert "tcp" + " " + "dport" + " " + "{" + " " + text + " " + "}" + " " + "accept"
        == "tcp dport { " + text + " } accept";
  }

  lemma SomePortWords(ports: seq<int>)
    requires ports != []
    ensures PortWords(ports) != []
  {
  }

  /** The line of a peer rule, word for word. */
  lemma PeerLine(q: Peer)
    ensures RuleLine(PeerRule(q)) ==
            (if q.transport.Tcp? then "tcp" else "udp") + " " + "dport" + " " + Dec(q.port) + " " +
            ((if Free(q.text, ':') then "ip" else "ip6") + " " + "saddr") + " " + Listed(q.text) + " " + "accept"
  {
    hide Dec, Listed, Join, DecInt;
    var f := if Free(q.text, ':') then "ip" else "ip6";
    assert PortWords([q.port]) == [Dec(q.port)] by { OnePort(q.port); }
    JoinFour(TransportText(q.transport), "dport", Dec(q.port), [f, "saddr"], Listed(q.text), "accept");
    assert RuleWords(PeerRule(q)) ==
           [TransportText(q.transport), "dport", Dec(q.port)] + [f, "saddr"] + [Listed(q.text), "accept"];
    JoinOne(f);
    JoinSnoc([f], "saddr", ' ');
    assert [f] + ["saddr"] == [f, "saddr"];
  }

  lemma OnePort(port: nat)
    ensures PortWords([port]) == [Dec(port)]
  {
    hide Dec;
    assert [port as int][..0] == [];
    assert WithCommas([]) == [];
  }

  lemma JoinFour(a: string, b: string, c: string, middle: seq<string>, y: string, z: string)
    requires middle != []
    ensures Join([a, b, c] + middle + [y, z], ' ') ==
            a + " " + b + " " + c + " " + Join(middle, ' ') + " " + y + " " + z
  {
    hide Join;
    JoinOne(a);
    JoinSnoc([a], b, ' ');
    JoinSnoc([a] + [b], c, ' ');
    assert [a] + [b] + [c] == [a, b, c];
    JoinBefore([a, b, c], middle);
    var all := [a, b, c] + middle;
    JoinSnoc(all, y, ' ');
    JoinSnoc(all + [y], z, ' ');
    assert all + [y] + [z] == all + [y, z];
  }

  lemma JoinOne(a: string)
    ensures Join([a], ' ') == a
  {
  }

  lemma {:induction false} JoinBefore(head: seq<string>, middle: seq<string>)
    requires head != [] && middle != []
    ensures Join(head + middle, ' ') == Join(head, ' ') + " " + Join(middle, ' ')
  {
    hide Join;
    var n := |middle| - 1;
    assert middle == middle[..n] + [middle[n]];
    if n == 0 {
      JoinOne(middle[0]);
      JoinSnoc(head, middle[0], ' ');
    } else {
      JoinBefore(head, middle[..n]);
      JoinSnoc(middle[..n], middle[n], ' ');
      JoinSnoc(head + middle[..n], middle[n], ' ');
      assert head + middle == head + middle[..n] + [middle[n]];
    }
  }

  // ---------- CurrentSSHPorts ----------

  /** The number a field of the listing is taken for. */
  function SegNumber(seg: string): Option<int> { ScanInt(Trim(seg, PUNCTUATION)) }

  predicate Kept(p: int) { 1 <= p <= 65535 && p !in GATED }

  function SegPorts(segs: seq<string>): set<int> {
    set i | 0 <= i < |segs| && SegNumber(segs[i]).Some? && Kept(SegNumber(segs[i]).value) :: SegNumber(segs[i]).value
  }

  /** What scanning the `grep dport` listing of a chain collects. */
  function ScannedPorts(input: Chain): set<int> {
    if input == [] then {}
    else
      var n := |input| - 1;
      ScannedPorts(input[..n]) + (if input[n].dport.Some? then SegPorts(Fields(RuleLine(input[n]))) else {})
  }

  ghost predicate IsSshList(result: seq<int>, input: Chain, fallback: int) {
    Ascending(result) && forall p :: p in result <==> PortNumber(p) && (p == fallback || p in ScannedPorts(input))
  }

  /** There is one answer only, although the source walks a Go map in no particular order. */
  lemma SshListIsUnique(a: seq<int>, b: seq<int>, input: Chain, fallback: int)
    requires IsSshList(a, input, fallback) && IsSshList(b, input, fallback)
    ensures a == b
  {
    AscendingUnique(a, b);
  }

  method ScanSegments(segs: seq<string>, start: set<int>) returns (ports: set<int>)
    ensures ports == start + SegPorts(segs)
  {
    hide Kept, SegNumber;
    ports := start;
    var i := 0;
    while i < |segs|
      invariant 0 <= i <= |segs|
      invariant ports == start + SegPorts(segs[..i])
    {
      var p := SegNumber(segs[i]);
      assert SegPorts(segs[..i + 1]) == SegPorts(segs[..i]) + (if p.Some? && Kept(p.value) then {p.value} else {}) by {
        SegPortsStep(segs, i);
      }
      if p.Some? && Kept(p.value) {
        ports := ports + {p.value};
      }
      i := i + 1;
    }
    assert segs[..i] == segs;
  }

  lemma SegPortsStep(segs: seq<string>, i: nat)
    requires i < |segs|
    ensures SegPorts(segs[..i + 1]) ==
            SegPorts(segs[..i]) + (if SegNumber(segs[i]).Some? && Kept(SegNumber(segs[i]).value)
              then {SegNumber(segs[i]).value} else {})
  {
    hide Kept, SegNumber;
    var a, b := SegPorts(segs[..i + 1]), SegPorts(segs[..i]);
    assert segs[..i + 1] == segs[..i] + [segs[i]];
    assert forall j :: 0 <= j < i ==> segs[..i + 1][j] == segs[..i][j];
    assert segs[..i + 1][i] == segs[i];
  }

  /** The scan of the listed chain; without a listing there is the fallback port alone, as it was given. */
  method CurrentSSHPorts(listed: bool, input: Chain, fallback: int) returns (result: seq<int>)
    ensures if listed then IsSshList(result, input, fallback) else result == [fallback]
  {
    hide Fields, RuleLine, SegPorts;
    if !listed {
      return [fallback];
    }
    var ports := {fallback};
    var i := 0;
    while i < |input|
      invariant 0 <= i <= |input|
      invariant ports == {fallback} + ScannedPorts(input[..i])
    {
      assert input[..i + 1][..i] == input[..i];
      if input[i].dport.Some? {
        ports := ScanSegments(Fields(RuleLine(input[i])), ports);
      }
      i := i + 1;
    }
    assert input[..i] == input;
    var list := ListSet(ports);
    result := NormalizePorts(list);
    NormalPortsMeaning(list);
  }

  /** Walking the map: every key once, in any order. */
  method ListSet(ports: set<int>) returns (list: seq<int>)
    ensures forall p :: p in list <==> p in ports
  {
    list := [];
    var rest := ports;
    while rest != {}
      invariant rest <= ports
      invariant forall p :: p in list ==> p in ports && p !in rest
      invariant forall p :: p in ports && p !in rest ==> p in list
    {
      if forall p :: p !in rest {
        assert false;
      }
      var p :| p in rest;
      rest := rest - {p};
      list := list + [p];
    }
  }

  // ---------- what the scan reads from a line ----------

  lemma DecTrims(p: nat)
    ensures Trim(Dec(p), PUNCTUATION) == Dec(p) && Trim(Dec(p) + ",", PUNCTUATION) == Dec(p)
    ensures Word(Dec(p)) && Word(Dec(p) + ",")
  {
    hide Dec;
    DecPrints(p);
    DecIsWord(p);
    var d := Dec(p);
    assert IsDigit(d[0]) && IsDigit(d[|d| - 1]);
    TrimKeeps(d, PUNCTUATION);
    assert (d + ",")[..|d + ","| - 1] == d;
    assert TrimRight(d, PUNCTUATION) == d;
  }

  lemma DecSegment(p: nat)
    ensures SegNumber(DecInt(p)) == Some(p) && SegNumber(DecInt(p) + ",") == Some(p)
    ensures Word(DecInt(p)) && Word(DecInt(p) + ",")
  {
    hide Dec, Trim, ScanInt, Word;
    DecTrims(p);
    ScanDec(p, "");
    assert Dec(p) + "" == Dec(p);
  }

  lemma LetterSegment(s: string)
    requires s != "" && !IsDigit(s[0]) && s[0] != '-' && s[0] != '+' && Trimmed(s, PUNCTUATION)
    ensures SegNumber(s) == None
  {
    hide Trim;
    TrimKeeps(s, PUNCTUATION);
  }

  lemma BraceSegments()
    ensures SegNumber("{") == None && SegNumber("}") == None
  {
    assert "{"[1..] == "" && "}"[1..] == "";
  }

  /** The keywords of a rule are never taken for a number. */
  lemma KeywordSegments()
    ensures SegNumber("tcp") == None && SegNumber("udp") == None && SegNumber("dport") == None
            && SegNumber("accept") == None
    ensures SegNumber("{") == None && SegNumber("}") == None && SegNumber("saddr") == None
    ensures SegNumber("ip") == None && SegNumber("ip6") == None
  {
    hide SegNumber;
    BraceSegments();
    LetterSegment("tcp");
    LetterSegment("udp");
    LetterSegment("dport");
    LetterSegment("accept");
    LetterSegment("saddr");
    LetterSegment("ip");
    LetterSegment("ip6");
  }

  ghost predicate Reads(segs: seq<string>, p: int) {
    exists s :: s in segs && SegNumber(s) == Some(p)
  }

  lemma SegPortsMeaning(segs: seq<string>, p: int)
    ensures p in SegPorts(segs) <==> Reads(segs, p) && Kept(p)
  {
    hide SegNumber, Kept;
  }

  lemma ReadsConcat(a: seq<string>, b: seq<string>, p: int)
    ensures Reads(a + b, p) <==> Reads(a, p) || Reads(b, p)
  {
    hide SegNumber;
    assert forall s :: s in a + b <==> s in a || s in b;
  }

  lemma {:induction false} CommasRead(ports: seq<int>, p: int)
    requires Naturals(ports)
    ensures Reads(WithCommas(ports), p) <==> p in ports
    ensures forall w :: w in WithCommas(ports) ==> Word(w)
  {
    hide SegNumber, DecInt, Word;
    if ports != [] {
      var n := |ports| - 1;
      assert ports == ports[..n] + [ports[n]] && ports[n] in ports;
      assert forall x :: x in ports[..n] ==> x in ports;
      CommasRead(ports[..n], p);
      DecSegment(ports[n]);
      ReadsConcat(WithCommas(ports[..n]), [DecInt(ports[n]) + ","], p);
      ReadsOne(DecInt(ports[n]) + ",", p);
    }
  }

  lemma ReadsOne(s: string, p: int)
    ensures Reads([s], p) <==> SegNumber(s) == Some(p)
  {
    hide SegNumber;
    assert s in [s];
  }

  lemma ListReads(ports: seq<int>, p: int)
    requires Naturals(ports)
    ensures Reads(PortWords(ports), p) <==> p in ports
    ensures forall w :: w in PortWords(ports) ==> Word(w)
  {
    hide SegNumber, DecInt, Word, WithCommas;
    if ports != [] {
      var n := |ports| - 1;
      assert ports == ports[..n] + [ports[n]] && ports[n] in ports;
      assert forall x :: x in ports[..n] ==> x in ports;
      CommasRead(ports[..n], p);
      DecSegment(ports[n]);
      ReadsConcat(WithCommas(ports[..n]), [DecInt(ports[n])], p);
      ReadsOne(DecInt(ports[n]), p);
    }
  }

  /** A dport rule as the tool writes it. */
  ghost predicate Printable(r: Rule) {
    && r.dport.Some? && Naturals(r.dport.value.ports)
    && (r.src.FromText? ==> Word(r.src.text)) && !r.src.InSet?
  }

  lemma KeywordWords()
    ensures Word("tcp") && Word("udp") && Word("dport") && Word("accept") && Word("{") && Word("}") && Word("saddr")
            && Word("ip") && Word("ip6")
  {
  }

  lemma FrameReads(head: string, middle: seq<string>, p: int)
    requires SegNumber(head) == None
    ensures Reads([head, "dport"] + middle + ["accept"], p) <==> Reads(middle, p)
  {
    hide SegNumber, Reads;
    KeywordSegments();
    assert [head, "dport"] == [head] + ["dport"];
    ReadsConcat([head], ["dport"], p);
    ReadsConcat([head, "dport"], middle, p);
    ReadsConcat([head, "dport"] + middle, ["accept"], p);
    ReadsOne(head, p);
    ReadsOne("dport", p);
    ReadsOne("accept", p);
  }

  lemma BracesRead(ports: seq<int>, p: int)
    requires Naturals(ports)
    ensures Reads(["{"] + PortWords(ports) + ["}"], p) <==> p in ports
    ensures forall w :: w in ["{"] + PortWords(ports) + ["}"] ==> Word(w)
  {
    hide SegNumber, Reads, Word, PortWords;
    KeywordSegments();
    KeywordWords();
    ListReads(ports, p);
    ReadsConcat(["{"], PortWords(ports), p);
    ReadsConcat(["{"] + PortWords(ports), ["}"], p);
    ReadsOne("{", p);
    ReadsOne("}", p);
  }

  lemma SourceRead(ports: seq<int>, text: string, p: int)
    requires Naturals(ports) && Word(text)
    ensures Reads(PortWords(ports) + SourceWords(FromText(text)), p)
            <==> p in ports || SegNumber(Listed(text)) == Some(p)
    ensures forall w :: w in PortWords(ports) + SourceWords(FromText(text)) ==> Word(w)
  {
    hide SegNumber, Reads, Word, PortWords, Listed;
    var shown := Listed(text);
    ListedIsWord(text);
    KeywordSegments();
    KeywordWords();
    ListReads(ports, p);
    var f := if Free(text, ':') then "ip" else "ip6";
    assert SourceWords(FromText(text)) == [f] + ["saddr"] + [shown];
    ReadsConcat([f], ["saddr"], p);
    ReadsConcat([f] + ["saddr"], [shown], p);
    ReadsConcat(PortWords(ports), SourceWords(FromText(text)), p);
    ReadsOne(f, p);
    ReadsOne("saddr", p);
    ReadsOne(shown, p);
  }

  /** A rule's line is read as exactly its ports, and, for a peer rule, the leading number of its source text. */
  lemma LineRead(r: Rule, p: int)
    requires Printable(r)
    ensures Reads(Fields(RuleLine(r)), p)
            <==> p in r.dport.value.ports || (r.src.FromText? && SegNumber(Listed(r.src.text)) == Some(p))
  {
    hide SegNumber, Reads, Word, PortWords, Fields, Join, SourceWords, Listed;
    var t, ports := TransportText(r.dport.value.transport), r.dport.value.ports;
    KeywordSegments();
    KeywordWords();
    var middle := if r.src.Anyone? then ["{"] + PortWords(ports) + ["}"] else PortWords(ports) + SourceWords(r.src);
    if r.src.Anyone? {
      BracesRead(ports, p);
      assert SourceWords(Anyone) == [] by { NoSourceWords(); }
      assert ["{"] + PortWords(ports) + ["}"] + [] == ["{"] + PortWords(ports) + ["}"];
    } else {
      SourceRead(ports, r.src.text, p);
    }
    assert RuleWords(r) == [t, "dport"] + middle + ["accept"];
    FrameReads(t, middle, p);
    FieldsOfJoin(RuleWords(r));
  }

  lemma NoSourceWords()
    ensures SourceWords(Anyone) == []
  {
  }

  ghost predicate PrintableChain(input: Chain) {
    forall r :: r in input && r.dport.Some? ==> Printable(r)
  }

  /** A number the listing shows. */
  ghost predicate Shown(input: Chain, p: int) {
    exists r ::
      r in input && r.dport.Some?
      && (p in r.dport.value.ports || (r.src.FromText? && SegNumber(Listed(r.src.text)) == Some(p)))
  }

  lemma {:induction false} ScanMeaning(input: Chain, p: int)
    requires PrintableChain(input)
    ensures p in ScannedPorts(input) <==> Shown(input, p) && Kept(p)
  {
    hide SegNumber, Kept, Printable, SegPorts, Fields, RuleLine, Reads;
    if input != [] {
      var n := |input| - 1;
      var r := input[n];
      assert input == input[..n] + [r] && r in input;
      ScanMeaning(input[..n], p);
      if r.dport.Some? {
        LineRead(r, p);
        SegPortsMeaning(Fields(RuleLine(r)), p);
      }
      assert forall x :: x in input <==> x in input[..n] || x == r;
    }
  }

  /** The exact answer for any printed chain: the fallback port, and every shown number that is a port and not gated. */
  lemma CurrentPortsExactly(result: seq<int>, input: Chain, fallback: int)
    requires PrintableChain(input) && IsSshList(result, input, fallback)
    ensures forall p :: p in result <==>
              1 <= p <= 65535 && (p == fallback || (Shown(input, p) && p != 80 && p != 443 && p != 6443))
  {
    hide Shown, Printable, ScannedPorts;
    forall p ensures p in ScannedPorts(input) <==> Shown(input, p) && Kept(p) {
      ScanMeaning(input, p);
    }
  }

  // ---------- the base ruleset ----------

  predicate Migrates(sshPort: int) { sshPort > 0 && sshPort != 22 }

  function BasePorts(sshPort: int, monitor: bool): seq<int> {
    [22] + (if Migrates(sshPort) then [sshPort] else []) + [80, 443, 6443] + (if monitor then [9100] else [])
  }

  /** 22, the migrated port, the web and API ports, and 9100 with the monitor. */
  lemma BasePortsAre(sshPort: int, monitor: bool, p: int)
    ensures p in BasePorts(sshPort, monitor) <==>
            p in {22, 80, 443, 6443} || (sshPort > 0 && p == sshPort) || (monitor && p == 9100)
  {
  }

  /**
   The freshly hardened table: loopback, established, the base ports over TCP from anywhere, and icmp; it forwards all.
   */
  lemma BaseTableAllows(sshPort: int, monitor: bool, sets: Sets, p: Packet)
    ensures LetsIn(INPUT_HEAD + [OpenTcp(BasePorts(sshPort, monitor))] + ICMP_RULES, [], sets, p) <==>
            p.lo || p.established || (p.proto == L4(Tcp) && p.dport in BasePorts(sshPort, monitor)) || IcmpPacket(p)
    ensures LetsIn(BASE_FORWARD, [], sets, p)
  {
    hide Matches, SomeAccept, BasePorts;
    var ports := BasePorts(sshPort, monitor);
    HeadMeaning(sets, p);
    IcmpMeaning(sets, p);
    OpenTcpMatches(ports, sets, p);
    SingleAccept(OpenTcp(ports), sets, p);
    SomeAcceptConcat(INPUT_HEAD, [OpenTcp(ports)], sets, p);
    SomeAcceptConcat(INPUT_HEAD + [OpenTcp(ports)], ICMP_RULES, sets, p);
    AcceptsOnly(INPUT_HEAD + [OpenTcp(ports)] + ICMP_RULES, [], sets, p);
    ForwardsAll(sets, p);
  }

  lemma ForwardsAll(sets: Sets, p: Packet)
    ensures LetsIn(BASE_FORWARD, [], sets, p)
  {
  }

  /** joinPorts. */
  function ListText(ports: seq<int>): string { Join(PortWords(ports), ' ') }

  lemma {:induction false} CommasThenWord(ports: seq<int>, last: string)
    ensures Join(WithCommas(ports) + [last], ' ') ==
            if ports == [] then last else Join(WithCommas(ports), ' ') + " " + last
  {
    if ports != [] {
      JoinSnoc(WithCommas(ports), last, ' ');
    }
  }

  lemma ListSnoc(ports: seq<int>, p: int)
    ensures ListText(ports + [p]) == if ports == [] then DecInt(p) else ListText(ports) + ", " + DecInt(p)
  {
    hide DecInt, Join;
    assert (ports + [p])[..|ports|] == ports;
    CommasThenWord(ports, DecInt(p));
    if ports != [] {
      var n := |ports| - 1;
      CommasThenWord(ports[..n], DecInt(ports[n]));
      CommasThenWord(ports[..n], DecInt(ports[n]) + ",");
      assert WithCommas(ports) == WithCommas(ports[..n]) + [DecInt(ports[n]) + ","];
    } else {
      assert ListText([p]) == Join(WithCommas([]) + [DecInt(p)], ' ');
    }
  }

  lemma KnownNumbers()
    ensures DecInt(22) == "22" && DecInt(80) == "80" && DecInt(443) == "443" && DecInt(6443) == "6443"
            && DecInt(9100) == "9100"
  {
    assert Dec(644) == "644" by { assert Dec(64) == "64"; }
    assert Dec(910) == "910" by { assert Dec(91) == "91"; }
    assert Dec(44) == "44";
  }

  lemma GatedTail(head: seq<int>)
    requires head != []
    ensures ListText(head + [80, 443, 6443]) == ListText(head) + ", 80, 443, 6443"
  {
    hide ListText, DecInt;
    KnownNumbers();
    ListSnoc(head, 80);
    ListSnoc(head + [80], 443);
    ListSnoc(head + [80] + [443], 6443);
    assert head + [80] + [443] + [6443] == head + [80, 443, 6443];
  }

  /** The port list of the base table, whatever head it starts with. */
  lemma BaseText(head: seq<int>, text: string, monitor: bool)
    requires head != [] && ListText(head) == text
    ensures ListText(head + [80, 443, 6443] + (if monitor then [9100] else [])) ==
            text + ", 80, 443, 6443" + (if monitor then ", 9100" else "")
  {
    hide ListText, DecInt;
    GatedTail(head);
    if monitor {
      KnownNumbers();
      ListSnoc(head + [80, 443, 6443], 9100);
      assert text + ", 80, 443, 6443" + ", " + "9100" == text + ", 80, 443, 6443" + ", 9100";
    } else {
      assert head + [80, 443, 6443] + [] == head + [80, 443, 6443];
      assert text + ", 80, 443, 6443" + "" == text + ", 80, 443, 6443";
    }
  }

  lemma HeadText(sshPort: int)
    ensures ListText([22]) == "22" && ListText([22, sshPort]) == "22, " + DecInt(sshPort)
  {
    hide ListText, DecInt;
    KnownNumbers();
    ListSnoc([], 22);
    ListSnoc([22], sshPort);
    assert [] + [22] == [22] && [22] + [sshPort] == [22, sshPort];
    assert "22" + ", " == "22, ";
  }

  /** nftablesFirewall: the port string, reassigned step by step, and the table it overwrites. */
  method NftablesFirewall(sshPort: int, monitor: bool) returns (openPorts: string, input: Chain, forward: Chain)
    ensures openPorts == ListText(BasePorts(sshPort, monitor))
    ensures input == INPUT_HEAD + [OpenTcp(BasePorts(sshPort, monitor))] + ICMP_RULES && forward == BASE_FORWARD
  {
    hide ListText, DecInt;
    openPorts := "22, 80, 443, 6443";
    if monitor {
      openPorts := "22, 80, 443, 6443, 9100";
    }
    if Migrates(sshPort) {
      openPorts := "22, " + DecInt(sshPort) + ", 80, 443, 6443";
      if monitor {
        openPorts := openPorts + ", 9100";
      }
    }
    HeadText(sshPort);
    if Migrates(sshPort) {
      BaseText([22, sshPort], "22, " + DecInt(sshPort), monitor);
      assert BasePorts(sshPort, monitor) == [22, sshPort] + [80, 443, 6443] + (if monitor then [9100] else []);
    } else {
      BaseText([22], "22", monitor);
      assert BasePorts(sshPort, monitor) == [22] + [80, 443, 6443] + (if monitor then [9100] else []);
    }
    input := INPUT_HEAD + [OpenTcp(BasePorts(sshPort, monitor))] + ICMP_RULES;
    forward := BASE_FORWARD;
  }

  // ---------- survival ----------

  /** A port the new configuration lists is open to every source that no exposure drops. */
  lemma ListedPortIsOpen(cfg: Config, exposed: Chain, sets: Sets, p: Packet)
    requires cfg.profile.NormalProfile? && p.proto == L4(Tcp) && p.dport in cfg.sshPorts && PortNumber(p.dport)
    requires !Run(exposed, [], sets, p).Dropped?
    ensures LetsIn(RenderInput(cfg), exposed, sets, p)
  {
    hide RenderInput, Run;
    InputAlone(cfg, exposed, sets, p);
    assert Ssh(cfg, p);
  }

  /** Installing Normal over any printed chain keeps every open port that is not gated reachable from everywhere. */
  lemma SshSurvivesMigration(live: Chain, fallback: int, cfg: Config, exposed: Chain, sets: Sets, p: Packet)
    requires PrintableChain(live) && IsSshList(cfg.sshPorts, live, fallback) && cfg.profile.NormalProfile?
    requires p.proto == L4(Tcp) && PortNumber(p.dport)
    requires p.dport == fallback
             || (p.dport !in GATED && exists r :: r in live && r.dport.Some? && p.dport in r.dport.value.ports)
    requires !Run(exposed, [], sets, p).Dropped?
    ensures LetsIn(RenderInput(cfg), exposed, sets, p)
  {
    hide RenderInput, Run, IsSshList, Printable;
    CurrentPortsExactly(cfg.sshPorts, live, fallback);
    ListedPortIsOpen(cfg, exposed, sets, p);
  }

  /** The hardening step's own ports, the migrated SSH port and the monitor port included, survive. */
  lemma BasePortsSurvive(sshPort: int, monitor: bool, fallback: int, cfg: Config, sets: Sets, p: Packet)
    requires IsSshList(cfg.sshPorts, INPUT_HEAD + [OpenTcp(BasePorts(sshPort, monitor))] + ICMP_RULES, fallback)
    requires cfg.profile.NormalProfile? && p.proto == L4(Tcp) && PortNumber(p.dport) && p.dport !in GATED
    requires p.dport in BasePorts(sshPort, monitor)
    ensures LetsIn(RenderInput(cfg), [], sets, p)
  {
    hide RenderInput, IsSshList;
    var r := OpenTcp(BasePorts(sshPort, monitor));
    var live := INPUT_HEAD + [r] + ICMP_RULES;
    assert r in live;
    assert Printable(r);
    SshSurvivesMigration(live, fallback, cfg, [], sets, p);
  }

  lemma RenderedShows(cfg: Config, p: int)
    requires cfg.profile.NormalProfile?
    ensures PrintableChain(RenderInput(cfg))
    ensures Shown(RenderInput(cfg), p) <==> p in SshList(cfg) || (cfg.openWeb && p in [80, 443])
  {
    hide SshList;
    var ssh, web := OpenTcp(SshList(cfg)), OpenTcp([80, 443]);
    assert ssh in SshRules(cfg);
    assert ssh in RenderInput(cfg);
    assert cfg.openWeb ==> web in WebRules(cfg);
    assert cfg.openWeb ==> web in RenderInput(cfg);
    forall r | r in RenderInput(cfg) && r.dport.Some? ensures r == ssh || (cfg.openWeb && r == web) {
    }
    SshListNatural(cfg);
  }

  lemma SshListNatural(cfg: Config)
    ensures Naturals(SshList(cfg))
  {
    NormalPortsMeaning(cfg.sshPorts);
  }

  lemma {:induction false} NormalOfNormal(list: seq<int>)
    requires Ascending(list) && forall p :: p in list ==> PortNumber(p)
    ensures NormalPorts(list) == list
  {
    NormalPortsMeaning(list);
    AscendingUnique(NormalPorts(list), list);
  }

  /** A reinstall over a rendered Normal chain without peers asks for the same ports again. */
  lemma ReinstallIsFixedPoint(cfg: Config, fallback: int, live: Chain, again: seq<int>)
    requires PrintableChain(live) && IsSshList(cfg.sshPorts, live, fallback) && PortNumber(fallback)
    requires cfg.profile.NormalProfile? && IsSshList(again, RenderInput(cfg), fallback)
    ensures again == cfg.sshPorts
  {
    hide RenderInput, Shown, Printable, ScannedPorts, SshList;
    CurrentPortsExactly(cfg.sshPorts, live, fallback);
    assert fallback in cfg.sshPorts;
    NormalOfNormal(cfg.sshPorts);
    ListIsPorts(cfg);
    forall p ensures Shown(RenderInput(cfg), p) <==> p in cfg.sshPorts || (cfg.openWeb && p in [80, 443]) {
      RenderedShows(cfg, p);
    }
    RenderedShows(cfg, 0);
    CurrentPortsExactly(again, RenderInput(cfg), fallback);
    AscendingUnique(again, cfg.sshPorts);
  }

  lemma ListIsPorts(cfg: Config)
    requires NormalPorts(cfg.sshPorts) == cfg.sshPorts && cfg.sshPorts != []
    ensures SshList(cfg) == cfg.sshPorts
  {
  }

  // ---------- with peer rules in the chain ----------

  lemma {:induction false} PeersShow(peers: seq<Peer>, p: int)
    ensures Shown(PeerRules(peers), p)
            <==> exists q :: q in peers && (p == q.port || SegNumber(Listed(q.text)) == Some(p))
    ensures (forall q :: q in peers ==> Word(q.text)) ==> PrintableChain(PeerRules(peers))
  {
    hide SegNumber, Word, Listed;
    if peers != [] {
      var n := |peers| - 1;
      var q := peers[n];
      assert peers == peers[..n] + [q] && q in peers;
      PeersShow(peers[..n], p);
      assert PeerRules(peers) == PeerRules(peers[..n]) + [PeerRule(q)];
      assert forall r :: r in PeerRules(peers) <==> r in PeerRules(peers[..n]) || r == PeerRule(q);
      assert p in PeerRule(q).dport.value.ports <==> p == q.port;
    }
  }

  lemma ShownConcat(a: Chain, b: Chain, p: int)
    ensures Shown(a + b, p) <==> Shown(a, p) || Shown(b, p)
    ensures PrintableChain(a) && PrintableChain(b) ==> PrintableChain(a + b)
  {
    hide SegNumber, Printable, Listed;
    assert forall r :: r in a + b <==> r in a || r in b;
  }

  lemma KeptIs(p: int)
    ensures Kept(p) <==> 1 <= p <= 65535 && p != 80 && p != 443 && p != 6443
  {
  }

  /**
   Peer rules leave the answer alone if and only if all their ports and leading source numbers are already listed or not
   eligible.
   */
  lemma PeersChangeAnswer(cfg: Config, peers: seq<Peer>, fallback: int, plain: seq<int>, scanned: seq<int>)
    requires cfg.profile.NormalProfile? && forall q :: q in peers ==> Word(q.text)
    requires IsSshList(plain, RenderInput(cfg), fallback)
    requires IsSshList(scanned, RenderInput(cfg) + PeerRules(peers), fallback)
    ensures scanned == plain <==>
            forall q, p :: q in peers && (p == q.port || SegNumber(Listed(q.text)) == Some(p)) && Kept(p) ==> p in plain
  {
    hide RenderInput, Shown, PrintableChain, ScannedPorts, Word, SegNumber, SshList, Kept, Listed;
    forall p ensures Kept(p) <==> 1 <= p <= 65535 && p != 80 && p != 443 && p != 6443 {
      KeptIs(p);
    }
    RenderedShows(cfg, 0);
    PeersShow(peers, 0);
    ShownConcat(RenderInput(cfg), PeerRules(peers), 0);
    CurrentPortsExactly(plain, RenderInput(cfg), fallback);
    CurrentPortsExactly(scanned, RenderInput(cfg) + PeerRules(peers), fallback);
    forall p
      ensures Shown(RenderInput(cfg) + PeerRules(peers), p) <==>
              Shown(RenderInput(cfg), p)
                || exists q :: q in peers && (p == q.port || SegNumber(Listed(q.text)) == Some(p))
    {
      PeersShow(peers, p);
      ShownConcat(RenderInput(cfg), PeerRules(peers), p);
    }
    if forall q, p :: q in peers && (p == q.port || SegNumber(Listed(q.text)) == Some(p)) && Kept(p) ==> p in plain {
      AscendingUnique(scanned, plain);
    }
  }

  /** A concrete change: with a kubelet peer rule in the chain, a Normal reinstall opens 10250 to every source. */
  lemma KubeletBecomesPublic(cfg: Config, text: string, fallback: int, next: Config, sets: Sets, p: Packet)
    requires cfg.profile.NormalProfile? && next.profile.NormalProfile? && Word(text)
    requires IsSshList(next.sshPorts, RenderInput(cfg) + PeerRules([Peer(10250, Tcp, text)]), fallback)
    requires p.proto == L4(Tcp) && p.dport == 10250
    ensures LetsIn(RenderInput(next), [], sets, p)
  {
    hide RenderInput, IsSshList, Word, SegNumber, SshList, Shown;
    var peers := [Peer(10250, Tcp, text)];
    var live := RenderInput(cfg) + PeerRules(peers);
    var q := Peer(10250, Tcp, text);
    RenderedShows(cfg, 0);
    PeersShow(peers, 10250);
    ShownConcat(RenderInput(cfg), PeerRules(peers), 10250);
    assert q in peers;
    CurrentPortsExactly(next.sshPorts, live, fallback);
    ListedPortIsOpen(next, [], sets, p);
  }
}
