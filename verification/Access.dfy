/**
 Who gets in, said with texts and addresses: the providers a refresh accepted, the operators an installation was given,
 and the sources an exposure names.
 */
module Access {
  import opened Wrappers
  import opened Text
  import opened Cidr
  import opened Nft
  import opened Registry
  import opened Policy
  import opened State
  import opened Refreshing
  import opened Minimum
  import opened Ipv6
  import opened Runs
  import opened Theorems
  import opened Rollback

  // ---------- elements of the live sets ----------

  /** The set's family, by its name. */
  function NameIsV6(name: SetName): bool {
    match name
    case Allow4 => false
    case Allow6 => true
    case Admin4 => false
    case Admin6 => true
  }

  lemma ElementHolds(sets: Sets, name: SetName, t: string, a: Addr)
    requires name in sets && t in sets[name] && Denotes(t, a) && Meaning(t).value.v6 == NameIsV6(name)
    ensures SetHolds(sets, name, a)
  {
  }

  /** Whatever element of whichever set denotes the source: the rendered chains let the packet through. */
  lemma ElementGetsIn(cfg: Config, peers: seq<Peer>, exposed: Chain, sets: Sets, name: SetName, t: string, p: Packet)
    requires name in sets && t in sets[name] && Denotes(t, p.src) && Meaning(t).value.v6 == NameIsV6(name)
    requires !Run(exposed, [], sets, p).Dropped?
    ensures LetsIn(RenderInput(cfg) + PeerRules(peers), exposed, sets, p)
            && LetsIn(RenderForward(cfg), exposed, sets, p)
  {
    hide Denotes, Run, LetsIn, RenderInput, RenderForward, SetHolds;
    ElementHolds(sets, name, t, p.src);
    InputImplementsPolicy(cfg, peers, exposed, sets, p);
    ForwardImplementsPolicy(cfg, exposed, sets, p);
    assert InAnySet(sets, p);
  }

  /** No element of any set denotes the address. */
  ghost predicate Stranger(sets: Sets, a: Addr) {
    forall name, t :: name in sets && t in sets[name] ==> !Denotes(t, a)
  }

  /** Plain traffic to a port that neither the web switch nor, under Normal, the SSH list opens. */
  ghost predicate Closed(cfg: Config, p: Packet) {
    && !p.lo && !p.established && p.proto != IcmpV4 && p.proto != IcmpV6
    && (cfg.openWeb ==> p.proto != L4(Tcp) || (p.dport != 80 && p.dport != 443))
    && (cfg.profile.NormalProfile? ==>
          p.proto != L4(Tcp)
            || (p.dport !in cfg.sshPorts && (p.dport != 22 || exists q :: q in cfg.sshPorts && 0 < q <= 65535)))
  }

  /**
   A stranger stays out of every closed port that no exposure accepts, and is forwarded only from a private network.
   */
  lemma StrangerStaysOut(cfg: Config, exposed: Chain, sets: Sets, p: Packet)
    requires Stranger(sets, p.src) && Closed(cfg, p) && !Run(exposed, [], sets, p).Accepted?
    ensures !LetsIn(RenderInput(cfg), exposed, sets, p)
    ensures LetsIn(RenderForward(cfg), exposed, sets, p) ==> Lan(p)
  {
    hide Denotes, Run, LetsIn, RenderInput, RenderForward, Lan;
    assert RenderInput(cfg) + PeerRules([]) == RenderInput(cfg);
    InputImplementsPolicy(cfg, [], exposed, sets, p);
    ForwardImplementsPolicy(cfg, exposed, sets, p);
  }

  // ---------- the private networks ----------

  lemma NetIsRange(text: string, bits: nat, len: nat, a: Addr)
    requires bits < 0x1_0000_0000 && len <= 32 && text == Print4(bits, Some(len))
    ensures var size := Pow2(32 - len);
            Denotes(text, a) <==> !a.v6 && Cleared(bits, size) <= a.bits < Cleared(bits, size) + size
  {
    hide Print4, Denotes, Pow2, Cidr4, Cleared;
    PrintedIsAccepted(bits, Some(len));
    DenotesRange(text, a.bits);
    assert a == Addr(a.v6, a.bits);
  }

  lemma QuadText4(a: nat, b: nat, c: nat, d: nat)
    requires a <= 255 && b <= 255 && c <= 255 && d <= 255
    ensures Quad(a, b, c, d) < 0x1_0000_0000 && PrintQuad(Quad(a, b, c, d)) == Dotted(Dec(a), Dec(b), Dec(c), Dec(d))
  {
    hide Dec, Quad, Dotted;
    QuadDigits(a, b, c, d);
  }

  lemma SmallDecs()
    ensures Dec(0) == "0" && Dec(8) == "8" && Dec(10) == "10" && Dec(12) == "12" && Dec(16) == "16"
    ensures Dec(168) == "168" && Dec(172) == "172" && Dec(192) == "192"
  {
    assert Dec(1) == "1" && Dec(16) == Dec(1) + "6" && Dec(17) == Dec(1) + "7" && Dec(19) == Dec(1) + "9";
    assert Dec(168) == Dec(16) + "8" && Dec(172) == Dec(17) + "2" && Dec(192) == Dec(19) + "2";
  }

  lemma NetText(a: nat, b: nat, len: nat)
    requires a <= 255 && b <= 255 && len <= 32
    ensures Quad(a, b, 0, 0) < 0x1_0000_0000
    ensures Print4(Quad(a, b, 0, 0), Some(len)) == Dotted(Dec(a), Dec(b), "0", "0") + "/" + Dec(len)
  {
    hide Dec, Quad, PrintQuad, Dotted;
    QuadText4(a, b, 0, 0);
    SmallDecs();
  }

  lemma LanTexts()
    ensures "10.0.0.0/8" == Print4(0x0A00_0000, Some(8))
    ensures "172.16.0.0/12" == Print4(0xAC10_0000, Some(12))
    ensures "192.168.0.0/16" == Print4(0xC0A8_0000, Some(16))
  {
    hide Dec, PrintQuad, Print4;
    SmallDecs();
    NetText(10, 0, 8);
    NetText(172, 16, 12);
    NetText(192, 168, 16);
    assert "10.0.0.0/8" == Dotted("10", "0", "0", "0") + "/" + "8";
    assert "172.16.0.0/12" == Dotted("172", "16", "0", "0") + "/" + "12";
    assert "192.168.0.0/16" == Dotted("192", "168", "0", "0") + "/" + "16";
    assert Quad(10, 0, 0, 0) == 0x0A00_0000 && Quad(172, 16, 0, 0) == 0xAC10_0000
      && Quad(192, 168, 0, 0) == 0xC0A8_0000;
  }

  /** The private networks the forward chain accepts are 10/8, 172.16/12 and 192.168/16 and nothing else. */
  lemma LanIsPrivate(p: Packet)
    ensures Lan(p) <==> !p.src.v6 && (0x0A00_0000 <= p.src.bits < 0x0B00_0000
                                      || 0xAC10_0000 <= p.src.bits < 0xAC20_0000
                                      || 0xC0A8_0000 <= p.src.bits < 0xC0A9_0000)
  {
    hide Print4, Denotes, Pow2;
    LanTexts();
    KnownPowers();
    NetIsRange("10.0.0.0/8", 0x0A00_0000, 8, p.src);
    NetIsRange("172.16.0.0/12", 0xAC10_0000, 12, p.src);
    NetIsRange("192.168.0.0/16", 0xC0A8_0000, 16, p.src);
  }

  // ---------- providers ----------

  lemma {:induction false} SomeColon(t: string)
    requires Colons(t) > 0
    ensures !Free(t, ':')
  {
    if t[|t| - 1] != ':' {
      SomeColon(t[..|t| - 1]);
      assert forall c :: c in t[..|t| - 1] ==> c in t;
    }
  }

  lemma Taken6IsWord(t: string)
    requires Cidr6(t)
    ensures Word(t)
  {
    hide V6Char;
    var p := Split(t, '/');
    JoinSplit(t, '/');
    forall i | 0 <= i < |p| ensures NoSpace(p[i]) {
      if i == 0 {
        V6CharsNoSpace(p[0]);
      }
    }
    assert t != "";
    PiecesNoSpace(p, t);
  }

  lemma V6CharsNoSpace(s: string)
    requires forall i :: 0 <= i < |s| ==> V6Char(s[i])
    ensures NoSpace(s)
  {
  }

  lemma PiecesNoSpace(p: seq<string>, t: string)
    requires p == Split(t, '/') && (|p| == 1 || |p| == 2) && forall i :: 0 <= i < |p| ==> NoSpace(p[i])
    ensures NoSpace(t)
  {
    JoinSplit(t, '/');
    if |p| == 2 {
      TwoParts(t);
    } else {
      assert p[0] == t;
    }
  }

  /** What a refresh takes for one family is of that family, if it denotes anything. */
  lemma TakenFamily(text: string, t: string)
    ensures t in Accepted4(text) && Meaning(t).Some? ==> !Meaning(t).value.v6
    ensures t in Accepted6(text) && Meaning(t).Some? ==> Meaning(t).value.v6
  {
    hide Meaning, Cidr4, Cidr6, Fields, NormalizeCIDR, Print4;
    if t in Accepted4(text) {
      var bits, len := AcceptedIsPrinted(t);
      PrintedIsAccepted(bits, len);
    }
    if t in Accepted6(text) && Meaning(t).Some? {
      SomeColon(t);
      Taken6IsWord(t);
      TrimKeeps(t, SPACES);
      FamilyByColon(t);
      ColonsKept(t);
    }
  }

  lemma ColonsKept(t: string)
    requires TrimSpace(t) == t && !Free(t, ':')
    ensures !Free(NormalizeCIDR(t), ':')
  {
    hide Trim;
    assert forall c :: c in t ==> c in NormalizeCIDR(t);
  }

  /**
   A provider's packet gets in: with the provider sets in place, four or more texts taken and nft accepting the batch,
   every source that a taken text denotes is let in and forwarded, unless an exposure drops the packet.
   */
  lemma ProviderGetsIn(s: Node, cfg: Config, peers: seq<Peer>, text: string, now: int, t: string, p: Packet)
    requires s.input == RenderInput(cfg) + PeerRules(peers) && s.forward == RenderForward(cfg)
    requires Allow4 in s.sets && Allow6 in s.sets && |Accepted4(text)| + |Accepted6(text)| >= 4
    requires t in Accepted4(text) + Accepted6(text) && Denotes(t, p.src)
    requires var u := Refresh(s, text, true, now); !Run(u.exposed, [], u.sets, p).Dropped?
    ensures var u := Refresh(s, text, true, now); InputLetsIn(u, p) && ForwardLetsIn(u, p)
  {
    hide Denotes, Run, LetsIn, RenderInput, RenderForward, Accepted4, Accepted6, Refresh, PeerRules, SetHolds;
    var u := Refresh(s, text, true, now);
    RefreshIsAllOrNothing(s, text, true, now);
    TakenFamily(text, t);
    assert Meaning(t).Some? by { DenotesMeans(t, p.src); }
    ElementGetsIn(cfg, peers, u.exposed, u.sets, if t in Accepted4(text) then Allow4 else Allow6, t, p);
  }

  lemma DenotesMeans(t: string, a: Addr)
    requires Denotes(t, a)
    ensures Meaning(t).Some? && Meaning(t).value.v6 == a.v6
  {
  }

  // ---------- fetched lists ----------

  /** A prefix as a provider publishes it. */
  datatype Published = V4(bits: nat, len: nat) | V6(bits: nat, len: nat)

  predicate Proper(q: Published) {
    match q case V4(bits, len) => bits < 0x1_0000_0000 && len <= 32 case V6(bits, len) => bits < BOUND && len <= 128
  }

  function Line(q: Published): string
    requires Proper(q)
  {
    match q case V4(bits, len) => Print4(bits, Some(len)) case V6(bits, len) => PrintV6Prefix(bits, len)
  }

  function Lines(list: seq<Published>): (lines: seq<string>)
    requires forall q :: q in list ==> Proper(q)
    ensures |lines| == |list|
  {
    if list == [] then [] else Lines(list[..|list| - 1]) + [Line(list[|list| - 1])]
  }

  lemma LineTaken(q: Published)
    requires Proper(q)
    ensures Word(Line(q)) && (q.V4? ==> !ColonShape(Line(q)) && Cidr4(Line(q)))
            && (q.V6? ==> ColonShape(Line(q)) && Cidr6(Line(q)))
    ensures Meaning(Line(q)) == Some(Prefix(q.V6?, q.bits, q.len))
  {
    hide Print4, PrintV6Prefix, Cidr4, Cidr6, ColonShape, Meaning, Word;
    match q {
      case V4(bits, len) =>
        PrintedTaken(bits, Some(len));
        PrintedIsAccepted(bits, Some(len));
      case V6(bits, len) =>
        V6Taken(bits, len);
        V6PrefixDenotes(bits, len);
    }
  }

  lemma {:induction false} LinesIn(list: seq<Published>, i: nat)
    requires (forall q :: q in list ==> Proper(q)) && i < |list|
    ensures Lines(list)[i] == Line(list[i])
  {
    hide Line;
    if i < |list| - 1 {
      LinesIn(list[..|list| - 1], i);
    }
  }

  /** One prefix a line, of either family, with masks: each line is taken, for its own family. */
  lemma PublishedIsTaken(list: seq<Published>, i: nat)
    requires (forall q :: q in list ==> Proper(q)) && i < |list|
    ensures var text := Join(Lines(list), '\n');
            if list[i].V4? then Line(list[i]) in Accepted4(text) else Line(list[i]) in Accepted6(text)
  {
    hide Line, Cidr4, Cidr6, ColonShape, Fields, Lines, Word, Join;
    forall w | w in Lines(list) ensures Word(w) {
      var k :| 0 <= k < |list| && Lines(list)[k] == w;
      LinesIn(list, k);
      LineTaken(list[k]);
    }
    FieldsOfLines(Lines(list));
    LinesIn(list, i);
    LineTaken(list[i]);
  }

  function FreeBits(q: Published): nat
    requires Proper(q)
  {
    match q case V4(_, len) => 32 - len case V6(_, len) => 128 - len
  }

  /** The addresses a published prefix covers: its block, of its family. */
  predicate Covers(q: Published, a: Addr)
    requires Proper(q)
  {
    var size := Pow2(FreeBits(q));
    var first := Cleared(q.bits, size);
    a.v6 == q.V6? && first <= a.bits < first + size
  }

  lemma LineDenotes(q: Published, a: Addr)
    requires Proper(q) && Covers(q, a)
    ensures Denotes(Line(q), a)
  {
    hide Denotes, Pow2, Line, Cleared, Proper, Meaning;
    LineTaken(q);
    DenotesRange(Line(q), a.bits);
    assert a == Addr(a.v6, a.bits);
  }

  /**
   From the published list to the packet: after a refresh with such a list, taken in four texts or more, every source in
   a listed prefix is let in and forwarded, unless an exposure drops it.
   */
  lemma PublishedGetsIn(s: Node, cfg: Config, peers: seq<Peer>, list: seq<Published>, i: nat, now: int, p: Packet)
    requires s.input == RenderInput(cfg) + PeerRules(peers) && s.forward == RenderForward(cfg)
    requires Allow4 in s.sets && Allow6 in s.sets
    requires (forall q :: q in list ==> Proper(q)) && i < |list| && Covers(list[i], p.src)
    requires var text := Join(Lines(list), '\n'); |Accepted4(text)| + |Accepted6(text)| >= 4
    requires var u := Refresh(s, Join(Lines(list), '\n'), true, now); !Run(u.exposed, [], u.sets, p).Dropped?
    ensures var u := Refresh(s, Join(Lines(list), '\n'), true, now); InputLetsIn(u, p) && ForwardLetsIn(u, p)
  {
    hide Denotes, Run, LetsIn, RenderInput, RenderForward, Accepted4, Accepted6, Refresh, PeerRules, Line, Lines, Join;
    hide Covers, InputLetsIn, ForwardLetsIn;
    LineDenotes(list[i], p.src);
    PublishedIsTaken(list, i);
    ProviderGetsIn(s, cfg, peers, Join(Lines(list), '\n'), now, Line(list[i]), p);
  }
}
