/**
 What the updater's minimum of four entries counts: texts, of which several may denote the same addresses.
 */
module Minimum {
  import opened Wrappers
  import opened Text
  import opened Cidr
  import opened Nft
  import opened State
  import opened Refreshing

  /** The leading bits a prefix fixes; host bits do not matter. */
  datatype Network = Network(v6: bool, len: nat, lead: nat)

  function NetworkOfPrefix(p: Prefix): Network
    requires p.len <= Width(p.v6)
  {
    Network(p.v6, p.len, Quotient(p.bits, Pow2(Width(p.v6) - p.len)))
  }

  function NetworkOf(text: string): Option<Network> {
    match Meaning(text) case Some(p) => Some(NetworkOfPrefix(p)) case None => None
  }

  ghost predicate SameAddresses(t: string, u: string) { forall a :: Denotes(t, a) <==> Denotes(u, a) }

  /** The networks a set of texts denotes. */
  function Networks(texts: set<string>): set<Network> {
    set t | t in texts && NetworkOf(t).Some? :: NetworkOf(t).value
  }

  // ---------- networks are address sets ----------

  lemma {:induction false} Pow2Doubles(m: nat, n: nat)
    requires m < n
    ensures 2 * Pow2(m) <= Pow2(n)
  {
    if m + 1 < n {
      Pow2Doubles(m, n - 1);
    }
  }

  /** Equal quotients lie within one block. */
  lemma SameQuotientIsClose(a: nat, b: nat, d: nat)
    requires d > 0 && Quotient(a, d) == Quotient(b, d)
    ensures b - a < d
  {
    assert a == (a / d) * d + a % d;
    assert b == (b / d) * d + b % d;
  }

  lemma InBlock(t: string, bits: nat)
    requires Meaning(t).Some?
    ensures var p := Meaning(t).value;
            var size := Pow2(Width(p.v6) - p.len);
            Denotes(t, Addr(p.v6, bits)) <==> Quotient(bits, size) == Quotient(p.bits, size)
  {
    hide Meaning, Pow2;
  }

  /** A prefix that holds all addresses of another is at most as long. */
  lemma HoldsAllIsShorter(t: string, u: string)
    requires Meaning(t).Some? && Meaning(u).Some? && Meaning(t).value.v6 == Meaning(u).value.v6
    requires forall a :: Denotes(t, a) ==> Denotes(u, a)
    ensures Meaning(u).value.len <= Meaning(t).value.len
  {
    hide Meaning, Pow2, Quotient;
    var p, q := Meaning(t).value, Meaning(u).value;
    var w := Width(p.v6);
    if q.len > p.len {
      var size, small := Pow2(w - p.len), Pow2(w - q.len);
      var lead := Quotient(p.bits, size);
      Pow2Doubles(w - q.len, w - p.len);
      BlockQuotient(lead, size, 0);
      BlockQuotient(lead, size, size - 1);
      InBlock(t, lead * size);
      InBlock(t, lead * size + (size - 1));
      InBlock(u, lead * size);
      InBlock(u, lead * size + (size - 1));
      SameQuotientIsClose(lead * size, lead * size + (size - 1), small);
      assert false;
    }
  }

  /** Two texts denote the same addresses if and only if they denote the same network. */
  lemma SameNetwork(t: string, u: string)
    requires Meaning(t).Some? && Meaning(u).Some?
    ensures SameAddresses(t, u) <==> NetworkOf(t) == NetworkOf(u)
  {
    hide Meaning, Pow2, Quotient;
    var p, q := Meaning(t).value, Meaning(u).value;
    InBlock(t, p.bits);
    InBlock(u, p.bits);
    if SameAddresses(t, u) {
      assert Denotes(t, Addr(p.v6, p.bits));
      HoldsAllIsShorter(t, u);
      HoldsAllIsShorter(u, t);
    } else if NetworkOf(t) == NetworkOf(u) {
      forall a: Addr ensures Denotes(t, a) <==> Denotes(u, a) {
        if a.v6 == p.v6 {
          InBlock(t, a.bits);
          InBlock(u, a.bits);
        }
      }
    }
  }

  // ---------- counting ----------

  lemma NetworksMore(texts: set<string>, t: string)
    ensures Networks(texts + {t}) == Networks(texts) + (if NetworkOf(t).Some? then {NetworkOf(t).value} else {})
  {
    hide NetworkOf;
  }

  /** As many networks as texts: every text denotes one, and no two the same. */
  ghost predicate Faithful(texts: set<string>) {
    && (forall t ::
      t in texts ==> NetworkOf(t).Some?)
      && forall t, u :: t in texts && u in texts && t != u ==> NetworkOf(t) != NetworkOf(u)
  }

  lemma {:induction false} CountsNetworks(texts: set<string>)
    ensures |Networks(texts)| <= |texts|
    ensures |Networks(texts)| == |texts| <==> Faithful(texts)
  {
    hide NetworkOf, Networks, Faithful;
    if texts == {} {
      NoNetworks();
    } else {
      var t :| t in texts;
      var rest := texts - {t};
      assert texts == rest + {t};
      CountsNetworks(rest);
      NetworksMore(rest, t);
      FaithfulMore(rest, t);
    }
  }

  lemma FaithfulMore(rest: set<string>, t: string)
    requires t !in rest
    ensures Faithful(rest + {t}) <==> Faithful(rest) && NetworkOf(t).Some? && NetworkOf(t).value !in Networks(rest)
  {
    hide NetworkOf;
    if Faithful(rest) && NetworkOf(t).Some? && NetworkOf(t).value !in Networks(rest) {
      forall u | u in rest ensures NetworkOf(u) != NetworkOf(t) {
        assert NetworkOf(u).Some?;
      }
    }
  }

  lemma NoNetworks()
    ensures Networks({}) == {} && Faithful({})
  {
  }

  /** The count is the number of denoted address sets if and only if each text denotes one and no two the same. */
  lemma CountIsExact(texts: set<string>)
    ensures |Networks(texts)| == |texts| <==>
            && (forall t ::
              t in texts ==> Meaning(t).Some?)
              && (forall t, u :: t in texts && u in texts && t != u ==> !SameAddresses(t, u))
  {
    hide Meaning, SameAddresses;
    CountsNetworks(texts);
    forall t, u | Meaning(t).Some? && Meaning(u).Some? ensures SameAddresses(t, u) <==> NetworkOf(t) == NetworkOf(u) {
      SameNetwork(t, u);
    }
  }

  // ---------- IPv4: in terms of what was written ----------

  function Length(len: Option<nat>): nat { if len.Some? then len.value else 32 }

  predicate Printable4(bits: nat, len: Option<nat>) { bits < 0x1_0000_0000 && Length(len) <= 32 }

  /** Two different printings of the same length, a bare address counting as 32, with the same leading bits. */
  ghost predicate Repeats(texts: set<string>) {
    exists b: nat, c: nat, l: Option<nat>, m: Option<nat> ::
      && Printable4(b, l) && Printable4(c, m)
      && Print4(b, l) in texts && Print4(c, m) in texts && (b != c || l != m)
      && Length(l) == Length(m) && Quotient(b, Pow2(32 - Length(l))) == Quotient(c, Pow2(32 - Length(m)))
  }

  lemma PrintedNetwork(bits: nat, len: Option<nat>)
    requires Printable4(bits, len)
    ensures Meaning(Print4(bits, len)) == Some(Prefix(false, bits, Length(len)))
    ensures NetworkOf(Print4(bits, len)) == Some(Network(false, Length(len), Quotient(bits, Pow2(32 - Length(len)))))
    ensures len.Some? <==> !Free(Print4(bits, len), '/')
  {
    hide Meaning, Pow2, Cidr4, PrintQuad, Quotient, Dec, ParseAddr;
    PrintedIsAccepted(bits, len);
    PrintedQuad(bits);
    if len.Some? {
      assert Print4(bits, len)[|PrintQuad(bits)|] == '/';
    }
  }

  /** Different printings are different texts. */
  lemma PrintingsDiffer(b: nat, l: Option<nat>, c: nat, m: Option<nat>)
    requires Printable4(b, l) && Printable4(c, m) && (b != c || l != m)
    ensures Print4(b, l) != Print4(c, m)
  {
    hide Meaning, Print4, NetworkOf, Free;
    PrintedNetwork(b, l);
    PrintedNetwork(c, m);
  }

  lemma RepeatsIff(texts: set<string>)
    requires forall t :: t in texts ==> Cidr4(t)
    ensures Faithful(texts) <==> !Repeats(texts)
  {
    hide Print4, NetworkOf, Cidr4, Pow2;
    if Repeats(texts) {
      var b: nat, c: nat, l: Option<nat>, m: Option<nat> :|
        && Printable4(b, l) && Printable4(c, m)
        && Print4(b, l) in texts && Print4(c, m) in texts && (b != c || l != m)
        && Length(l) == Length(m) && Quotient(b, Pow2(32 - Length(l))) == Quotient(c, Pow2(32 - Length(m)));
      PrintedNetwork(b, l);
      PrintedNetwork(c, m);
      PrintingsDiffer(b, l, c, m);
    } else {
      forall t | t in texts ensures NetworkOf(t).Some? {
        var b, l := AcceptedIsPrinted(t);
        PrintedNetwork(b, l);
      }
      forall t, u | t in texts && u in texts && t != u ensures NetworkOf(t) != NetworkOf(u) {
        var b, l := AcceptedIsPrinted(t);
        var c, m := AcceptedIsPrinted(u);
        PrintedNetwork(b, l);
        PrintedNetwork(c, m);
      }
    }
  }

  /** For every fetched text: the IPv4 count is the number of networks unless some network is written in two ways. */
  lemma MinimumCountsTexts(text: string)
    ensures |Networks(Accepted4(text))| <= |Accepted4(text)|
    ensures |Networks(Accepted4(text))| == |Accepted4(text)| <==> !Repeats(Accepted4(text))
  {
    hide Networks, Cidr4, Fields, ColonShape, Faithful, Repeats;
    CountsNetworks(Accepted4(text));
    RepeatsIff(Accepted4(text));
  }

  lemma WholeBlocks(b: nat, c: nat, size: nat)
    requires size > 0 && b % size == 0 && c % size == 0 && Quotient(b, size) == Quotient(c, size)
    ensures b == c
  {
    assert b == (b / size) * size + b % size;
    assert c == (c / size) * size + c % size;
  }

  /** When no accepted text has host bits, only the bare and the /32 spelling of an address can coincide. */
  lemma RepeatsWithoutHostBits(texts: set<string>)
    requires forall b: nat, l: Option<nat> ::
               Printable4(b, l) && Print4(b, l) in texts
               ==> b % Pow2(32 - Length(l)) == 0
    ensures Repeats(texts) <==>
            exists b: nat :: b < 0x1_0000_0000 && Print4(b, None) in texts && Print4(b, Some(32)) in texts
  {
    hide Print4, Pow2;
    if Repeats(texts) {
      var b: nat, c: nat, l: Option<nat>, m: Option<nat> :|
        && Printable4(b, l) && Printable4(c, m)
        && Print4(b, l) in texts && Print4(c, m) in texts && (b != c || l != m)
        && Length(l) == Length(m) && Quotient(b, Pow2(32 - Length(l))) == Quotient(c, Pow2(32 - Length(m)));
      WholeBlocks(b, c, Pow2(32 - Length(l)));
      assert l == None || m == None;
    }
    if b: nat :| b < 0x1_0000_0000 && Print4(b, None) in texts && Print4(b, Some(32)) in texts {
      assert Printable4(b, None) && Printable4(b, Some(32));
    }
  }

  // ---------- concrete texts ----------

  lemma {:induction false} AcceptedIn(words: seq<string>)
    requires words != [] && forall w :: w in words ==> Word(w)
    ensures forall t :: t in Accepted4(Join(words, ' ')) <==> t in words && !ColonShape(t) && Cidr4(t)
    ensures forall t :: t in Accepted6(Join(words, ' ')) <==> t in words && ColonShape(t) && Cidr6(t)
  {
    hide ColonShape, Cidr4, Cidr6, Fields, Word;
    FieldsOfJoin(words);
  }

  lemma FreeHasNoColons(s: string)
    requires Free(s, ':')
    ensures Colons(s) == 0
  {
  }

  lemma PrintedTaken(bits: nat, len: Option<nat>)
    requires Printable4(bits, len)
    ensures var w := Print4(bits, len); Word(w) && !ColonShape(w) && Cidr4(w)
  {
    hide Print4, Cidr4, Colons, Word, PrintQuad, Dec;
    PrintedIsAccepted(bits, len);
    AcceptedWord(Print4(bits, len));
    PrintedHasNoColon(bits, len);
    FreeHasNoColons(Print4(bits, len));
  }

  /** The four texts of two addresses, each bare and with /32. */
  function BothWays(a: nat, b: nat): seq<string>
    requires a < 0x1_0000_0000 && b < 0x1_0000_0000
  {
    [Print4(a, None), Print4(a, Some(32)), Print4(b, None), Print4(b, Some(32))]
  }

  lemma WholeAddress(bits: nat)
    requires bits < 0x1_0000_0000
    ensures NetworkOf(Print4(bits, None)) == NetworkOf(Print4(bits, Some(32))) == Some(Network(false, 32, bits))
  {
    hide NetworkOf, Print4, Pow2, Quotient, Meaning;
    PrintedNetwork(bits, None);
    PrintedNetwork(bits, Some(32));
    ByOne(bits);
  }

  lemma ByOne(bits: nat)
    ensures Pow2(0) == 1 && Quotient(bits, Pow2(0)) == bits
  {
  }

  lemma BothWaysNetworks(a: nat, b: nat)
    requires a < 0x1_0000_0000 && b < 0x1_0000_0000
    ensures Networks(Members(BothWays(a, b))) == {Network(false, 32, a), Network(false, 32, b)}
  {
    hide Print4, NetworkOf, Networks;
    var w := BothWays(a, b);
    WholeAddress(a);
    WholeAddress(b);
    NoNetworks();
    NetworksMore({}, w[0]);
    NetworksMore({} + {w[0]}, w[1]);
    NetworksMore({} + {w[0]} + {w[1]}, w[2]);
    NetworksMore({} + {w[0]} + {w[1]} + {w[2]}, w[3]);
    assert Members(w) == {} + {w[0]} + {w[1]} + {w[2]} + {w[3]};
  }

  lemma BothWaysDiffer(a: nat, b: nat)
    requires a < 0x1_0000_0000 && b < 0x1_0000_0000 && a != b
    ensures AllDifferent(BothWays(a, b))
  {
    hide Print4;
    PrintingsDiffer(a, None, a, Some(32));
    PrintingsDiffer(b, None, b, Some(32));
    PrintingsDiffer(a, None, b, None);
    PrintingsDiffer(a, None, b, Some(32));
    PrintingsDiffer(a, Some(32), b, None);
    PrintingsDiffer(a, Some(32), b, Some(32));
  }

  /**
   Two addresses, each written bare and with /32, pass the minimum of four: for instance 198.51.100.7 and 203.0.113.9.
   */
  lemma TwoAddressesPass(a: nat, b: nat, s: Node)
    requires a < 0x1_0000_0000 && b < 0x1_0000_0000 && a != b && Allow4 in s.sets && Allow6 in s.sets
    ensures var text := Join(BothWays(a, b), ' ');
            |Accepted4(text)| == 4 && |Networks(Accepted4(text))| == 2 && RefreshOk(s, text, true)
  {
    hide Print4, Cidr4, Cidr6, ColonShape, Networks, Join, Word;
    var words := BothWays(a, b);
    PrintedTaken(a, None);
    PrintedTaken(a, Some(32));
    PrintedTaken(b, None);
    PrintedTaken(b, Some(32));
    AcceptedIn(words);
    BothWaysDiffer(a, b);
    CountDifferent(words);
    BothWaysNetworks(a, b);
    assert Accepted4(Join(words, ' ')) == Members(words);
  }

  // ---------- IPv6 ----------

  /** Three colons and a hex digit: the shape and the pattern let it through, and it denotes nothing. */
  function ThreeColons(c: char): string { ":::" + [c] }

  lemma ThreeColonsShape(c: char)
    ensures ColonShape(ThreeColons(c))
  {
    var w := ThreeColons(c);
    assert w[..3] == ":::" && ":::"[..2] == "::" && "::"[..1] == ":" && ":"[..0] == "";
    assert Colons(":") == 1;
    assert Colons("::") == 2;
    assert Colons(":::") == 3;
  }

  lemma HexIsPlain(c: char)
    requires IsHex(c)
    ensures c != ':' && c != '/' && !IsSpace(c)
  {
  }

  lemma ThreeColonsTaken(c: char)
    requires IsHex(c)
    ensures Word(ThreeColons(c)) && Cidr6(ThreeColons(c))
  {
    hide Split, IsHex;
    var w := ThreeColons(c);
    HexIsPlain(c);
    SplitWhole(w, '/');
    assert w[0] == ':' && V6Char(':') && V6Char(c);
  }

  lemma ThreeColonsMeanNothing(c: char)
    requires IsHex(c)
    ensures NetworkOf(ThreeColons(c)) == None
  {
    hide Split, IsHex;
    var w := ThreeColons(c);
    HexIsPlain(c);
    TrimKeeps(w, SPACES);
    assert w[0] == ':' && w[1] == ':' && DoubleColon(w) == 0;
    assert w[2..] == "" + ":" + [c];
    EmptyFirstPiece([c]);
    assert GroupsOf(w[2..], true) == None;
  }

  lemma EmptyFirstPiece(rest: string)
    requires rest != "" && Free(rest, ':')
    ensures Groups(Split("" + ":" + rest, ':'), true) == None
  {
    SplitWhole("", ':');
    SplitWhole(rest, ':');
    SplitSnoc("", rest, ':');
    assert ["", rest][..1] == [""] && [""][..0] == [];
    assert !Hextet("");
    assert Groups([""], false) == None;
  }

  /** Four IPv6 texts that denote no address at all pass the minimum. */
  lemma NoAddressesPass(s: Node)
    requires Allow4 in s.sets && Allow6 in s.sets
    ensures var text := Join([ThreeColons('1'), ThreeColons('2'), ThreeColons('3'), ThreeColons('4')], ' ');
            |Accepted6(text)| == 4 && Networks(Accepted6(text)) == {} && RefreshOk(s, text, true)
  {
    hide Cidr4, Cidr6, ColonShape, Networks, Word, NetworkOf, ThreeColons, Join;
    var words := [ThreeColons('1'), ThreeColons('2'), ThreeColons('3'), ThreeColons('4')];
    forall c | '1' <= c <= '4'
      ensures var w := ThreeColons(c); Word(w) && ColonShape(w) && Cidr6(w) && NetworkOf(w) == None
    {
      ThreeColonsShape(c);
      ThreeColonsTaken(c);
      ThreeColonsMeanNothing(c);
    }
    AcceptedIn(words);
    assert Accepted6(Join(words, ' ')) == Members(words);
    FourDiffer();
    CountDifferent(words);
    MeaninglessHaveNoNetworks(Members(words));
  }

  lemma FourDiffer()
    ensures AllDifferent([ThreeColons('1'), ThreeColons('2'), ThreeColons('3'), ThreeColons('4')])
  {
    forall c, d | c != d ensures ThreeColons(c) != ThreeColons(d) {
      assert ThreeColons(c)[3] == c && ThreeColons(d)[3] == d;
    }
  }

  lemma MeaninglessHaveNoNetworks(texts: set<string>)
    requires forall t :: t in texts ==> NetworkOf(t) == None
    ensures Networks(texts) == {}
  {
    hide NetworkOf;
  }
}
