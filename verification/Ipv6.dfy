/**
 IPv6 texts: every number below 2^128 has a text in the forms of RFC 4291 section 2.2 that denotes it, and the node-side
 pattern takes those texts.
 */
module Ipv6 {
  import opened Wrappers
  import opened Text
  import opened Cidr
  import opened Nft
  import opened State

  // ---------- hexadecimal groups ----------

  type Group = n: nat | n < 0x1_0000

  function HexDigit(d: nat): (c: char)
    requires d < 16
    ensures IsHex(c) && HexVal(c) == d
  {
    if d < 10 then DigitChar(d) else ('a' as int + (d - 10)) as char
  }

  /** Upper case reads as lower case. */
  lemma UpperReadsAsLower(d: nat)
    requires 10 <= d < 16
    ensures var c := ('A' as int + (d - 10)) as char; IsHex(c) && HexVal(c) == d
  {
  }

  /** `%x` of a 16-bit group. */
  function Hex(n: Group): string {
    if n < 16 then [HexDigit(n)] else Hex(n / 16) + [HexDigit(n % 16)]
  }

  lemma HexPrints(n: Group)
    ensures Hextet(Hex(n)) && HexNum(Hex(n)) == n
  {
    HexStep(n, 4);
  }

  lemma {:induction false} HexStep(n: Group, places: nat)
    requires places <= 4 && n < Pow16(places) && places > 0
    ensures 1 <= |Hex(n)| <= places && (forall i :: 0 <= i < |Hex(n)| ==> IsHex(Hex(n)[i])) && HexNum(Hex(n)) == n
  {
    if n < 16 {
      assert [HexDigit(n)][..0] == "";
    } else {
      HexStep(n / 16, places - 1);
      assert Hex(n)[..|Hex(n)| - 1] == Hex(n / 16);
    }
  }

  function Pow16(n: nat): nat { if n == 0 then 1 else 16 * Pow16(n - 1) }

  lemma HextetFree(s: string, c: char)
    requires Hextet(s) && !IsHex(c)
    ensures Free(s, c) && s != ""
  {
  }

  // ---------- groups ----------

  function Pieces(g: seq<Group>): seq<string>
  {
    if g == [] then [] else Pieces(g[..|g| - 1]) + [Hex(g[|g| - 1])]
  }

  /** Groups joined by colons. */
  function PrintGroups(g: seq<Group>): string
  {
    Join(Pieces(g), ':')
  }

  lemma {:induction false} PiecesParse(g: seq<Group>, quad: bool)
    ensures |Pieces(g)| == |g| && Groups(Pieces(g), quad) == Some(g)
    ensures forall i :: 0 <= i < |g| ==> Hextet(Pieces(g)[i])
  {
    hide Hextet, HexNum, Hex, ParseQuad;
    if g != [] {
      var n := |g| - 1;
      assert g == g[..n] + [g[n]] && g[n] in g;
      PiecesParse(g[..n], false);
      HexPrints(g[n]);
      assert Pieces(g)[..n] == Pieces(g[..n]);
    }
  }

  lemma PrintedGroups(g: seq<Group>, quad: bool)
    ensures GroupsOf(PrintGroups(g), quad) == Some(g)
    ensures g != [] ==> PrintGroups(g) != ""
  {
    hide Groups, Hextet, Pieces, Join, Split;
    PiecesParse(g, quad);
    if g == [] {
      assert Pieces(g) == [] by { NoPieces(); }
      assert PrintGroups(g) == "" by { EmptyJoin(':'); }
    } else {
      forall i | 0 <= i < |g| ensures Free(Pieces(g)[i], ':') && Pieces(g)[i] != "" {
        HextetFree(Pieces(g)[i], ':');
      }
      SplitJoin(Pieces(g), ':');
      JoinNonEmpty(Pieces(g), ':');
    }
  }

  lemma NoPieces()
    ensures Pieces([]) == []
  {
  }

  lemma EmptyJoin(sep: char)
    ensures Join([], sep) == ""
  {
  }

  /** No `::`, no colon at either end, no character but hex digits and colons. */
  ghost predicate GroupLike(s: string) {
    && s != "" && IsHex(s[0]) && IsHex(s[|s| - 1])
    && (forall i ::
      0 <= i < |s| ==> IsHex(s[i]) || s[i] == ':')
      && NoPair(s)
  }

  ghost predicate NoPair(s: string) { forall i, j :: 0 <= i < j < |s| && j == i + 1 && s[i] == ':' ==> s[j] != ':' }

  lemma HexIsGroupLike(h: string)
    requires Hextet(h)
    ensures GroupLike(h)
  {
    ColonIsNoHex();
  }

  lemma JoinedGroupLike(t: string, h: string)
    requires GroupLike(t) && Hextet(h)
    ensures GroupLike(t + ":" + h) && ':' in t + ":" + h
  {
    hide IsHex;
    ColonIsNoHex();
    var s := t + ":" + h;
    assert s[|t|] == ':' && s[|s| - 1] == h[|h| - 1] && s[|t| + 1] == h[0] && s[|t| - 1] == t[|t| - 1];
    forall i | 0 <= i < |s| ensures IsHex(s[i]) || s[i] == ':' {
      if i > |t| {
        assert s[i] == h[i - |t| - 1];
      }
    }
    assert forall i :: 0 <= i < |h| ==> h[i] == s[|t| + 1 + i];
  }

  lemma {:induction false} GroupsText(g: seq<Group>)
    requires g != []
    ensures GroupLike(PrintGroups(g)) && (|g| >= 2 ==> ':' in PrintGroups(g))
  {
    hide Hex, HexNum, GroupLike, Hextet;
    var n := |g| - 1;
    HexPrints(g[n]);
    if n == 0 {
      assert Pieces(g) == [] + [Hex(g[0])] == [Hex(g[0])];
      HexIsGroupLike(Hex(g[0]));
    } else {
      assert g == g[..n] + [g[n]];
      GroupsText(g[..n]);
      LastColon(g[..n], g[n]);
      JoinedGroupLike(PrintGroups(g[..n]), Hex(g[n]));
    }
  }

  lemma ColonIsNoHex()
    ensures !IsHex(':') && !IsHex('/') && !IsHex('.')
  {
  }

  // ---------- eight groups ----------

  /** The lowest `n` groups of a number. */
  function LowGroups(bits: nat, n: nat): (g: seq<Group>)
    ensures |g| == n
  {
    if n == 0 then [] else LowGroups(bits / 0x1_0000, n - 1) + [bits % 0x1_0000]
  }

  function Power(n: nat): nat { if n == 0 then 1 else 0x1_0000 * Power(n - 1) }

  lemma {:induction false} PackedAgain(bits: nat, n: nat)
    requires bits < Power(n)
    ensures Pack(LowGroups(bits, n)) == bits
  {
    if n > 0 {
      PackedAgain(bits / 0x1_0000, n - 1);
      var g := LowGroups(bits, n);
      assert g[..|g| - 1] == LowGroups(bits / 0x1_0000, n - 1);
    }
  }

  const BOUND: int := 0x1_0000_0000_0000_0000_0000_0000_0000_0000

  lemma EightGroups()
    ensures Power(8) == BOUND
  {
    assert Power(4) == 0x1_0000_0000_0000_0000;
    assert Power(6) == 0x1_0000_0000_0000_0000_0000_0000;
  }

  /** The long form: eight groups. */
  function PrintV6(bits: nat): string { PrintGroups(LowGroups(bits, 8)) }

  lemma PairTail(s: string)
    requires s != "" && NoPair(s)
    ensures NoPair(s[1..])
  {
    forall i, j | 0 <= i < j < |s[1..]| && j == i + 1 && s[1..][i] == ':' ensures s[1..][j] != ':' {
      assert s[i + 1] == ':' && s[j + 1] != ':';
    }
  }

  lemma {:induction false} NoDoubleColon(s: string)
    requires NoPair(s)
    ensures DoubleColon(s) == |s|
  {
    if |s| >= 2 {
      assert s[0] == ':' ==> s[1] != ':';
      PairTail(s);
      NoDoubleColon(s[1..]);
    }
  }

  /** Every 128-bit number is denoted by its eight groups. */
  lemma LongFormDenotes(bits: nat)
    requires bits < BOUND
    ensures ParseV6(PrintV6(bits)) == Some(bits) && ParseAddr(PrintV6(bits)) == Some(Addr(true, bits))
  {
    hide LowGroups, Groups, Pack, Pieces, Power, PrintGroups, IsHex, DoubleColon;
    var g, s := LowGroups(bits, 8), PrintV6(bits);
    EightGroups();
    PackedAgain(bits, 8);
    GroupsText(g);
    NoDoubleColon(s);
    PrintedGroups(g, true);
  }

  // ---------- the compressed form ----------

  /** Groups, `::`, groups: the omitted ones are zero. */
  function Compressed(left: seq<Group>, right: seq<Group>): string
  {
    PrintGroups(left) + "::" + PrintGroups(right)
  }

  lemma {:induction false} FirstDoubleColon(a: string, b: string)
    requires NoPair(a)
    requires a != "" ==> a[|a| - 1] != ':'
    ensures DoubleColon(a + "::" + b) == |a|
  {
    var s := a + "::" + b;
    if a == "" {
      assert s[0] == ':' && s[1] == ':';
    } else {
      assert s[1..] == a[1..] + "::" + b;
      assert s[0] == a[0];
      assert |a| >= 2 ==> s[1] == a[1];
      assert |a| >= 2 && a[0] == ':' ==> a[1] != ':';
      PairTail(a);
      FirstDoubleColon(a[1..], b);
    }
  }

  lemma GroupsEnds(g: seq<Group>)
    ensures var a := PrintGroups(g);
            && NoPair(a)
            && (a != "" ==> a[|a| - 1] != ':')
            && forall i :: 0 <= i < |a| ==> V6Char(a[i])
  {
    hide IsHex;
    ColonIsNoHex();
    if g == [] {
      NoPieces();
      EmptyJoin(':');
    } else {
      GroupsText(g);
    }
  }

  lemma AroundDoubleColon(a: string, b: string)
    requires forall i :: 0 <= i < |a| ==> V6Char(a[i])
    requires forall i :: 0 <= i < |b| ==> V6Char(b[i])
    ensures var s := a + "::" + b;
            s[..|a|] == a && s[|a| + 2..] == b && ':' in s && forall i :: 0 <= i < |s| ==> V6Char(s[i])
  {
    hide V6Char;
    ColonIsV6();
    var s := a + "::" + b;
    assert s[|a|] == ':';
    assert forall i :: 0 <= i < |s| ==> s[i] in a || s[i] == ':' || s[i] in b;
  }

  /** What ParseV6 makes of a text with a `::` in it. */
  lemma ParsedAround(a: string, b: string, l: seq<nat>, r: seq<nat>)
    requires (forall i :: 0 <= i < |a| ==> V6Char(a[i])) && (forall i :: 0 <= i < |b| ==> V6Char(b[i]))
    requires NoPair(a) && (a != "" ==> a[|a| - 1] != ':')
    requires GroupsOf(a, false) == Some(l) && GroupsOf(b, true) == Some(r) && |l| + |r| <= 7
    ensures ParseV6(a + "::" + b) == Some(Pack(l + seq(8 - |l| - |r|, _ => 0) + r))
    ensures ParseAddr(a + "::" + b) == Some(Addr(true, Pack(l + seq(8 - |l| - |r|, _ => 0) + r)))
  {
    hide GroupsOf, Pack, DoubleColon, V6Char;
    FirstDoubleColon(a, b);
    AroundDoubleColon(a, b);
  }

  /** The compressed form denotes the number with zero groups in the gap. */
  lemma CompressedDenotes(left: seq<Group>, right: seq<Group>)
    requires |left| + |right| <= 7
    ensures ParseAddr(Compressed(left, right)) ==
            Some(Addr(true, Pack(left + seq(8 - |left| - |right|, _ => 0) + right)))
  {
    hide GroupsOf, Pack, PrintGroups, V6Char, ParseV6, ParseAddr;
    GroupsEnds(left);
    GroupsEnds(right);
    PrintedGroups(left, false);
    PrintedGroups(right, true);
    ParsedAround(PrintGroups(left), PrintGroups(right), left, right);
  }

  lemma ColonIsV6()
    ensures V6Char(':') && V6Char('f')
  {
  }

  // ---------- texts that denote nothing ----------

  /** Without `::` there must be exactly eight groups. */
  lemma WrongCountMeansNothing(g: seq<Group>)
    requires g != [] && |g| != 8
    ensures ParseV6(PrintGroups(g)) == None
  {
    hide GroupsOf, Pack, PrintGroups, DoubleColon, V6Char;
    GroupsText(g);
    NoDoubleColon(PrintGroups(g));
    PrintedGroups(g, true);
  }

  /** With `::` there must be at most seven. */
  lemma NoGapMeansNothing(left: seq<Group>, right: seq<Group>)
    requires |left| + |right| >= 8
    ensures ParseV6(Compressed(left, right)) == None
  {
    hide GroupsOf, Pack, PrintGroups, V6Char, DoubleColon;
    var a, b := PrintGroups(left), PrintGroups(right);
    GroupsEnds(left);
    GroupsEnds(right);
    PrintedGroups(left, false);
    PrintedGroups(right, true);
    FirstDoubleColon(a, b);
    AroundDoubleColon(a, b);
  }

  /** A group has at most four digits. */
  lemma LongGroupMeansNothing(h: string)
    requires |h| > 4 && forall i :: 0 <= i < |h| ==> IsHex(h[i])
    ensures ParseV6("" + "::" + h) == None
  {
    hide Pack, V6Char, DoubleColon, ParseQuad, Split, IsHex;
    FirstDoubleColon("", h);
    var s := "" + "::" + h;
    assert s[..0] == "" && s[2..] == h;
    HexIsPlain(h);
    SplitWhole(h, ':');
    assert [h][..0] == [];
    assert GroupsOf(h, true) == None;
  }

  lemma HexIsPlain(h: string)
    requires h != "" && forall i :: 0 <= i < |h| ==> IsHex(h[i])
    ensures Free(h, ':') && ParseQuad(h) == None
  {
    assert Free(h, '.');
    SplitWhole(h, '.');
  }

  lemma {:induction false} HexFits(s: string)
    requires forall i :: 0 <= i < |s| ==> IsHex(s[i])
    ensures HexNum(s) < Pow16(|s|)
  {
    if s != "" {
      HexFits(s[..|s| - 1]);
    }
  }

  lemma HextetFits(s: string)
    requires Hextet(s)
    ensures HexNum(s) < 0x1_0000
  {
    HexFits(s);
    assert Pow16(1) == 16 && Pow16(2) == 256 && Pow16(3) == 4096 && Pow16(4) == 0x1_0000;
  }

  lemma {:induction false} GroupsFit(pieces: seq<string>, quad: bool)
    ensures Groups(pieces, quad).Some? ==> forall x :: x in Groups(pieces, quad).value ==> x < 0x1_0000
  {
    hide Hextet, HexNum, ParseQuad;
    if pieces != [] {
      var n := |pieces| - 1;
      GroupsFit(pieces[..n], false);
      if Hextet(pieces[n]) {
        HextetFits(pieces[n]);
      }
      QuadFits(pieces[n]);
    }
  }

  lemma QuadFits(s: string)
    ensures ParseQuad(s).Some? ==> ParseQuad(s).value < 0x1_0000_0000
  {
    hide Val, Split;
  }

  lemma {:induction false} PackFits(g: seq<nat>)
    requires forall x :: x in g ==> x < 0x1_0000
    ensures Pack(g) < Power(|g|)
  {
    if g != [] {
      var n := |g| - 1;
      assert g[n] in g && forall x :: x in g[..n] ==> x in g;
      PackFits(g[..n]);
    }
  }

  /** No text denotes a number beyond its family's width. */
  lemma AddressesFit(s: string)
    ensures ParseAddr(s).Some? ==> var a := ParseAddr(s).value; a.bits < if a.v6 then BOUND else 0x1_0000_0000
  {
    hide ParseQuad, Pack, Power, DoubleColon, V6Char, Groups;
    QuadFits(s);
    EightGroups();
    var k := DoubleColon(s);
    if ParseV6(s).Some? {
      if k == |s| {
        FitsWhole(s, GroupsOf(s, true));
      } else {
        FitsWhole(s[..k], GroupsOf(s[..k], false));
        FitsWhole(s[k + 2..], GroupsOf(s[k + 2..], true));
        var l, r := GroupsOf(s[..k], false).value, GroupsOf(s[k + 2..], true).value;
        PackFits(l + seq(8 - |l| - |r|, _ => 0) + r);
      }
    }
  }

  lemma FitsWhole(s: string, g: Option<seq<nat>>)
    requires g == GroupsOf(s, true) || g == GroupsOf(s, false)
    ensures g.Some? ==> (forall x :: x in g.value ==> x < 0x1_0000) && Pack(g.value) < Power(|g.value|)
  {
    hide Pack, Power, Groups;
    GroupsFit(Split(s, ':'), true);
    GroupsFit(Split(s, ':'), false);
    if g.Some? {
      PackFits(g.value);
    }
  }

  // ---------- IPv4 addresses inside ----------

  lemma FfffPieces(q: string)
    requires Free(q, ':') && !Hextet(q) && ParseQuad(q).Some?
    ensures var n := ParseQuad(q).value; GroupsOf("ffff:" + q, true) == Some([0xffff, n / 65536, n % 65536])
  {
    hide Split, ParseQuad, Hextet, HexNum;
    SplitWhole("ffff", ':');
    SplitSnoc("ffff", q, ':');
    assert "ffff" + [':'] + q == "ffff:" + q;
    assert ["ffff", q][..1] == ["ffff"] && ["ffff"][..0] == [];
    Ffff();
    assert Groups([], false) == Some([]);
    assert Groups(["ffff"], false) == Some([] + [0xffff]);
    assert Split("ffff:" + q, ':') == ["ffff", q];
    var n := ParseQuad(q).value;
    assert Groups(["ffff", q], true) == Some([] + [0xffff] + [n / 65536, n % 65536]);
    assert [] + [0xffff] + [n / 65536, n % 65536] == [0xffff, n / 65536, n % 65536];
  }

  lemma Ffff()
    ensures Hextet("ffff") && HexNum("ffff") == 0xffff
  {
    assert "ffff"[..3] == "fff" && "fff"[..2] == "ff" && "ff"[..1] == "f" && "f"[..0] == "";
    assert HexNum("f") == 15;
    assert HexNum("ff") == 255;
    assert HexNum("fff") == 4095;
  }

  lemma QuadIsNoHextet(q: string)
    requires ParseQuad(q).Some?
    ensures !Hextet(q) && forall i :: 0 <= i < |q| ==> V6Char(q[i])
  {
    hide Split, Join, Val, Quad, Octet;
    var o := Split(q, '.');
    JoinSplit(q, '.');
    DottedIsJoin(o[0], o[1], o[2], o[3]);
    assert o == [o[0], o[1], o[2], o[3]];
    assert q == Dotted(o[0], o[1], o[2], o[3]);
    OctetIsPlain(o[0]);
    OctetIsPlain(o[1]);
    OctetIsPlain(o[2]);
    OctetIsPlain(o[3]);
    assert q[|o[0]|] == '.';
  }

  lemma OctetIsPlain(a: string)
    requires Octet(a)
    ensures forall i :: 0 <= i < |a| ==> V6Char(a[i])
  {
  }

  /** `::ffff:a.b.c.d` denotes the IPv4-mapped address, and is recognised as one. */
  lemma MappedDenotes(n: nat)
    requires n < 0x1_0000_0000
    ensures ParseAddr("" + "::" + ("ffff:" + PrintQuad(n))) == Some(Addr(true, 0xffff_0000_0000 + n))
    ensures Mapped(Addr(true, 0xffff_0000_0000 + n))
  {
    hide PrintQuad, V6Char, GroupsOf, Pack, ParseQuad, Cidr4, ParseV6, ParseAddr;
    var q := PrintQuad(n);
    QuadParses(n);
    QuadIsNoHextet(q);
    FfffPieces(q);
    assert GroupsOf("", false) == Some([]) by { NoGroups(); }
    forall i | 0 <= i < |"ffff:" + q| ensures V6Char(("ffff:" + q)[i]) {
      ColonIsV6();
    }
    ParsedAround("", "ffff:" + q, [], [0xffff, n / 65536, n % 65536]);
    MappedPack(n / 65536, n % 65536);
    MappedNumber(n);
    assert [] + seq(8 - 0 - 3, _ => 0) + [0xffff, n / 65536, n % 65536]
        == [0, 0, 0, 0, 0, 0xffff, n / 65536, n % 65536];
  }

  lemma MappedNumber(n: nat)
    requires n < 0x1_0000_0000
    ensures 0xffff_0000_0000 + (n / 65536) * 65536 + n % 65536 == 0xffff_0000_0000 + n
    ensures Mapped(Addr(true, 0xffff_0000_0000 + n))
  {
  }

  lemma NoGroups()
    ensures GroupsOf("", false) == Some([])
  {
  }

  lemma QuadParses(n: nat)
    requires n < 0x1_0000_0000
    ensures ParseQuad(PrintQuad(n)) == Some(n) && Free(PrintQuad(n), ':')
  {
    hide PrintQuad, ParseQuad, Cidr4, ParseV6;
    PrintedQuad(n);
    PrintedHasNoColon(n, None);
    assert Print4(n, None) == PrintQuad(n);
  }

  lemma PackSnoc(g: seq<nat>, x: nat)
    ensures Pack(g + [x]) == Pack(g) * 65536 + x
  {
    assert (g + [x])[..|g|] == g;
  }

  lemma MappedPack(hi: nat, lo: nat)
    ensures Pack([0, 0, 0, 0, 0, 0xffff, hi, lo]) == 0xffff_0000_0000 + hi * 65536 + lo
  {
    hide Pack;
    var g: seq<nat> := [];
    assert Pack(g) == 0 by { PackNone(); }
    PackSnoc(g, 0);
    PackSnoc(g + [0], 0);
    PackSnoc(g + [0] + [0], 0);
    PackSnoc(g + [0] + [0] + [0], 0);
    PackSnoc(g + [0] + [0] + [0] + [0], 0);
    var z: seq<nat> := g + [0] + [0] + [0] + [0] + [0];
    PackSnoc(z, 0xffff);
    PackSnoc(z + [0xffff], hi);
    PackSnoc(z + [0xffff] + [hi], lo);
    assert [0, 0, 0, 0, 0, 0xffff, hi, lo] == z + [0xffff] + [hi] + [lo];
  }

  lemma PackNone()
    ensures Pack([]) == 0
  {
  }

  // ---------- with a mask ----------

  function PrintV6Prefix(bits: nat, len: nat): string { PrintV6(bits) + "/" + Dec(len) }

  lemma V6Plain(bits: nat)
    ensures var s := PrintV6(bits);
            && Word(s) && Free(s, '/') && !Free(s, ':') && forall i :: 0 <= i < |s| ==> V6Char(s[i])
  {
    hide LowGroups, PrintGroups;
    var g := LowGroups(bits, 8);
    GroupsText(g);
  }

  /** A printed prefix denotes exactly its network, and passes the Go check as IPv6. */
  lemma V6PrefixDenotes(bits: nat, len: nat)
    requires bits < BOUND && len <= 128
    ensures Meaning(PrintV6Prefix(bits, len)) == Some(Prefix(true, bits, len))
    ensures ValidateCIDR(PrintV6Prefix(bits, len)) == Some(true)
  {
    hide PrintV6, ParseAddr, Dec, Val, Split;
    var q, t := PrintV6(bits), PrintV6Prefix(bits, len);
    LongFormDenotes(bits);
    V6Plain(bits);
    DecPrints(len);
    DecIsWord(len);
    SplitSlash(q, Dec(len));
    assert t[|q|] == '/';
    assert ':' in t;
    TrimKeeps(t, SPACES);
    CidrText(t);
  }

  lemma {:induction false} ColonsAtLeast(s: string, i: nat, j: nat)
    requires i < j < |s| && s[i] == ':' && s[j] == ':'
    ensures Colons(s) >= 2
  {
    if j == |s| - 1 {
      OneColon(s[..j], i);
    } else {
      ColonsAtLeast(s[..|s| - 1], i, j);
    }
  }

  lemma {:induction false} OneColon(s: string, i: nat)
    requires i < |s| && s[i] == ':'
    ensures Colons(s) >= 1
  {
    if i < |s| - 1 {
      OneColon(s[..|s| - 1], i);
    }
  }

  lemma {:induction false} ColonsAdd(a: string, b: string)
    ensures Colons(a + b) == Colons(a) + Colons(b)
  {
    if b == "" {
      assert a + b == a;
    } else {
      assert (a + b)[..|a + b| - 1] == a + b[..|b| - 1];
      ColonsAdd(a, b[..|b| - 1]);
    }
  }

  lemma TwoColons(bits: nat, rest: string)
    ensures ColonShape(PrintV6(bits) + rest)
  {
    hide LowGroups, PrintGroups;
    var g := LowGroups(bits, 8);
    var init := g[..7];
    assert g == init + [g[7]];
    LastColon(init, g[7]);
    GroupsText(init);
    var t := PrintGroups(init);
    var i :| 0 <= i < |t| && t[i] == ':';
    OneColon(t, i);
    assert Colons(":") == 1 by { assert ":"[..0] == ""; }
    ColonsAdd(t, ":");
    ColonsAdd(t + ":", Hex(g[7]));
    ColonsAdd(PrintV6(bits), rest);
  }

  lemma LastColon(init: seq<Group>, last: Group)
    requires init != []
    ensures PrintGroups(init + [last]) == PrintGroups(init) + ":" + Hex(last)
  {
    var g := init + [last];
    assert g[..|g| - 1] == init;
    JoinSnoc(Pieces(init), Hex(last), ':');
  }

  lemma {:induction false} ShortDec(n: nat)
    requires n < 1000
    ensures 1 <= |Dec(n)| <= 3
  {
    if n >= 10 {
      assert n / 10 < 100;
      if n / 10 >= 10 {
        assert n / 10 / 10 < 10;
        assert |Dec(n / 10 / 10)| == 1;
      }
    }
  }

  /** The updater takes printed IPv6 prefixes, and bare addresses. */
  lemma V6Taken(bits: nat, len: nat)
    requires len <= 128
    ensures ColonShape(PrintV6Prefix(bits, len)) && Cidr6(PrintV6Prefix(bits, len)) && Word(PrintV6Prefix(bits, len))
    ensures ColonShape(PrintV6(bits)) && Cidr6(PrintV6(bits)) && Word(PrintV6(bits))
  {
    hide PrintV6, ColonShape, Dec, V6Char, Split, Word;
    var q, d := PrintV6(bits), Dec(len);
    V6Plain(bits);
    DecPrints(len);
    DecIsWord(len);
    ShortDec(len);
    TwoColons(bits, "/" + d);
    TwoColons(bits, "");
    assert q + "" == q && q + "/" + d == q + ("/" + d);
    SplitSlash(q, d);
    MaskedIsWord(q, d);
  }

  /** The language of the IPv6 pattern, as a regular expression is read, with the test for a colon. */
  ghost predicate Cidr6Language(s: string) {
    ':' in s && exists a, m: string :: Form6(s, a, m)
  }

  ghost predicate Form6(s: string, a: string, m: string) {
    && a != "" && (forall c ::
      c in a ==> IsHex(c) || c == ':' || c == '.')
      && (s == a || (s == a + "/" + m && 1 <= |m| <= 3 && forall c :: c in m ==> '0' <= c <= '9'))
  }

  lemma Cidr6MatchesLanguage(s: string)
    ensures Cidr6(s) <==> Cidr6Language(s)
  {
    hide Split;
    if Cidr6(s) {
      var p := Split(s, '/');
      JoinSplit(s, '/');
      var m := if |p| == 2 then p[1] else "";
      if |p| == 2 {
        TwoParts(s);
      } else {
        assert p == [p[0]];
      }
      assert Form6(s, p[0], m);
    }
    if Cidr6Language(s) {
      var a, m: string :| Form6(s, a, m);
      TakenPieces(a, m, s);
    }
  }

  lemma TakenPieces(a: string, m: string, s: string)
    requires ':' in s && Form6(s, a, m)
    ensures Cidr6(s)
  {
    hide Split, IsHex;
    ColonIsNoHex();
    assert forall i :: 0 <= i < |a| ==> a[i] in a;
    assert Free(a, '/');
    if s == a {
      SplitWhole(a, '/');
    } else {
      assert Free(m, '/');
      assert forall i :: 0 <= i < |m| ==> m[i] in m;
      SplitSlash(a, m);
    }
  }

  /** The updater's shape test: two colons somewhere. */
  lemma ColonShapeIs(s: string)
    ensures ColonShape(s) <==> exists i, j :: 0 <= i < j < |s| && s[i] == ':' && s[j] == ':'
  {
    if i, j :| 0 <= i < j < |s| && s[i] == ':' && s[j] == ':' {
      ColonsAtLeast(s, i, j);
    }
    ColonsFound(s);
  }

  lemma {:induction false} ColonsFound(s: string)
    ensures Colons(s) >= 1 ==> exists i :: 0 <= i < |s| && s[i] == ':'
    ensures Colons(s) >= 2 ==> exists i, j :: 0 <= i < j < |s| && s[i] == ':' && s[j] == ':'
  {
    if s != "" {
      var n := |s| - 1;
      ColonsFound(s[..n]);
      if Colons(s) >= 1 && s[n] != ':' {
        var i :| 0 <= i < n && s[..n][i] == ':';
        assert s[i] == ':';
      }
      if Colons(s) >= 2 {
        if s[n] == ':' {
          var i :| 0 <= i < n && s[..n][i] == ':';
          assert s[i] == ':' && s[n] == ':';
        } else {
          var i, j :| 0 <= i < j < n && s[..n][i] == ':' && s[..n][j] == ':';
          assert s[i] == ':' && s[j] == ':';
        }
      }
    }
  }

  lemma MaskedIsWord(q: string, d: string)
    requires Word(q) && Word(d)
    ensures Word(q + "/" + d)
    ensures !Free(q, ':') ==> !Free(q + "/" + d, ':')
  {
    var t := q + "/" + d;
    assert forall c :: c in q ==> c in t;
  }
}
