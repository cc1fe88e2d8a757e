/**
 Address and prefix texts: what the Go helpers and the updater's `cidr4` pattern accept,
 what a text denotes, and how the two agree.
 IPv4 prefixes are written as in RFC 4632 section 3.1, IPv6 addresses as in RFC 4291 section 2.2.
 */
module Cidr {
  import opened Wrappers
  import opened Text

  datatype Addr = Addr(v6: bool, bits: nat)

  datatype Prefix = Prefix(v6: bool, bits: nat, len: nat)

  function Width(v6: bool): nat { if v6 then 128 else 32 }

  function Pow2(n: nat): (r: nat)
    ensures r > 0
  {
    if n == 0 then 1 else 2 * Pow2(n - 1)
  }

  function Quotient(a: nat, d: nat): nat
    requires d > 0
  {
    a / d
  }

  lemma SmallMultiple(d: int, size: nat)
    requires 0 - size < d * size < size
    ensures d == 0
  {
  }

  lemma BlockQuotient(lead: nat, size: nat, k: nat)
    requires k < size
    ensures Quotient(lead * size + k, size) == lead
  {
    var n := lead * size + k;
    var q, r := n / size, n % size;
    assert n == q * size + r;
    assert (q - lead) * size == k - r;
    SmallMultiple(q - lead, size);
  }

  /** The address agrees with the prefix on its leading `len` bits. */
  predicate InPrefix(p: Prefix, a: Addr) {
    && p.v6 == a.v6
    && p.len <= Width(p.v6)
    && a.bits / Pow2(Width(p.v6) - p.len) == p.bits / Pow2(Width(p.v6) - p.len)
  }

  // ---------- IPv4 ----------

  predicate Octet(s: string) { Canonical(s) && Val(s) <= 255 }

  function Quad(a: nat, b: nat, c: nat, d: nat): nat {
    ((a * 256 + b) * 256 + c) * 256 + d
  }

  /** Four canonical octets separated by dots. */
  function ParseQuad(s: string): Option<nat> {
    var o := Split(s, '.');
    if |o| == 4 && Octet(o[0]) && Octet(o[1]) && Octet(o[2]) && Octet(o[3]) then
      Some(Quad(Val(o[0]), Val(o[1]), Val(o[2]), Val(o[3])))
    else None
  }

  // ---------- IPv6 ----------

  predicate IsHex(c: char) { IsDigit(c) || 'a' <= c <= 'f' || 'A' <= c <= 'F' }

  function HexVal(c: char): (r: nat)
    requires IsHex(c)
    ensures r < 16
  {
    if IsDigit(c) then DigitVal(c)
    else if 'a' <= c <= 'f' then c as int - 'a' as int + 10
    else c as int - 'A' as int + 10
  }

  predicate Hextet(s: string) { 1 <= |s| <= 4 && forall i :: 0 <= i < |s| ==> IsHex(s[i]) }

  function HexNum(s: string): nat
    requires forall i :: 0 <= i < |s| ==> IsHex(s[i])
  {
    if s == "" then 0 else HexNum(s[..|s| - 1]) * 16 + HexVal(s[|s| - 1])
  }

  /** The 16-bit groups of colon-separated pieces; only a final piece may be a dotted quad. */
  function Groups(pieces: seq<string>, quad: bool): Option<seq<nat>> {
    if pieces == [] then Some([])
    else
      var n := |pieces| - 1;
      match Groups(pieces[..n], false)
      case None => None
      case Some(g) =>
        if Hextet(pieces[n]) then Some(g + [HexNum(pieces[n])])
        else if quad && ParseQuad(pieces[n]).Some? then
          var q := ParseQuad(pieces[n]).value;
          Some(g + [q / 65536, q % 65536])
        else None
  }

  function GroupsOf(s: string, quad: bool): Option<seq<nat>> {
    if s == "" then Some([]) else Groups(Split(s, ':'), quad)
  }

  function Pack(groups: seq<nat>): nat {
    if groups == [] then 0 else Pack(groups[..|groups| - 1]) * 65536 + groups[|groups| - 1]
  }

  /** Position of the first `::`, or the length of the text. */
  function DoubleColon(s: string): (r: nat)
    ensures r <= |s|
    ensures r < |s| ==> r + 1 < |s| && s[r] == ':' && s[r + 1] == ':'
  {
    if |s| < 2 then |s|
    else if s[0] == ':' && s[1] == ':' then 0
    else 1 + DoubleColon(s[1..])
  }

  predicate V6Char(c: char) { IsHex(c) || c == ':' || c == '.' }

  /** RFC 4291 section 2.2: eight groups, or fewer with one `::` standing for at least one zero group. */
  function ParseV6(s: string): Option<nat> {
    if exists i :: 0 <= i < |s| && !V6Char(s[i]) then None
    else
      var k := DoubleColon(s);
      if k == |s| then
        match GroupsOf(s, true)
        case Some(g) => if |g| == 8 then Some(Pack(g)) else None
        case None => None
      else
        match (GroupsOf(s[..k], false), GroupsOf(s[k + 2..], true))
        case (Some(l), Some(r)) =>
          if |l| + |r| <= 7 then Some(Pack(l + seq(8 - |l| - |r|, _ => 0) + r)) else None
        case _ => None
  }

  // ---------- the Go helpers ----------

  function ParseAddr(s: string): Option<Addr> {
    if !Free(s, ':') then
      match ParseV6(s) case Some(b) => Some(Addr(true, b)) case None => None
    else
      match ParseQuad(s) case Some(b) => Some(Addr(false, b)) case None => None
  }

  /** net.ParseCIDR: the mask is decimal digits (leading zeros pass) no larger than the family's width. */
  function ParseCidr(s: string): Option<Prefix> {
    var parts := Split(s, '/');
    if |parts| != 2 then None
    else
      match ParseAddr(parts[0])
      case None => None
      case Some(a) =>
        if parts[1] != "" && Digits(parts[1]) && Val(parts[1]) <= Width(a.v6)
        then Some(Prefix(a.v6, a.bits, Val(parts[1])))
        else None
  }

  /** ::ffff:a.b.c.d, which net.IP.To4 takes for an IPv4 address. */
  predicate Mapped(a: Addr) { a.v6 && a.bits / 0x1_0000_0000 == 0xffff }

  function AddrOf(p: Prefix): Addr { Addr(p.v6, p.bits) }

  /** ValidateCIDR: Some(isV6) when accepted, None for the error return. */
  function ValidateCIDR(raw: string): Option<bool> {
    var s := TrimSpace(raw);
    if s == "" then None
    else if !Free(s, ':') then
      if ParseCidr(s).Some? then Some(true)
      else if ParseAddr(s).Some? && !Mapped(ParseAddr(s).value) then Some(true)
      else None
    else if ParseCidr(s).Some? || ParseAddr(s).Some? then Some(false)
    else None
  }

  function NormalizeCIDR(raw: string): string {
    var s := TrimSpace(raw);
    if !Free(s, '/') then s
    else if !Free(s, ':') then s + "/128"
    else s + "/32"
  }

  /** What a text denotes: a bare address is the prefix that holds it alone. */
  function Meaning(raw: string): (r: Option<Prefix>)
    ensures r.Some? ==> r.value.len <= Width(r.value.v6)
  {
    var s := TrimSpace(raw);
    if !Free(s, '/') then ParseCidr(s)
    else match ParseAddr(s)
      case Some(a) => Some(Prefix(a.v6, a.bits, Width(a.v6)))
      case None => None
  }

  predicate Denotes(text: string, a: Addr) {
    Meaning(text).Some? && InPrefix(Meaning(text).value, a)
  }

  // ---------- address sets ----------

  /** The first address of a block. */
  function Cleared(bits: nat, size: nat): (r: nat)
    requires size > 0
    ensures r <= bits
  {
    bits - bits % size
  }

  lemma LeadIsRange(bits: nat, x: nat, size: nat)
    requires size > 0
    ensures x / size == bits / size <==> Cleared(bits, size) <= x < Cleared(bits, size) + size
  {
    var lead := bits / size;
    var first := bits - bits % size;
    assert first == lead * size;
    if first <= x < first + size {
      BlockQuotient(lead, size, x - first);
      assert Quotient(x, size) == lead;
    } else {
      assert x == (x / size) * size + x % size;
    }
  }

  /** A text denotes one block of addresses of its family, as many as its length leaves free. */
  lemma DenotesRange(text: string, x: nat)
    requires Meaning(text).Some?
    ensures var p := Meaning(text).value;
            var size := Pow2(Width(p.v6) - p.len);
            var first := Cleared(p.bits, size);
            && (Denotes(text, Addr(p.v6, x)) <==> first <= x < first + size)
            && !Denotes(text, Addr(!p.v6, x))
  {
    hide Meaning, Pow2, Cleared;
    var p := Meaning(text).value;
    LeadIsRange(p.bits, x, Pow2(Width(p.v6) - p.len));
  }

  lemma KnownPowers()
    ensures Pow2(0) == 1 && Pow2(8) == 256 && Pow2(16) == 0x1_0000 && Pow2(20) == 0x10_0000 && Pow2(24) == 0x100_0000
  {
    assert Pow2(4) == 16;
    assert Pow2(12) == 4096;
    assert Pow2(18) == 0x4_0000;
    assert Pow2(22) == 0x40_0000;
  }

  // ---------- normalisation ----------

  lemma SplitSlash(s: string, mask: string)
    requires Free(s, '/') && Free(mask, '/')
    ensures Split(s, '/') == [s]
    ensures Split(s + "/" + mask, '/') == [s, mask]
  {
    SplitSnoc(s, mask, '/');
    SplitWhole(s, '/');
  }

  lemma TwoParts(s: string)
    requires |Split(s, '/')| == 2
    ensures var p := Split(s, '/'); s == p[0] + "/" + p[1]
  {
    var p := Split(s, '/');
    JoinSplit(s, '/');
    assert p[..1] == [p[0]];
  }

  lemma MaskTexts()
    ensures Digits("32") && Val("32") == 32
    ensures Digits("128") && Val("128") == 128
  {
    assert "32"[..1] == "3" && "3"[..0] == "";
    assert "128"[..2] == "12" && "12"[..1] == "1" && "1"[..0] == "";
    assert Val("3") == 3 && Val("1") == 1 && Val("12") == 12;
  }

  /** The shape of a normalised text. */
  lemma NormalForm(raw: string)
    ensures var s, n := TrimSpace(raw), NormalizeCIDR(raw);
            && TrimSpace(n) == n && TrimSpace(s) == s && !Free(n, '/')
            && (Free(s, '/') ==> Split(s, '/') == [s] && Split(n, '/') == [s, if Free(s, ':') then "32" else "128"])
  {
    var s, n := TrimSpace(raw), NormalizeCIDR(raw);
    TrimIsTrimmed(raw, SPACES);
    if Free(s, '/') {
      var mask := if Free(s, ':') then "32" else "128";
      assert n == s + "/" + mask == s + ("/" + mask);
      assert n[|s|] == '/';
      SplitSlash(s, mask);
      assert Trimmed("/" + mask, SPACES);
      TrimKeepsJoined(s, "/" + mask, SPACES);
    }
  }

  lemma NormalizeIdempotent(raw: string)
    ensures NormalizeCIDR(NormalizeCIDR(raw)) == NormalizeCIDR(raw)
  {
    NormalForm(raw);
  }

  /** Normalisation keeps the denoted address set, and turns "not an address" into "not an address". */
  lemma NormalizeMeaning(raw: string)
    ensures Meaning(NormalizeCIDR(raw)) == Meaning(raw)
    ensures forall a :: Denotes(NormalizeCIDR(raw), a) <==> Denotes(raw, a)
  {
    NormalForm(raw);
    MaskTexts();
  }

  lemma CidrFamily(n: string)
    requires ParseCidr(n).Some?
    ensures ParseCidr(n).value.v6 <==> !Free(n, ':')
  {
    var p := Split(n, '/');
    TwoParts(n);
    assert Free(p[1], ':');
  }

  /** After normalisation the Go check accepts exactly the texts that denote a prefix, and reports its family. */
  lemma NormalizedCheck(raw: string)
    ensures ValidateCIDR(NormalizeCIDR(raw)) ==
            match Meaning(raw) case Some(p) => Some(p.v6) case None => None
  {
    var n := NormalizeCIDR(raw);
    NormalForm(raw);
    NormalizeMeaning(raw);
    SlashIsNoAddress(n);
    if ParseCidr(n).Some? {
      CidrFamily(n);
    }
  }

  lemma SlashIsNoAddress(s: string)
    requires !Free(s, '/')
    ensures ParseAddr(s).None?
  {
    if ParseQuad(s).Some? {
      QuadFree(s, '/');
    }
  }

  /** Checking before normalising would refuse one more family: bare IPv4-mapped IPv6 addresses. */
  lemma CheckBeforeNormalizing(raw: string)
    ensures ValidateCIDR(raw) == ValidateCIDR(NormalizeCIDR(raw))
            <==> !(Meaning(raw).Some? && Free(TrimSpace(raw), '/') && Mapped(AddrOf(Meaning(raw).value)))
  {
    var s := TrimSpace(raw);
    NormalForm(raw);
    NormalizedCheck(raw);
    if !Free(s, '/') {
      SlashIsNoAddress(s);
      NormalizedCheck(s);
    }
  }

  // ---------- the characters of an accepted text ----------

  lemma QuadFree(s: string, c: char)
    requires ParseQuad(s).Some? && c != '.' && !IsDigit(c)
    ensures s != "" && Free(s, c)
  {
    hide Split, Join, Val, Quad;
    var o := Split(s, '.');
    JoinSplit(s, '.');
    forall i | 0 <= i < |o| ensures Free(o[i], c) {
      assert Octet(o[i]);
    }
    JoinFree(o, '.', c);
    JoinNonEmpty(o, '.');
  }

  lemma QuadText(s: string)
    requires ParseQuad(s).Some?
    ensures s != "" && NoSpace(s) && Free(s, ',') && Free(s, '"')
  {
    forall c | c in SPACES ensures Free(s, c) {
      QuadFree(s, c);
    }
    QuadFree(s, ',');
    QuadFree(s, '"');
  }

  lemma V6CharPlain(c: char)
    requires V6Char(c)
    ensures !IsSpace(c) && c != ',' && c != '"'
  {
  }

  lemma V6Text(s: string)
    requires ParseV6(s).Some?
    ensures NoSpace(s) && Free(s, ',') && Free(s, '"')
  {
    assert forall i :: 0 <= i < |s| ==> V6Char(s[i]);
    forall i | 0 <= i < |s| ensures !IsSpace(s[i]) && s[i] != ',' && s[i] != '"' {
      V6CharPlain(s[i]);
    }
  }

  lemma AddrText(s: string)
    requires ParseAddr(s).Some?
    ensures s != "" && NoSpace(s) && Free(s, ',') && Free(s, '"')
  {
    hide ParseV6, ParseQuad;
    if ParseQuad(s).Some? {
      QuadText(s);
    }
    if ParseV6(s).Some? {
      V6Text(s);
    }
  }

  lemma CidrText(n: string)
    requires ParseCidr(n).Some?
    ensures Word(n) && Free(n, ',') && Free(n, '"')
  {
    hide ParseAddr;
    var p := Split(n, '/');
    AddrText(p[0]);
    TwoParts(n);
  }

  /** A normalised, accepted text is one shell word without commas. */
  lemma NormalizedText(raw: string)
    requires Meaning(raw).Some?
    ensures var n := NormalizeCIDR(raw);
            Word(n) && Free(n, ',') && !Free(n, '/') && NormalizeCIDR(n) == n && TrimSpace(n) == n
  {
    NormalForm(raw);
    NormalizeMeaning(raw);
    CidrText(NormalizeCIDR(raw));
  }

  /** The family of a normalised text can be read off its colons, as the watchdog does. */
  lemma FamilyByColon(raw: string)
    requires Meaning(raw).Some?
    ensures Meaning(raw).value.v6 <==> !Free(NormalizeCIDR(raw), ':')
  {
    NormalForm(raw);
    NormalizeMeaning(raw);
    CidrFamily(NormalizeCIDR(raw));
  }

  // ---------- the updater's cidr4 pattern ----------

  predicate OctetPattern(s: string) {
    || (|s| == 3 && s[0] == '2' && s[1] == '5' && '0' <= s[2] <= '5')
    || (|s| == 3 && s[0] == '2' && '0' <= s[1] <= '4' && IsDigit(s[2]))
    || (|s| == 3 && s[0] == '1' && IsDigit(s[1]) && IsDigit(s[2]))
    || (|s| == 2 && '1' <= s[0] <= '9' && IsDigit(s[1]))
    || (|s| == 1 && IsDigit(s[0]))
  }

  predicate LenPattern(s: string) {
    || (|s| == 2 && s[0] == '3' && '0' <= s[1] <= '2')
    || (|s| == 2 && (s[0] == '1' || s[0] == '2') && IsDigit(s[1]))
    || (|s| == 1 && IsDigit(s[0]))
  }

  function Dotted(a: string, b: string, c: string, d: string): string {
    a + "." + b + "." + c + "." + d
  }

  /** The language of the regular expression, as a regular expression is read. */
  ghost predicate Cidr4Language(s: string) {
    exists a, b, c, d ::
      OctetPattern(a) && OctetPattern(b) && OctetPattern(c) && OctetPattern(d)
      && (s == Dotted(a, b, c, d) || exists l :: LenPattern(l) && s == Dotted(a, b, c, d) + "/" + l)
  }

  /** A matcher for it that cuts the text at its slashes and dots. */
  predicate Cidr4(s: string) {
    var p := Split(s, '/');
    var o := Split(p[0], '.');
    && |p| <= 2
    && |o| == 4 && OctetPattern(o[0]) && OctetPattern(o[1]) && OctetPattern(o[2]) && OctetPattern(o[3])
    && (|p| == 2 ==> LenPattern(p[1]))
  }

  lemma ValShort(s: string)
    requires Digits(s) && 1 <= |s| <= 3
    ensures |s| == 1 ==> Val(s) == DigitVal(s[0])
    ensures |s| == 2 ==> Val(s) == DigitVal(s[0]) * 10 + DigitVal(s[1])
    ensures |s| == 3 ==> Val(s) == DigitVal(s[0]) * 100 + DigitVal(s[1]) * 10 + DigitVal(s[2])
  {
    var n := |s| - 1;
    if n > 0 {
      ValShort(s[..n]);
    } else {
      assert s[..0] == "";
    }
  }

  lemma ValLong(s: string)
    requires Canonical(s) && |s| > 3
    ensures Val(s) >= 1000
  {
    if |s| == 4 {
      ValShort(s[..3]);
    } else {
      ValLong(s[..|s| - 1]);
    }
  }

  lemma OctetPatternIff(s: string)
    ensures OctetPattern(s) <==> Octet(s)
  {
    if Digits(s) && s != "" {
      if |s| <= 3 {
        ValShort(s);
      } else if Canonical(s) {
        ValLong(s);
      }
    }
  }

  lemma LenPatternIff(s: string)
    ensures LenPattern(s) <==> Canonical(s) && Val(s) <= 32
  {
    if Digits(s) && s != "" {
      if |s| <= 3 {
        ValShort(s);
      } else if Canonical(s) {
        ValLong(s);
      }
    }
  }

  lemma DottedSplits(a: string, b: string, c: string, d: string)
    requires Free(a, '.') && Free(b, '.') && Free(c, '.') && Free(d, '.')
    ensures Split(Dotted(a, b, c, d), '.') == [a, b, c, d]
  {
    SplitJoin([a, b, c, d], '.');
    DottedIsJoin(a, b, c, d);
  }

  lemma DottedIsJoin(a: string, b: string, c: string, d: string)
    ensures Join([a, b, c, d], '.') == Dotted(a, b, c, d)
  {
    JoinSnoc([a], b, '.');
    JoinSnoc([a, b], c, '.');
    JoinSnoc([a, b, c], d, '.');
    assert [a] + [b] == [a, b] && [a, b] + [c] == [a, b, c] && [a, b, c] + [d] == [a, b, c, d];
  }

  lemma DottedJoins(s: string)
    requires |Split(s, '.')| == 4
    ensures var o := Split(s, '.'); s == Dotted(o[0], o[1], o[2], o[3])
  {
    var o := Split(s, '.');
    JoinSplit(s, '.');
    DottedIsJoin(o[0], o[1], o[2], o[3]);
    assert o == [o[0], o[1], o[2], o[3]];
  }

  lemma OctetFree(a: string)
    requires OctetPattern(a)
    ensures Digits(a) && Free(a, '.') && Free(a, '/')
  {
    OctetPatternIff(a);
  }

  lemma MatchedIsDotted(s: string)
    requires Cidr4(s)
    ensures Cidr4Language(s)
  {
    var p := Split(s, '/');
    DottedJoins(p[0]);
    if |p| == 2 {
      TwoParts(s);
    } else {
      JoinSplit(s, '/');
    }
  }

  lemma DottedMatches(a: string, b: string, c: string, d: string)
    requires OctetPattern(a) && OctetPattern(b) && OctetPattern(c) && OctetPattern(d)
    ensures Free(Dotted(a, b, c, d), '/')
    ensures Cidr4(Dotted(a, b, c, d))
    ensures forall l :: LenPattern(l) ==> Cidr4(Dotted(a, b, c, d) + "/" + l)
  {
    var q := Dotted(a, b, c, d);
    OctetFree(a); OctetFree(b); OctetFree(c); OctetFree(d);
    DottedSplits(a, b, c, d);
    SplitSlash(q, "");
    forall l | LenPattern(l) ensures Cidr4(q + "/" + l) {
      LenPatternIff(l);
      SplitSlash(q, l);
    }
  }

  lemma Cidr4MatchesLanguage(s: string)
    ensures Cidr4(s) <==> Cidr4Language(s)
  {
    if Cidr4(s) {
      MatchedIsDotted(s);
    }
    forall a, b, c, d | OctetPattern(a) && OctetPattern(b) && OctetPattern(c) && OctetPattern(d)
      ensures s == Dotted(a, b, c, d) ==> Cidr4(s)
      ensures forall l :: LenPattern(l) && s == Dotted(a, b, c, d) + "/" + l ==> Cidr4(s)
    {
      DottedMatches(a, b, c, d);
    }
  }

  // ---------- printing and reading IPv4 prefixes ----------

  function PrintQuad(bits: nat): string
    requires bits < 0x1_0000_0000
  {
    var m := bits / 256;
    var k := m / 256;
    Dotted(Dec(k / 256), Dec(k % 256), Dec(m % 256), Dec(bits % 256))
  }

  function Print4(bits: nat, len: Option<nat>): string
    requires bits < 0x1_0000_0000
  {
    if len.Some? then PrintQuad(bits) + "/" + Dec(len.value) else PrintQuad(bits)
  }

  lemma QuadDigits(a: nat, b: nat, c: nat, d: nat)
    requires a <= 255 && b <= 255 && c <= 255 && d <= 255
    ensures var n := Quad(a, b, c, d);
            var m := n / 256;
            var k := m / 256;
            n < 0x1_0000_0000 && k / 256 == a && k % 256 == b && m % 256 == c && n % 256 == d
  {
    var k := a * 256 + b;
    var m := k * 256 + c;
    assert (m * 256 + d) / 256 == m;
    assert (k * 256 + c) / 256 == k;
  }

  lemma QuadRebuilds(n: nat)
    requires n < 0x1_0000_0000
    ensures var m := n / 256;
            var k := m / 256;
            k / 256 <= 255 && Quad(k / 256, k % 256, m % 256, n % 256) == n
  {
  }

  lemma PrintedOctet(a: nat)
    requires a <= 255
    ensures Octet(Dec(a)) && Val(Dec(a)) == a && OctetPattern(Dec(a)) && Free(Dec(a), '.')
  {
    hide Dec, Val, OctetPattern;
    DecPrints(a);
    OctetPatternIff(Dec(a));
  }

  lemma OctetsParse(a: nat, b: nat, c: nat, d: nat)
    requires a <= 255 && b <= 255 && c <= 255 && d <= 255
    ensures ParseQuad(Dotted(Dec(a), Dec(b), Dec(c), Dec(d))) == Some(Quad(a, b, c, d))
  {
    hide Dec, Val, Octet, Dotted, OctetPattern, Split, Quad;
    PrintedOctet(a); PrintedOctet(b); PrintedOctet(c); PrintedOctet(d);
    DottedSplits(Dec(a), Dec(b), Dec(c), Dec(d));
  }

  lemma PrintedQuad(bits: nat)
    requires bits < 0x1_0000_0000
    ensures ParseAddr(PrintQuad(bits)) == Some(Addr(false, bits))
    ensures Cidr4(PrintQuad(bits)) && Free(PrintQuad(bits), '/')
    ensures forall l :: LenPattern(l) ==> Cidr4(PrintQuad(bits) + "/" + l)
  {
    hide Dec, Dotted, OctetPattern, LenPattern, Cidr4, ParseQuad;
    var m := bits / 256;
    var k := m / 256;
    var a, b, c, d := k / 256, k % 256, m % 256, bits % 256;
    QuadRebuilds(bits);
    OctetsParse(a, b, c, d);
    PrintedOctet(a); PrintedOctet(b); PrintedOctet(c); PrintedOctet(d);
    DottedMatches(Dec(a), Dec(b), Dec(c), Dec(d));
    QuadFree(PrintQuad(bits), ':');
  }

  /** Printing, then matching and reading, gives the number and the length back. */
  lemma PrintedIsAccepted(bits: nat, len: Option<nat>)
    requires bits < 0x1_0000_0000 && (len.Some? ==> len.value <= 32)
    ensures Cidr4(Print4(bits, len))
    ensures Meaning(Print4(bits, len)) == Some(Prefix(false, bits, if len.Some? then len.value else 32))
  {
    hide ParseAddr, Cidr4, PrintQuad, LenPattern, Dec, Val;
    var q, s := PrintQuad(bits), Print4(bits, len);
    PrintedQuad(bits);
    if len.Some? {
      var l := Dec(len.value);
      DecPrints(len.value);
      LenPatternIff(l);
      SplitSlash(q, l);
      assert s[|q|] == '/';
      CidrText(s);
    } else {
      AddrText(q);
    }
    TrimKeeps(s, SPACES);
  }

  /** Every accepted text is the printing of the prefix it denotes: no second spelling passes. */
  lemma AcceptedIsPrinted(s: string) returns (bits: nat, len: Option<nat>)
    requires Cidr4(s)
    ensures bits < 0x1_0000_0000 && (len.Some? ==> len.value <= 32)
    ensures s == Print4(bits, len)
  {
    hide Val, Dec, OctetPattern, LenPattern, Dotted;
    var p := Split(s, '/');
    var o := Split(p[0], '.');
    OctetPatternIff(o[0]); OctetPatternIff(o[1]); OctetPatternIff(o[2]); OctetPatternIff(o[3]);
    CanonicalReadsBack(o[0]); CanonicalReadsBack(o[1]); CanonicalReadsBack(o[2]); CanonicalReadsBack(o[3]);
    QuadDigits(Val(o[0]), Val(o[1]), Val(o[2]), Val(o[3]));
    bits := Quad(Val(o[0]), Val(o[1]), Val(o[2]), Val(o[3]));
    DottedJoins(p[0]);
    assert p[0] == PrintQuad(bits);
    JoinSplit(s, '/');
    if |p| == 2 {
      LenPatternIff(p[1]);
      CanonicalReadsBack(p[1]);
      len := Some(Val(p[1]));
      assert p[..1] == [p[0]];
    } else {
      len := None;
    }
  }

  lemma Cidr4IsCanonicalPrinting(s: string)
    ensures Cidr4Language(s) <==>
            exists bits: nat, len: Option<nat> ::
              bits < 0x1_0000_0000 && (len.Some? ==> len.value <= 32)
              && s == Print4(bits, len)
  {
    Cidr4MatchesLanguage(s);
    if Cidr4(s) {
      var bits, len := AcceptedIsPrinted(s);
    }
    forall bits: nat, len: Option<nat> | bits < 0x1_0000_0000 && (len.Some? ==> len.value <= 32)
      && s == Print4(bits, len)
      ensures Cidr4(s)
    {
      PrintedIsAccepted(bits, len);
    }
  }

  /** What the node-side pattern lets through, the Go check accepts as IPv4. */
  lemma Cidr4PassesGoCheck(s: string)
    requires Cidr4(s)
    ensures ValidateCIDR(s) == Some(false) && Meaning(s).Some?
  {
    var bits, len := AcceptedIsPrinted(s);
    PrintedIsAccepted(bits, len);
    CheckBeforeNormalizing(s);
    NormalizedCheck(s);
  }

  lemma AcceptedWord(w: string)
    requires Cidr4(w)
    ensures Word(w)
  {
    hide PrintQuad, Dec, Cidr4, ParseAddr;
    var bits, len := AcceptedIsPrinted(w);
    PrintedQuad(bits);
    AddrText(PrintQuad(bits));
    if len.Some? {
      DecIsWord(len.value);
    }
  }

  lemma PrintedHasNoColon(bits: nat, len: Option<nat>)
    requires bits < 0x1_0000_0000
    ensures Free(Print4(bits, len), ':')
  {
    hide PrintQuad, Dec, Cidr4, ParseQuad;
    PrintedQuad(bits);
    if len.Some? {
      DecPrints(len.value);
    }
  }
}
