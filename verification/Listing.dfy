/**
 How nft lists the source address of a rule: a full-length prefix without its mask, an IPv4 prefix with its host bits
 cleared and its mask in plain decimals.
 */
module Listing {
  import opened Wrappers
  import opened Text
  import opened Cidr

  lemma MeaningBits(text: string)
    ensures Meaning(text).Some? && !Meaning(text).value.v6 ==> Meaning(text).value.bits < 0x1_0000_0000
  {
    hide ParseV6, Val, Split;
  }

  /** The bits of the network an address lies in. */
  function NetworkBits(bits: nat, len: nat): (r: nat)
    requires len <= 32
    ensures r <= bits
  {
    Cleared(bits, Pow2(32 - len))
  }

  function ListedQuad(bits: nat, len: nat): string
    requires bits < 0x1_0000_0000 && len <= 32
  {
    if len == 32 then PrintQuad(bits) else Print4(NetworkBits(bits, len), Some(len))
  }

  function Listed(text: string): string {
    match Meaning(text)
    case None => text
    case Some(p) =>
      if p.v6 then if p.len == 128 then Split(text, '/')[0] else text
      else
        MeaningBits(text);
        ListedQuad(p.bits, p.len)
  }

  // ---------- the listing denotes what was written ----------

  lemma ClearedBits(bits: nat, size: nat)
    requires size > 0
    ensures (bits - bits % size) / size == bits / size
  {
    var lead := bits / size;
    assert bits - bits % size == lead * size + 0;
    BlockQuotient(lead, size, 0);
  }

  lemma ListedQuadDenotes(bits: nat, len: nat, a: Addr)
    requires bits < 0x1_0000_0000 && len <= 32
    ensures Denotes(ListedQuad(bits, len), a) <==> InPrefix(Prefix(false, bits, len), a)
  {
    hide Meaning, Print4, Cidr4, Pow2, PrintQuad;
    if len == 32 {
      assert Print4(bits, None) == PrintQuad(bits) by { BarePrint(bits); }
      PrintedIsAccepted(bits, None);
    } else {
      PrintedIsAccepted(NetworkBits(bits, len), Some(len));
      ClearedBits(bits, Pow2(32 - len));
    }
  }

  lemma BarePrint(bits: nat)
    requires bits < 0x1_0000_0000
    ensures Print4(bits, None) == PrintQuad(bits)
  {
  }

  /** The two halves of a prefix text with a mask. */
  lemma MaskedText(text: string)
    requires Word(text) && Meaning(text).Some? && !Free(text, '/')
    ensures var p := Split(text, '/');
            && |p| == 2 && text == p[0] + "/" + p[1] && Free(p[0], '/') && Free(p[1], '/')
            && ParseAddr(p[0]) == Some(Addr(Meaning(text).value.v6, Meaning(text).value.bits))
            && Digits(p[1]) && Val(p[1]) == Meaning(text).value.len
  {
    hide ParseAddr, Val;
    TrimKeeps(text, SPACES);
    TwoParts(text);
    SplitFree(text, '/', 0);
    SplitFree(text, '/', 1);
  }

  lemma BareText(text: string)
    requires Word(text) && Free(text, '/')
    ensures Split(text, '/') == [text]
    ensures Meaning(text) ==
            match ParseAddr(text) case Some(a) => Some(Prefix(a.v6, a.bits, Width(a.v6))) case None => None
  {
    hide ParseAddr;
    TrimKeeps(text, SPACES);
    SplitWhole(text, '/');
  }

  /** Cutting a full-length IPv6 mask leaves the address. */
  lemma ListedHead(text: string)
    requires Word(text) && Meaning(text).Some? && Meaning(text).value.v6 && Meaning(text).value.len == 128
    ensures var h := Split(text, '/')[0]; Word(h) && Free(h, '/') && Meaning(h) == Meaning(text)
  {
    hide ParseAddr, Split;
    if Free(text, '/') {
      BareText(text);
    } else {
      MaskedText(text);
      var h := Split(text, '/')[0];
      AddrText(h);
      BareText(h);
    }
  }

  /** A rule means the same as listed as it did as written. */
  lemma ListedDenotes(text: string, a: Addr)
    requires Word(text)
    ensures Denotes(Listed(text), a) <==> Denotes(text, a)
  {
    hide Meaning, InPrefix, ListedQuad, Split;
    MeaningBits(text);
    match Meaning(text) {
      case None =>
      case Some(p) =>
        if !p.v6 {
          ListedQuadDenotes(p.bits, p.len, a);
        } else if p.len == 128 {
          ListedHead(text);
        }
    }
  }

  lemma ListedIsWord(text: string)
    requires Word(text)
    ensures Word(Listed(text))
  {
    hide Meaning, Split, Print4, PrintQuad, Word, Cidr4;
    MeaningBits(text);
    match Meaning(text) {
      case None =>
      case Some(p) =>
        if p.v6 {
          if p.len == 128 {
            ListedHead(text);
          }
        } else if p.len == 32 {
          BarePrint(p.bits);
          PrintedIsAccepted(p.bits, None);
          AcceptedWord(Print4(p.bits, None));
        } else {
          PrintedIsAccepted(NetworkBits(p.bits, p.len), Some(p.len));
          AcceptedWord(Print4(NetworkBits(p.bits, p.len), Some(p.len)));
        }
    }
  }

  // ---------- looking a written text up in the listing ----------

  lemma PrefixAtSlash(x: string, l: string, y: string, d: string)
    requires Free(x, '/') && Free(y, '/')
    ensures x + "/" + l <= y + "/" + d <==> x == y && l <= d
  {
    var a, b := x + "/" + l, y + "/" + d;
    assert a[|x|] == '/' && b[|y|] == '/';
    assert a[..|x|] == x && b[..|y|] == y;
    assert |x| < |y| ==> b[|x|] == y[|x|];
    assert |y| < |x| ==> a[|y|] == x[|y|];
    if x == y {
      if l <= d {
        assert d == l + d[|l|..];
        assert b == a + d[|l|..];
      }
      if a <= b {
        assert l == a[|x| + 1..] && d == b[|x| + 1..];
      }
    }
  }

  lemma {:induction false} PrefixIsSmaller(l: string, d: string)
    requires Digits(d) && l <= d
    ensures Digits(l) && Val(l) <= Val(d)
  {
    if l != d {
      PrefixIsSmaller(l, d[..|d| - 1]);
    }
  }

  /** A single host, written with its full mask. */
  ghost predicate HostText(text: string) {
    Word(text) && !Free(text, '/') && Meaning(text).Some? && Meaning(text).value.len == Width(Meaning(text).value.v6)
  }

  lemma NoSlashNoPrefix(a: string, b: string)
    requires !Free(a, '/') && Free(b, '/')
    ensures !(a <= b)
  {
  }

  lemma HostIsNoMask(host: string, y: string, d: string, v6: bool, len: nat)
    requires HostText(host) && Free(y, '/') && (Free(y, ':') <==> !v6) && Digits(d) && Val(d) == len < Width(v6)
    ensures !(host <= y + "/" + d)
  {
    hide Meaning, Val, Split;
    MaskedText(host);
    var p := Split(host, '/');
    PrefixAtSlash(p[0], p[1], y, d);
    AddrColon(p[0]);
    if p[1] <= d {
      PrefixIsSmaller(p[1], d);
    }
  }

  lemma AddrColon(s: string)
    requires ParseAddr(s).Some?
    ensures ParseAddr(s).value.v6 <==> !Free(s, ':')
  {
  }

  /** A host's text is the beginning of no listed source: nft drops the mask it ends in. */
  lemma HostIsNeverListed(host: string, prior: string)
    requires HostText(host) && Word(prior) && Meaning(prior).Some?
    ensures !(host <= Listed(prior))
  {
    hide Meaning, Val, Split, PrintQuad, Dec, HostText, ParseAddr, Word;
    MeaningBits(prior);
    var p := Meaning(prior).value;
    assert !Free(host, '/') by { HostHasSlash(host); }
    if p.v6 {
      if p.len == 128 {
        ListedHead(prior);
        NoSlashNoPrefix(host, Split(prior, '/')[0]);
      } else {
        ShorterIsMasked(prior);
        var q := Split(prior, '/');
        MaskedText(prior);
        AddrColon(q[0]);
        HostIsNoMask(host, q[0], q[1], true, p.len);
      }
    } else if p.len == 32 {
      PrintedQuad(p.bits);
      NoSlashNoPrefix(host, PrintQuad(p.bits));
    } else {
      var n := NetworkBits(p.bits, p.len);
      PrintedQuad(n);
      PrintedHasNoColon(n, None);
      BarePrint(n);
      DecPrints(p.len);
      HostIsNoMask(host, PrintQuad(n), Dec(p.len), false, p.len);
    }
  }

  lemma HostHasSlash(host: string)
    requires HostText(host)
    ensures !Free(host, '/')
  {
  }

  lemma ShorterIsMasked(text: string)
    requires Word(text) && Meaning(text).Some? && Meaning(text).value.len < Width(Meaning(text).value.v6)
    ensures !Free(text, '/')
  {
    if Free(text, '/') {
      BareText(text);
    }
  }

  /** A printed IPv4 prefix is found in its own listing if and only if it is a network without host bits. */
  lemma OwnListing(bits: nat, len: nat)
    requires bits < 0x1_0000_0000 && len <= 32
    ensures var t := Print4(bits, Some(len));
            t <= Listed(t) <==> len < 32 && bits % Pow2(32 - len) == 0
  {
    hide Meaning, PrintQuad, Dec, Cidr4, Pow2;
    var t := Print4(bits, Some(len));
    PrintedIsAccepted(bits, Some(len));
    PrintedQuad(bits);
    if len == 32 {
      assert t[|PrintQuad(bits)|] == '/';
      NoSlashNoPrefix(t, PrintQuad(bits));
    } else {
      var n := NetworkBits(bits, len);
      PrintedQuad(n);
      PrefixAtSlash(PrintQuad(bits), Dec(len), PrintQuad(n), Dec(len));
    }
  }
}
