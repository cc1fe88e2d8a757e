/**
 Port exposure: the rules a scope compiles to, the registry line that records it, and how the
 lines of the registry file determine the `exposed` chain.
 */
module Registry {
  import opened Wrappers
  import opened Text
  import opened Cidr
  import opened Nft

  datatype Scope = ScopeAdmin | ScopeGlobal | ScopeTraefik | ScopeIps

  function ScopeText(s: Scope): string {
    match s
    case ScopeAdmin => "admin"
    case ScopeGlobal => "global"
    case ScopeTraefik => "traefik"
    case ScopeIps => "ips"
  }

  function ScopeOf(text: string): Option<Scope> {
    if text == "admin" then Some(ScopeAdmin)
    else if text == "global" then Some(ScopeGlobal)
    else if text == "traefik" then Some(ScopeTraefik)
    else if text == "ips" then Some(ScopeIps)
    else None
  }

  function TransportText(t: Transport): string { if t.Tcp? then "tcp" else "udp" }

  function TransportOf(text: string): Option<Transport> {
    if text == "tcp" then Some(Tcp) else if text == "udp" then Some(Udp) else None
  }

  /** One registry line, taken apart. `ips` is empty unless the scope is `ips`. */
  datatype Entry = Entry(port: nat, transport: Transport, scope: Scope, ips: seq<string>, stamp: string)

  datatype ExposeError =
    PortOutOfRange | PeerPort | BadProto | NoIps | BadIp(raw: string) | UnknownScope | NotInstalled

  // ---------- buildExposeRules ----------

  function PortRule(port: nat, t: Transport, src: Source, action: Action): Rule {
    Rule(Any, Some(Ports(t, [port])), src, action)
  }

  function AcceptEach(port: nat, t: Transport, ips: seq<string>): Chain {
    if ips == [] then []
    else AcceptEach(port, t, ips[..|ips| - 1]) + [PortRule(port, t, FromText(ips[|ips| - 1]), Accept)]
  }

  function Block(port: nat, t: Transport, scope: Scope, ips: seq<string>): Chain {
    match scope
    case ScopeAdmin => [
      PortRule(port, t, InSet(Admin4), Accept),
      PortRule(port, t, InSet(Admin6), Accept),
      PortRule(port, t, Anyone, Drop)
    ]
    case ScopeGlobal => [PortRule(port, t, Anyone, Accept)]
    case ScopeTraefik => []
    case ScopeIps => AcceptEach(port, t, ips) + [PortRule(port, t, Anyone, Drop)]
  }

  lemma {:induction false} AcceptEachShape(port: nat, t: Transport, ips: seq<string>)
    ensures forall x :: x in AcceptEach(port, t, ips) ==> ForPort(x, port) && x.action == Accept && x.guard == Any
  {
    if ips != [] {
      AcceptEachShape(port, t, ips[..|ips| - 1]);
    }
  }

  lemma BlockShape(port: nat, t: Transport, scope: Scope, ips: seq<string>)
    ensures forall x :: x in Block(port, t, scope, ips) ==> ForPort(x, port) && x.action in {Accept, Drop}
    ensures AllFor(Block(port, t, scope, ips), port)
  {
    AcceptEachShape(port, t, ips);
  }

  function BlockOf(e: Entry): Chain { Block(e.port, e.transport, e.scope, e.ips) }

  /** The normalised texts of one family, in input order. */
  function Family(raws: seq<string>, v6: bool): seq<string> {
    if raws == [] then []
    else
      var n := |raws| - 1;
      Family(raws[..n], v6) + (if InFamily(raws[n], v6) then [NormalizeCIDR(raws[n])] else [])
  }

  predicate InFamily(raw: string, v6: bool) {
    Meaning(raw).Some? && Meaning(raw).value.v6 == v6
  }

  /** A text in the form the registry stores. */
  predicate Stored(ip: string, v6: bool) {
    NormalizeCIDR(ip) == ip && InFamily(ip, v6)
  }

  /** The normalised list: IPv4 before IPv6. */
  function Normal(raws: seq<string>): seq<string> { Family(raws, false) + Family(raws, true) }

  function FirstBad(raws: seq<string>): Option<string> {
    if raws == [] then None
    else
      var n := |raws| - 1;
      if FirstBad(raws[..n]).Some? then FirstBad(raws[..n])
      else if Meaning(raws[n]).None? then Some(raws[n])
      else None
  }

  /** What a scope and an address list ask for: the scope and the normalised list, or why they are refused. */
  function CheckScope(scope: string, ips: seq<string>): Result<(Scope, seq<string>), ExposeError> {
    match ScopeOf(scope)
    case None => Err(UnknownScope)
    case Some(ScopeIps) =>
      if ips == [] then Err(NoIps)
      else if FirstBad(ips).Some? then Err(BadIp(FirstBad(ips).value))
      else Ok((ScopeIps, Normal(ips)))
    case Some(s) => Ok((s, []))
  }

  /** The rules and the registry's IP field for one exposure, built by the loops of the source. */
  method BuildExposeRules(port: nat, t: Transport, scope: string, ips: seq<string>)
    returns (r: Result<(Chain, string), ExposeError>)
    ensures match CheckScope(scope, ips)
            case Err(e) => r == Err(e)
            case Ok((s, list)) => r == Ok((Block(port, t, s, list), Join(list, ',')))
  {
    hide Meaning, NormalizeCIDR, Family, FirstBad;
    var s := ScopeOf(scope);
    if s.None? {
      return Err(UnknownScope);
    }
    match s.value {
      case ScopeAdmin =>
        return Ok(([PortRule(port, t, InSet(Admin4), Accept),
                    PortRule(port, t, InSet(Admin6), Accept),
                    PortRule(port, t, Anyone, Drop)], ""));
      case ScopeGlobal =>
        return Ok(([PortRule(port, t, Anyone, Accept)], ""));
      case ScopeTraefik =>
        return Ok(([], ""));
      case ScopeIps =>
        if ips == [] {
          return Err(NoIps);
        }
        var v4s, v6s: seq<string> := [], [];
        FamilyEmpty();
        var i := 0;
        while i < |ips|
          invariant 0 <= i <= |ips|
          invariant FirstBad(ips[..i]).None?
          invariant v4s == Family(ips[..i], false) && v6s == Family(ips[..i], true)
        {
          var ip, v6 := NormalizeAndCheck(ips[i]);
          FamilyStep(ips[..i], ips[i]);
          assert ips[..i + 1] == ips[..i] + [ips[i]];
          if v6.None? {
            FirstBadStays(ips, i + 1);
            return Err(BadIp(ips[i]));
          }
          if v6.value {
            v6s := v6s + [ip];
          } else {
            v4s := v4s + [ip];
          }
          i := i + 1;
        }
        assert ips[..i] == ips;
        var rules := AppendAccepts(port, t, [], v4s);
        assert rules == AcceptEach(port, t, v4s);
        rules := AppendAccepts(port, t, rules, v6s);
        AcceptEachConcat(port, t, v4s, v6s);
        rules := rules + [PortRule(port, t, Anyone, Drop)];
        assert rules == Block(port, t, ScopeIps, v4s + v6s);
        assert v4s + v6s == Normal(ips);
        return Ok((rules, Join(v4s + v6s, ',')));
    }
  }

  /** One pass of the loop body: normalise, then check. */
  method NormalizeAndCheck(raw: string) returns (ip: string, v6: Option<bool>)
    ensures ip == NormalizeCIDR(raw)
    ensures v6 == match Meaning(raw) case Some(p) => Some(p.v6) case None => None
  {
    hide Meaning, NormalizeCIDR, ValidateCIDR;
    ip := NormalizeCIDR(TrimSpace(raw));
    v6 := ValidateCIDR(ip);
    TrimFirst(raw);
    NormalizedCheck(raw);
  }

  lemma TrimFirst(raw: string)
    ensures NormalizeCIDR(TrimSpace(raw)) == NormalizeCIDR(raw)
  {
    TrimIsTrimmed(raw, SPACES);
  }

  /** The two emitting loops. */
  method AppendAccepts(port: nat, t: Transport, start: Chain, ips: seq<string>) returns (rules: Chain)
    ensures rules == start + AcceptEach(port, t, ips)
  {
    rules := start;
    var i := 0;
    while i < |ips|
      invariant 0 <= i <= |ips|
      invariant rules == start + AcceptEach(port, t, ips[..i])
    {
      assert ips[..i + 1][..i] == ips[..i];
      rules := rules + [PortRule(port, t, FromText(ips[i]), Accept)];
      i := i + 1;
    }
    assert ips[..i] == ips;
  }

  lemma FamilyEmpty()
    ensures Family([], false) == [] && Family([], true) == [] && FirstBad([]) == None
  {
  }

  lemma FamilyStep(raws: seq<string>, raw: string)
    ensures forall v6 ::
              Family(raws + [raw], v6) ==
              if InFamily(raw, v6) then Family(raws, v6) + [NormalizeCIDR(raw)] else Family(raws, v6)
    ensures FirstBad(raws + [raw]) ==
            if FirstBad(raws).Some? then FirstBad(raws) else if Meaning(raw).None? then Some(raw) else None
  {
    hide Meaning, NormalizeCIDR, InFamily;
    assert (raws + [raw])[..|raws|] == raws;
  }

  lemma {:induction false} AcceptEachConcat(port: nat, t: Transport, a: seq<string>, b: seq<string>)
    ensures AcceptEach(port, t, a + b) == AcceptEach(port, t, a) + AcceptEach(port, t, b)
  {
    if b == [] {
      assert a + b == a;
    } else {
      assert (a + b)[..|a + b| - 1] == a + b[..|b| - 1];
      AcceptEachConcat(port, t, a, b[..|b| - 1]);
    }
  }

  lemma {:induction false} FirstBadStays(raws: seq<string>, k: nat)
    requires k <= |raws| && FirstBad(raws[..k]).Some?
    ensures FirstBad(raws) == FirstBad(raws[..k])
  {
    hide Meaning;
    if k == |raws| {
      assert raws[..k] == raws;
    } else {
      var n := |raws| - 1;
      assert raws[..n][..k] == raws[..k];
      FirstBadStays(raws[..n], k);
    }
  }

  // ---------- normalised lists are fixed points ----------

  lemma {:induction false} FamilyConcat(a: seq<string>, b: seq<string>, v6: bool)
    ensures Family(a + b, v6) == Family(a, v6) + Family(b, v6)
  {
    hide InFamily, NormalizeCIDR;
    if b == [] {
      assert a + b == a;
    } else {
      assert (a + b)[..|a + b| - 1] == a + b[..|b| - 1];
      FamilyConcat(a, b[..|b| - 1], v6);
    }
  }

  lemma FamilyMember(raw: string, v6: bool)
    requires InFamily(raw, v6)
    ensures Stored(NormalizeCIDR(raw), v6)
  {
    hide Meaning, NormalizeCIDR;
    NormalizeMeaning(raw);
    NormalizeIdempotent(raw);
  }

  lemma {:induction false} FamilyStored(raws: seq<string>, v6: bool)
    ensures forall x :: x in Family(raws, v6) ==> Stored(x, v6)
  {
    hide InFamily, NormalizeCIDR, Stored;
    if raws != [] {
      var n := |raws| - 1;
      FamilyStored(raws[..n], v6);
      if InFamily(raws[n], v6) {
        FamilyMember(raws[n], v6);
      }
    }
  }

  lemma StoredFamily(ip: string, own: bool, v6: bool)
    requires Stored(ip, own)
    ensures InFamily(ip, v6) <==> own == v6
    ensures Meaning(ip).Some? && NormalizeCIDR(ip) == ip
  {
    hide Meaning, NormalizeCIDR;
  }

  lemma {:induction false} FamilyOfStored(ips: seq<string>, own: bool, v6: bool)
    requires forall x :: x in ips ==> Stored(x, own)
    ensures Family(ips, v6) == if own == v6 then ips else []
    ensures FirstBad(ips).None?
  {
    hide Stored, InFamily, NormalizeCIDR, Meaning;
    if ips != [] {
      var n := |ips| - 1;
      assert ips == ips[..n] + [ips[n]] && ips[n] in ips;
      FamilyOfStored(ips[..n], own, v6);
      StoredFamily(ips[n], own, v6);
    }
  }

  lemma {:induction false} FirstBadConcat(a: seq<string>, b: seq<string>)
    requires FirstBad(a).None? && FirstBad(b).None?
    ensures FirstBad(a + b).None?
  {
    hide Meaning;
    if b == [] {
      assert a + b == a;
    } else {
      assert (a + b)[..|a + b| - 1] == a + b[..|b| - 1];
      FirstBadConcat(a, b[..|b| - 1]);
    }
  }

  lemma NormalIsFixed(raws: seq<string>)
    ensures Normal(Normal(raws)) == Normal(raws) && FirstBad(Normal(raws)).None?
    ensures forall x :: x in Normal(raws) ==> Stored(x, false) || Stored(x, true)
  {
    hide Stored, Family, FirstBad;
    var a, b := Family(raws, false), Family(raws, true);
    FamilyStored(raws, false);
    FamilyStored(raws, true);
    FamilyConcat(a, b, false);
    FamilyConcat(a, b, true);
    FamilyOfStored(a, false, false);
    FamilyOfStored(a, false, true);
    FamilyOfStored(b, true, false);
    FamilyOfStored(b, true, true);
    FirstBadConcat(a, b);
  }

  lemma StoredText(ip: string, v6: bool)
    requires Stored(ip, v6)
    ensures Word(ip) && Free(ip, ',')
  {
    hide Meaning, NormalizeCIDR;
    NormalizedText(ip);
  }

  lemma {:induction false} NormalKeepsCount(raws: seq<string>)
    requires FirstBad(raws).None?
    ensures |Normal(raws)| == |raws|
  {
    hide Meaning, NormalizeCIDR;
    if raws != [] {
      NormalKeepsCount(raws[..|raws| - 1]);
    }
  }

  // ---------- the checks of AllowlistExposePort ----------

  const PEER_PORTS: set<nat> := {8472, 2379, 2380, 10250}

  function CheckExpose(port: int, proto: string, scope: string, ips: seq<string>, stamp: string):
    Result<Entry, ExposeError>
  {
    if port < 1 || port > 65535 then Err(PortOutOfRange)
    else if port in PEER_PORTS then Err(PeerPort)
    else if TransportOf(proto).None? then Err(BadProto)
    else match CheckScope(scope, ips)
      case Err(e) => Err(e)
      case Ok((s, list)) => Ok(Entry(port, TransportOf(proto).value, s, list, stamp))
  }

  predicate ValidEntry(e: Entry) {
    && 1 <= e.port <= 65535 && e.port !in PEER_PORTS
    && (e.scope.ScopeIps? ==> e.ips != [] && Normal(e.ips) == e.ips && FirstBad(e.ips).None?)
    && (!e.scope.ScopeIps? ==> e.ips == [])
    && Word(e.stamp)
  }

  lemma CheckedIsValid(port: int, proto: string, scope: string, ips: seq<string>, stamp: string)
    requires Word(stamp)
    ensures CheckExpose(port, proto, scope, ips, stamp).Ok?
            ==> ValidEntry(CheckExpose(port, proto, scope, ips, stamp).value)
  {
    hide Normal, FirstBad;
    if CheckExpose(port, proto, scope, ips, stamp).Ok? && ScopeOf(scope) == Some(ScopeIps) {
      NormalIsFixed(ips);
      NormalKeepsCount(ips);
    }
  }

  // ---------- the registry line ----------

  /** The part of a line that `sed "/^port proto scope /d"` looks for. */
  function KeyPrefix(port: nat, t: Transport, scope: Scope): string {
    Dec(port) + " " + TransportText(t) + " " + ScopeText(scope) + " "
  }

  function RenderLine(e: Entry): string {
    KeyPrefix(e.port, e.transport, e.scope) + Join(e.ips, ',') + " " + e.stamp
  }

  /** The lines word for word; without addresses two blanks meet. */
  lemma LineTexts(port: nat, ips: seq<string>, stamp: string)
    ensures RenderLine(Entry(port, Tcp, ScopeIps, ips, stamp)) ==
            Dec(port) + " " + "tcp" + " " + "ips" + " " + Join(ips, ',') + " " + stamp
    ensures RenderLine(Entry(port, Udp, ScopeAdmin, [], stamp)) ==
            Dec(port) + " " + "udp" + " " + "admin" + " " + "" + " " + stamp
    ensures RenderLine(Entry(port, Tcp, ScopeGlobal, [], stamp)) ==
            Dec(port) + " " + "tcp" + " " + "global" + " " + "" + " " + stamp
    ensures RenderLine(Entry(port, Udp, ScopeTraefik, [], stamp)) ==
            Dec(port) + " " + "udp" + " " + "traefik" + " " + "" + " " + stamp
  {
    hide Dec;
    assert Join([], ',') == "";
  }

  datatype Args = Args(port: int, proto: string, scope: string, ips: seq<string>)

  /** How reapplyPortRegistry reads a line back; None for the lines it skips. */
  function ReadArgs(line: string): Option<Args> {
    var f := Fields(line);
    if |f| < 3 then None
    else match ScanInt(f[0])
      case None => None
      case Some(n) =>
        if n == 0 then None
        else Some(Args(n, f[1], f[2], if |f| > 3 && f[3] != "" then Split(f[3], ',') else []))
  }

  lemma KeyWords(t: Transport, s: Scope)
    ensures Word(TransportText(t)) && Free(TransportText(t), ' ')
    ensures Word(ScopeText(s)) && Free(ScopeText(s), ' ')
    ensures TransportOf(TransportText(t)) == Some(t) && ScopeOf(ScopeText(s)) == Some(s)
  {
  }

  lemma ThreeFields(a: string, b: string, c: string)
    requires Word(a) && Word(b) && Word(c)
    ensures Fields(a + " " + b + " " + c + " ") == [a, b, c]
  {
    hide Fields, Word;
    FieldsOne(a);
    FieldsSnoc(a, b);
    FieldsSnoc(a + " " + b, c);
    FieldsSpace(a + " " + b + " " + c);
  }

  lemma KeyFields(port: nat, t: Transport, s: Scope)
    ensures Fields(KeyPrefix(port, t, s)) == [Dec(port), TransportText(t), ScopeText(s)]
  {
    hide Fields, Dec, TransportText, ScopeText, Word;
    DecIsWord(port);
    KeyWords(t, s);
    ThreeFields(Dec(port), TransportText(t), ScopeText(s));
  }

  lemma EntryIpsField(e: Entry)
    requires ValidEntry(e) && e.scope.ScopeIps?
    ensures Word(Join(e.ips, ',')) && Split(Join(e.ips, ','), ',') == e.ips
  {
    hide Stored, Normal, FirstBad, Join, Split;
    NormalIsFixed(e.ips);
    forall i | 0 <= i < |e.ips| ensures Word(e.ips[i]) && Free(e.ips[i], ',') {
      StoredText(e.ips[i], Stored(e.ips[i], true));
    }
    JoinNoSpace(e.ips, ',');
    JoinNonEmpty(e.ips, ',');
    SplitJoin(e.ips, ',');
  }

  lemma LineFields(e: Entry)
    requires ValidEntry(e)
    ensures Fields(RenderLine(e)) ==
            [Dec(e.port), TransportText(e.transport), ScopeText(e.scope)] +
            (if e.scope.ScopeIps? then [Join(e.ips, ',')] else []) + [e.stamp]
  {
    hide Fields, Dec, TransportText, ScopeText, Normal, FirstBad;
    var k := KeyPrefix(e.port, e.transport, e.scope);
    KeyFields(e.port, e.transport, e.scope);
    assert k != "" && IsSpace(k[|k| - 1]);
    if e.scope.ScopeIps? {
      EntryIpsField(e);
      FieldsWord(k, Join(e.ips, ','));
      FieldsSnoc(k + Join(e.ips, ','), e.stamp);
    } else {
      assert k + Join(e.ips, ',') == k;
      FieldsSnoc(k, e.stamp);
    }
  }

  /** What comes back from a written line; for scopes other than `ips` the stamp lands in the IP field. */
  lemma LineReadsBack(e: Entry)
    requires ValidEntry(e)
    ensures ReadArgs(RenderLine(e)) ==
            Some(Args(e.port, TransportText(e.transport), ScopeText(e.scope),
                      if e.scope.ScopeIps? then e.ips else Split(e.stamp, ',')))
  {
    hide Fields, Dec, TransportText, ScopeText, Normal, FirstBad, RenderLine, Split, Join, ScanInt;
    LineFields(e);
    ScanDec(e.port, "");
    assert Dec(e.port) + "" == Dec(e.port);
    if e.scope.ScopeIps? {
      EntryIpsField(e);
    }
  }

  /** Reading a written line and checking it again gives the entry back, with whatever stamp is new. */
  lemma LineRoundTrip(e: Entry, stamp: string)
    requires ValidEntry(e)
    ensures ReadArgs(RenderLine(e)).Some?
    ensures var a := ReadArgs(RenderLine(e)).value;
            && CheckExpose(a.port, a.proto, a.scope, a.ips, stamp) == Ok(e.(stamp := stamp))
            && (e.scope.ScopeIps? ==> a.ips == e.ips)
  {
    hide ReadArgs, RenderLine, TransportText, ScopeText, TransportOf, ScopeOf, Normal, FirstBad;
    LineReadsBack(e);
    KeyWords(e.transport, e.scope);
  }

  /** A re-read line renders to itself. */
  lemma RenderIsFixedPoint(e: Entry)
    requires ValidEntry(e)
    ensures ReadArgs(RenderLine(e)).Some?
    ensures var a := ReadArgs(RenderLine(e)).value;
            var again := CheckExpose(a.port, a.proto, a.scope, a.ips, e.stamp);
            again.Ok? && RenderLine(again.value) == RenderLine(e)
  {
    hide ReadArgs, RenderLine, CheckExpose;
    LineRoundTrip(e, e.stamp);
    assert e.(stamp := e.stamp) == e;
  }

  // ---------- sed and grep on the registry file ----------

  function RenderAll(es: seq<Entry>): seq<string> {
    if es == [] then [] else RenderAll(es[..|es| - 1]) + [RenderLine(es[|es| - 1])]
  }

  /** `sed "/^prefix/d"`. */
  function DropLines(lines: seq<string>, prefix: string): seq<string> {
    if lines == [] then []
    else
      var n := |lines| - 1;
      DropLines(lines[..n], prefix) + (if prefix <= lines[n] then [] else [lines[n]])
  }

  /** `grep "^prefix" | tail -1`. */
  function LastLine(lines: seq<string>, prefix: string): Option<string> {
    if lines == [] then None
    else
      var n := |lines| - 1;
      if prefix <= lines[n] then Some(lines[n]) else LastLine(lines[..n], prefix)
  }

  datatype Key = Key(port: nat, transport: Transport, scope: Scope)

  function KeyOf(e: Entry): Key { Key(e.port, e.transport, e.scope) }

  function DropKey(es: seq<Entry>, k: Key): seq<Entry> {
    if es == [] then []
    else
      var n := |es| - 1;
      DropKey(es[..n], k) + (if KeyOf(es[n]) == k then [] else [es[n]])
  }

  function DropPort(es: seq<Entry>, port: nat): seq<Entry> {
    if es == [] then []
    else
      var n := |es| - 1;
      DropPort(es[..n], port) + (if es[n].port == port then [] else [es[n]])
  }

  function LastFor(es: seq<Entry>, port: nat): Option<Entry> {
    if es == [] then None
    else
      var n := |es| - 1;
      if es[n].port == port then Some(es[n]) else LastFor(es[..n], port)
  }

  lemma EntryStep(es: seq<Entry>, e: Entry)
    ensures forall k :: DropKey(es + [e], k) == if KeyOf(e) == k then DropKey(es, k) else DropKey(es, k) + [e]
    ensures forall q :: DropPort(es + [e], q) == if e.port == q then DropPort(es, q) else DropPort(es, q) + [e]
    ensures forall q :: LastFor(es + [e], q) == if e.port == q then Some(e) else LastFor(es, q)
  {
    assert (es + [e])[..|es|] == es;
  }

  lemma TextStep(lines: seq<string>, line: string)
    ensures forall prefix ::
              DropLines(lines + [line], prefix) ==
              if prefix <= line then DropLines(lines, prefix) else DropLines(lines, prefix) + [line]
    ensures forall prefix ::
              LastLine(lines + [line], prefix) ==
              if prefix <= line then Some(line) else LastLine(lines, prefix)
  {
    assert (lines + [line])[..|lines|] == lines;
  }

  lemma RenderSnoc(es: seq<Entry>, e: Entry)
    ensures RenderAll(es + [e]) == RenderAll(es) + [RenderLine(e)]
  {
    assert (es + [e])[..|es|] == es;
  }

  lemma PortTextIff(a: nat, b: nat)
    ensures Dec(a) == Dec(b) <==> a == b
    ensures Free(Dec(a), ' ')
  {
    DecIsWord(a);
    if Dec(a) == Dec(b) {
      DecInjective(a, b);
    }
  }

  lemma KeyTextIff(k: Key, l: Key)
    ensures TransportText(k.transport) == TransportText(l.transport) <==> k.transport == l.transport
    ensures ScopeText(k.scope) == ScopeText(l.scope) <==> k.scope == l.scope
  {
    KeyWords(k.transport, k.scope);
    KeyWords(l.transport, l.scope);
  }

  lemma ThreePrefix(a: string, b: string, c: string, x: string, y: string, z: string, tail: string)
    requires Free(a, ' ') && Free(b, ' ') && Free(c, ' ') && Free(x, ' ') && Free(y, ' ') && Free(z, ' ')
    ensures a + " " + b + " " + c + " " <= x + " " + y + " " + z + " " + tail <==> a == x && b == y && c == z
  {
    assert a + " " + b + " " + c + " " == a + " " + (b + " " + (c + " " + ""));
    assert x + " " + y + " " + z + " " + tail == x + " " + (y + " " + (z + " " + tail));
    PrefixWord(a, b + " " + (c + " " + ""), x, y + " " + (z + " " + tail));
    PrefixWord(b, c + " " + "", y, z + " " + tail);
    PrefixWord(c, "", z, tail);
  }

  lemma KeyPrefixSelects(e: Entry, k: Key)
    ensures KeyPrefix(k.port, k.transport, k.scope) <= RenderLine(e) <==> KeyOf(e) == k
  {
    hide Dec, TransportText, ScopeText;
    var tail := Join(e.ips, ',') + " " + e.stamp;
    PortTextIff(k.port, e.port);
    PortTextIff(e.port, k.port);
    KeyTextIff(k, KeyOf(e));
    KeyWords(k.transport, k.scope);
    KeyWords(e.transport, e.scope);
    ThreePrefix(Dec(k.port), TransportText(k.transport), ScopeText(k.scope),
                Dec(e.port), TransportText(e.transport), ScopeText(e.scope), tail);
    assert RenderLine(e) == Dec(e.port) + " " + TransportText(e.transport) + " " + ScopeText(e.scope) + " " + tail;
  }

  lemma PortPrefixSelects(e: Entry, port: nat)
    ensures Dec(port) + " " <= RenderLine(e) <==> e.port == port
  {
    hide Dec, TransportText, ScopeText;
    var e1 := TransportText(e.transport) + " " + ScopeText(e.scope) + " " + Join(e.ips, ',') + " " + e.stamp;
    assert RenderLine(e) == Dec(e.port) + " " + e1;
    assert Dec(port) + " " == Dec(port) + " " + "";
    PortTextIff(port, e.port);
    PortTextIff(e.port, port);
    PrefixWord(Dec(port), "", Dec(e.port), e1);
  }

  /** The dedup `sed` removes exactly the lines with the same port, protocol and scope. */
  lemma {:induction false} SedDropsKey(es: seq<Entry>, k: Key)
    ensures DropLines(RenderAll(es), KeyPrefix(k.port, k.transport, k.scope)) == RenderAll(DropKey(es, k))
  {
    hide KeyPrefix, RenderLine, DropLines, DropKey, RenderAll;
    if es == [] {
      EmptyRegistry();
    } else {
      var init, e := es[..|es| - 1], es[|es| - 1];
      assert es == init + [e];
      SedDropsKey(init, k);
      KeyPrefixSelects(e, k);
      RenderSnoc(init, e);
      EntryStep(init, e);
      TextStep(RenderAll(init), RenderLine(e));
      RenderSnoc(DropKey(init, k), e);
    }
  }

  /** `<port>([^0-9]|$)` at the place where a rule prints its port. */
  predicate PortAt(text: string, port: nat) {
    var d := Dec(port);
    d <= text && (|text| == |d| || !IsDigit(text[|d|]))
  }

  /** The boundary in the pattern: a rule printed for port n is selected for n and for no other port. */
  lemma GrepBoundary(n: nat, rest: string, port: nat)
    requires rest == "" || !IsDigit(rest[0])
    ensures PortAt(Dec(n) + rest, port) <==> n == port
  {
    hide Dec;
    var text := Dec(n) + rest;
    DecPrints(n);
    DecPrints(port);
    DigitPrefixStops(Dec(n), rest);
    if PortAt(text, port) {
      var tail := text[|Dec(port)|..];
      assert text == Dec(port) + tail;
      DigitPrefixStops(Dec(port), tail);
      DecInjective(n, port);
    }
  }

  lemma EmptyRegistry()
    ensures RenderAll([]) == []
    ensures forall k :: DropKey([], k) == []
    ensures forall q :: DropPort([], q) == []
    ensures forall q :: LastFor([], q) == None
    ensures forall prefix :: DropLines([], prefix) == []
    ensures forall prefix :: LastLine([], prefix) == None
  {
  }

  /** The unexpose `sed` removes exactly the lines of that port: 80 never takes 8088 along. */
  lemma {:induction false} SedDropsPort(es: seq<Entry>, port: nat)
    ensures DropLines(RenderAll(es), Dec(port) + " ") == RenderAll(DropPort(es, port))
  {
    hide Dec, RenderLine, DropLines, DropPort, RenderAll;
    if es == [] {
      EmptyRegistry();
    } else {
      var init, e := es[..|es| - 1], es[|es| - 1];
      assert es == init + [e];
      SedDropsPort(init, port);
      PortPrefixSelects(e, port);
      RenderSnoc(init, e);
      EntryStep(init, e);
      TextStep(RenderAll(init), RenderLine(e));
      RenderSnoc(DropPort(init, port), e);
    }
  }

  lemma {:induction false} GrepFindsLast(es: seq<Entry>, port: nat)
    ensures LastLine(RenderAll(es), Dec(port) + " ") ==
            match LastFor(es, port) case Some(e) => Some(RenderLine(e)) case None => None
  {
    hide Dec, RenderLine, LastLine, LastFor, RenderAll;
    if es == [] {
      EmptyRegistry();
    } else {
      var init, e := es[..|es| - 1], es[|es| - 1];
      assert es == init + [e];
      GrepFindsLast(init, port);
      PortPrefixSelects(e, port);
      RenderSnoc(init, e);
      EntryStep(init, e);
      TextStep(RenderAll(init), RenderLine(e));
    }
  }

  // ---------- the chain a registry stands for ----------

  ghost predicate HasPort(es: seq<Entry>, port: nat) { exists e :: e in es && e.port == port }

  /** The rules, in file order, of those entries that are the last for their port. */
  ghost function ChainOf(es: seq<Entry>): Chain {
    if es == [] then []
    else (if HasPort(es[1..], es[0].port) then [] else BlockOf(es[0])) + ChainOf(es[1..])
  }

  lemma BlockPort(e: Entry, port: nat)
    ensures PortRules(BlockOf(e), port) == if port == e.port then BlockOf(e) else []
    ensures RemovePort(BlockOf(e), port) == if port == e.port then [] else BlockOf(e)
  {
    BlockShape(e.port, e.transport, e.scope, e.ips);
    AllForPort(BlockOf(e), e.port, port);
  }

  lemma HasPortSnoc(es: seq<Entry>, e: Entry, port: nat)
    ensures HasPort(es + [e], port) <==> HasPort(es, port) || e.port == port
  {
    assert e in es + [e];
    if HasPort(es, port) {
      var x :| x in es && x.port == port;
      assert x in es + [e];
    }
  }

  lemma {:induction false} ChainSnoc(es: seq<Entry>, e: Entry)
    ensures ChainOf(es + [e]) == RemovePort(ChainOf(es), e.port) + BlockOf(e)
  {
    hide RemovePort, PortRules, BlockOf, HasPort;
    if es == [] {
      assert es + [e] == [e] && [e][1..] == [];
      assert !HasPort([], e.port) by { NoPortInNone(e.port); }
      PortRulesIn([], e.port);
      assert RemovePort([], e.port) == [] by { RemoveNone(e.port); }
    } else {
      var h, t := es[0], es[1..];
      assert (es + [e])[1..] == t + [e] && (es + [e])[0] == h;
      ChainSnoc(t, e);
      HasPortSnoc(t, e, h.port);
      var own: Chain := if HasPort(t, h.port) then [] else BlockOf(h);
      PortRulesConcat(own, ChainOf(t), e.port);
      BlockPort(h, e.port);
      RemoveNone(e.port);
    }
  }

  lemma NoPortInNone(port: nat)
    ensures !HasPort([], port)
  {
  }

  lemma RemoveNone(port: nat)
    ensures RemovePort([], port) == [] && PortRules([], port) == []
  {
  }

  /** Dropping a key of a port only matters to the rules of that port. */
  lemma {:induction false} ChainDropKey(es: seq<Entry>, k: Key)
    ensures RemovePort(ChainOf(DropKey(es, k)), k.port) == RemovePort(ChainOf(es), k.port)
  {
    hide RemovePort, PortRules, BlockOf, HasPort, ChainOf, DropKey;
    if es == [] {
      EmptyRegistry();
    } else {
      var init, e := es[..|es| - 1], es[|es| - 1];
      assert es == init + [e];
      ChainDropKey(init, k);
      EntryStep(init, e);
      RemovedSnoc(init, e, k.port);
      RemovedSnoc(DropKey(init, k), e, k.port);
    }
  }

  /** Removing a port after adding an entry: the entry's own rules go or stay as a block. */
  lemma RemovedSnoc(es: seq<Entry>, e: Entry, port: nat)
    ensures RemovePort(ChainOf(es + [e]), port) ==
            if e.port == port then RemovePort(ChainOf(es), port)
            else RemovePort(RemovePort(ChainOf(es), port), e.port) + BlockOf(e)
  {
    hide RemovePort, PortRules, BlockOf, HasPort, ChainOf;
    ChainSnoc(es, e);
    PortRulesConcat(RemovePort(ChainOf(es), e.port), BlockOf(e), port);
    BlockPort(e, port);
    RemoveTwice(ChainOf(es), e.port, port);
  }

  lemma {:induction false} ChainDropPort(es: seq<Entry>, port: nat)
    ensures ChainOf(DropPort(es, port)) == RemovePort(ChainOf(es), port)
  {
    hide RemovePort, PortRules, BlockOf, HasPort, ChainOf, DropPort;
    if es == [] {
      EmptyRegistry();
      RemoveNone(port);
      assert ChainOf([]) == [] by { ChainOfNone(); }
    } else {
      var init, e := es[..|es| - 1], es[|es| - 1];
      assert es == init + [e];
      ChainDropPort(init, port);
      EntryStep(init, e);
      RemovedSnoc(init, e, port);
      ChainSnoc(DropPort(init, port), e);
    }
  }

  lemma ChainOfNone()
    ensures ChainOf([]) == []
  {
  }

  /** What exposing does to the list of entries: the freshest line of a key moves to the end. */
  function Record(es: seq<Entry>, e: Entry): seq<Entry> {
    DropKey(es, KeyOf(e)) + [e]
  }

  lemma ChainRecord(es: seq<Entry>, e: Entry)
    ensures ChainOf(Record(es, e)) == RemovePort(ChainOf(es), e.port) + BlockOf(e)
  {
    ChainSnoc(DropKey(es, KeyOf(e)), e);
    ChainDropKey(es, KeyOf(e));
  }

  lemma {:induction false} LastDropKey(es: seq<Entry>, k: Key, q: nat)
    requires q != k.port
    ensures LastFor(DropKey(es, k), q) == LastFor(es, q)
  {
    hide DropKey, LastFor;
    if es == [] {
      EmptyRegistry();
    } else {
      var init, e := es[..|es| - 1], es[|es| - 1];
      assert es == init + [e];
      LastDropKey(init, k, q);
      EntryStep(init, e);
      EntryStep(DropKey(init, k), e);
    }
  }

  lemma LastRecord(es: seq<Entry>, e: Entry, q: nat)
    ensures LastFor(Record(es, e), q) == if q == e.port then Some(e) else LastFor(es, q)
  {
    EntryStep(DropKey(es, KeyOf(e)), e);
    if q != e.port {
      LastDropKey(es, KeyOf(e), q);
    }
  }

  lemma {:induction false} LastDropPort(es: seq<Entry>, port: nat, q: nat)
    ensures LastFor(DropPort(es, port), q) == if q == port then None else LastFor(es, q)
  {
    hide DropPort, LastFor;
    if es == [] {
      EmptyRegistry();
    } else {
      var init, e := es[..|es| - 1], es[|es| - 1];
      assert es == init + [e];
      LastDropPort(init, port, q);
      EntryStep(init, e);
      EntryStep(DropPort(init, port), e);
    }
  }

  /** The rules the last entry for a port asks for. */
  function Wanted(es: seq<Entry>, q: nat): Chain {
    match LastFor(es, q) case Some(e) => BlockOf(e) case None => []
  }

  /** Per port, the chain holds exactly the block of the last entry. */
  lemma {:induction false} ChainPerPort(es: seq<Entry>, q: nat)
    ensures PortRules(ChainOf(es), q) == Wanted(es, q)
  {
    hide RemovePort, PortRules, BlockOf, HasPort, ChainOf, LastFor;
    if es == [] {
      ChainOfNone();
      RemoveNone(q);
      EmptyRegistry();
    } else {
      var init, e := es[..|es| - 1], es[|es| - 1];
      assert es == init + [e];
      ChainPerPort(init, q);
      ChainSnoc(init, e);
      EntryStep(init, e);
      RemoveThenSelect(ChainOf(init), e.port, q);
      PortRulesConcat(RemovePort(ChainOf(init), e.port), BlockOf(e), q);
      BlockPort(e, q);
    }
  }

  // ---------- what stays true of the entries ----------

  ghost predicate NoKey(es: seq<Entry>, k: Key) { forall e :: e in es ==> KeyOf(e) != k }

  ghost predicate UniqueKeys(es: seq<Entry>) {
    es == [] || (UniqueKeys(es[..|es| - 1]) && NoKey(es[..|es| - 1], KeyOf(es[|es| - 1])))
  }

  ghost predicate AllValid(es: seq<Entry>) { forall e :: e in es ==> ValidEntry(e) }

  lemma {:induction false} DropIn(es: seq<Entry>, k: Key, port: nat)
    ensures forall e :: e in DropKey(es, k) <==> e in es && KeyOf(e) != k
    ensures forall e :: e in DropPort(es, port) <==> e in es && e.port != port
  {
    hide KeyOf;
    if es != [] {
      DropIn(es[..|es| - 1], k, port);
    }
  }

  lemma {:induction false} LastIn(es: seq<Entry>, port: nat)
    ensures match LastFor(es, port)
            case Some(e) => e in es && e.port == port
            case None => forall e :: e in es ==> e.port != port
  {
    if es != [] {
      LastIn(es[..|es| - 1], port);
    }
  }

  lemma UniqueStep(es: seq<Entry>, e: Entry)
    ensures UniqueKeys(es + [e]) <==> UniqueKeys(es) && NoKey(es, KeyOf(e))
  {
    assert (es + [e])[..|es|] == es;
  }

  lemma {:induction false} UniqueDrop(es: seq<Entry>, k: Key, port: nat)
    requires UniqueKeys(es)
    ensures UniqueKeys(DropKey(es, k)) && UniqueKeys(DropPort(es, port))
  {
    hide UniqueKeys, DropKey, DropPort;
    if es == [] {
      EmptyRegistry();
    } else {
      var init, e := es[..|es| - 1], es[|es| - 1];
      assert es == init + [e];
      UniqueStep(init, e);
      UniqueDrop(init, k, port);
      EntryStep(init, e);
      DropIn(init, k, port);
      UniqueStep(DropKey(init, k), e);
      UniqueStep(DropPort(init, port), e);
    }
  }

  /** Exposing keeps the registry well-formed. */
  lemma RecordKeeps(es: seq<Entry>, e: Entry)
    requires UniqueKeys(es) && AllValid(es) && ValidEntry(e)
    ensures UniqueKeys(Record(es, e)) && AllValid(Record(es, e))
  {
    hide UniqueKeys, DropKey, DropPort, ValidEntry;
    var kept := DropKey(es, KeyOf(e));
    UniqueDrop(es, KeyOf(e), 0);
    DropIn(es, KeyOf(e), 0);
    UniqueStep(kept, e);
  }

  /** Index form of key uniqueness. */
  lemma {:induction false} UniqueByIndex(es: seq<Entry>, i: nat, j: nat)
    requires UniqueKeys(es) && i < j < |es|
    ensures KeyOf(es[i]) != KeyOf(es[j])
  {
    var n := |es| - 1;
    if j < n {
      UniqueByIndex(es[..n], i, j);
    } else {
      assert es[i] in es[..n];
    }
  }
}
