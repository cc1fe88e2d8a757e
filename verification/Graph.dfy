/**
 Include resolution seen from the records' contents: a zone written from an abstract graph of includes and ranges, and
 what a resolution in it returns.
 */
module Graph {
  import opened Wrappers
  import opened Text
  import opened Cidr
  import opened Resolver

  /** One word of a record, possibly in quotes: an include, or anything else (a range, `v=spf1`, `~all`). */
  datatype Item = Include(domain: string, quoted: bool) | Other(text: string, quoted: bool)

  /** The records of each domain, as lists of words. */
  type Domains = map<string, seq<seq<Item>>>

  predicate Plain(w: string) { Word(w) && Free(w, '"') }

  predicate Written(i: Item) {
    match i
    case Include(d, _) => NoSpace(d) && Free(d, '"')
    case Other(w, _) => Plain(w) && !("include:" <= w)
  }

  ghost predicate AllWritten(g: Domains) {
    forall d, rec, i :: d in g && rec in g[d] && i in rec ==> Written(i)
  }

  function Bare(i: Item): string { match i case Include(d, _) => "include:" + d case Other(w, _) => w }

  function Quoted(i: Item): string { if i.quoted then "\"" + Bare(i) + "\"" else Bare(i) }

  function Bares(rec: seq<Item>): seq<string> {
    if rec == [] then [] else Bares(rec[..|rec| - 1]) + [Bare(rec[|rec| - 1])]
  }

  function Quotes(rec: seq<Item>): seq<string> {
    if rec == [] then [] else Quotes(rec[..|rec| - 1]) + [Quoted(rec[|rec| - 1])]
  }

  function Record(rec: seq<Item>): string { Join(Quotes(rec), ' ') }

  function Records(recs: seq<seq<Item>>): seq<string> {
    if recs == [] then [] else Records(recs[..|recs| - 1]) + [Record(recs[|recs| - 1])]
  }

  function ZoneOf(g: Domains): Zone { map d | d in g :: Records(g[d]) }

  /** All words of a domain, record after record. */
  function Items(recs: seq<seq<Item>>): seq<Item> {
    if recs == [] then [] else Items(recs[..|recs| - 1]) + recs[|recs| - 1]
  }

  // ---------- words ----------

  /** The include prefix is cut off whole, and nothing else is an include. */
  lemma TargetIs(i: Item)
    requires Written(i)
    ensures Target(Bare(i)) == if i.Include? then Some(i.domain) else None
  {
    if i.Include? {
      assert ("include:" + i.domain)[|"include:"|..] == i.domain;
    }
  }

  lemma BareIsPlain(i: Item)
    requires Written(i)
    ensures Plain(Bare(i))
  {
    if i.Include? {
      KeywordPlain();
      JoinedPlain("include:", i.domain);
    }
  }

  lemma KeywordPlain()
    ensures NoSpace("include:") && Free("include:", '"')
  {
  }

  lemma JoinedPlain(a: string, b: string)
    requires a != "" && NoSpace(a) && NoSpace(b) && Free(a, '"') && Free(b, '"')
    ensures Plain(a + b)
  {
    hide IsSpace;
    assert forall i :: 0 <= i < |a + b| ==> (a + b)[i] == if i < |a| then a[i] else b[i - |a|];
  }

  lemma Unquotes(i: Item)
    requires Written(i)
    ensures Word(Quoted(i)) && Trim(Quoted(i), {'"'}) == Bare(i)
  {
    hide Trim, IsSpace;
    BareIsPlain(i);
    var w := Bare(i);
    assert Trimmed(w, {'"'});
    if i.quoted {
      QuoteIsNoSpace();
      assert Word("\"" + w + "\"") by { WordInQuotes(w); }
      TrimQuotes(w);
    } else {
      TrimKeeps(w, {'"'});
    }
  }

  lemma QuoteIsNoSpace()
    ensures !IsSpace('"')
  {
  }

  lemma WordInQuotes(w: string)
    requires Word(w)
    ensures Word("\"" + w + "\"")
  {
    hide IsSpace;
    QuoteIsNoSpace();
    var q := "\"" + w + "\"";
    assert forall i :: 0 <= i < |q| ==> q[i] == if i == 0 || i == |q| - 1 then '"' else w[i - 1];
  }

  lemma TrimQuotes(w: string)
    requires w != "" && Trimmed(w, {'"'})
    ensures Trim("\"" + w + "\"", {'"'}) == w
  {
    var q := "\"" + w + "\"";
    assert q[1..] == w + "\"";
    assert TrimLeft(q, {'"'}) == TrimLeft(w + "\"", {'"'}) == w + "\"";
    assert (w + "\"")[..|w + "\""| - 1] == w;
    assert TrimRight(w + "\"", {'"'}) == TrimRight(w, {'"'});
  }

  // ---------- records ----------

  lemma {:induction false} QuotesAre(rec: seq<Item>)
    requires forall i :: i in rec ==> Written(i)
    ensures |Quotes(rec)| == |rec| == |Bares(rec)|
    ensures forall w :: w in Quotes(rec) ==> Word(w)
    ensures Unquoted(Quotes(rec)) == Bares(rec)
  {
    hide Word, Trim, Written;
    if rec != [] {
      var n := |rec| - 1;
      assert rec == rec[..n] + [rec[n]] && rec[n] in rec;
      QuotesAre(rec[..n]);
      Unquotes(rec[n]);
      assert Quotes(rec)[..n] == Quotes(rec[..n]);
    }
  }

  lemma RecordReads(rec: seq<Item>)
    requires forall i :: i in rec ==> Written(i)
    ensures Unquoted(Fields(Record(rec))) == Bares(rec)
  {
    hide Fields, Written, Word;
    QuotesAre(rec);
    if rec == [] {
      EmptyRecord();
    } else {
      FieldsOfJoin(Quotes(rec));
    }
  }

  lemma EmptyRecord()
    ensures Unquoted(Fields(Record([]))) == [] && Bares([]) == []
  {
    assert Record([]) == "";
    assert Fields("") == [];
  }

  lemma NoRecords()
    ensures Tokens(Records([])) == [] && Bares(Items([])) == []
  {
  }

  lemma {:induction false} BaresConcat(a: seq<Item>, b: seq<Item>)
    ensures Bares(a + b) == Bares(a) + Bares(b)
  {
    if b == [] {
      assert a + b == a;
    } else {
      assert (a + b)[..|a + b| - 1] == a + b[..|b| - 1];
      BaresConcat(a, b[..|b| - 1]);
    }
  }

  /** The tokens of a domain's records are its words, quotes gone, in order. */
  lemma {:induction false} TokensAre(recs: seq<seq<Item>>)
    requires forall rec, i :: rec in recs && i in rec ==> Written(i)
    ensures Tokens(Records(recs)) == Bares(Items(recs))
  {
    hide Written, Record, Fields, Bares, Unquoted, Tokens;
    if recs == [] {
      NoRecords();
    } else {
      var n := |recs| - 1;
      assert recs == recs[..n] + [recs[n]] && recs[n] in recs;
      assert forall rec :: rec in recs[..n] ==> rec in recs;
      TokensAre(recs[..n]);
      RecordReads(recs[n]);
      BaresConcat(Items(recs[..n]), recs[n]);
      assert Records(recs) == Records(recs[..n]) + [Record(recs[n])];
      TokensSnoc(Records(recs[..n]), Record(recs[n]));
    }
  }

  lemma TokensSnoc(records: seq<string>, rec: string)
    ensures Tokens(records + [rec]) == Tokens(records) + Unquoted(Fields(rec))
  {
    hide Fields, Unquoted;
    assert (records + [rec])[..|records|] == records;
  }

  lemma {:induction false} BaresIn(rec: seq<Item>)
    ensures forall w :: w in Bares(rec) <==> exists i :: i in rec && Bare(i) == w
  {
    hide Bare;
    if rec != [] {
      var n := |rec| - 1;
      assert rec == rec[..n] + [rec[n]];
      BaresIn(rec[..n]);
    }
  }

  // ---------- edges ----------

  /** `b` is listed as an include of `a`. */
  ghost predicate Includes(g: Domains, a: string, b: string) {
    a in g && exists i :: i in Items(g[a]) && i.Include? && i.domain == b
  }

  lemma {:induction false} ItemsWritten(recs: seq<seq<Item>>)
    requires forall rec, i :: rec in recs && i in rec ==> Written(i)
    ensures forall i :: i in Items(recs) ==> Written(i)
  {
    hide Written;
    if recs != [] {
      var n := |recs| - 1;
      assert recs[n] in recs && forall rec :: rec in recs[..n] ==> rec in recs;
      ItemsWritten(recs[..n]);
    }
  }

  /** The include edges of the zone are the listed includes. */
  lemma EdgeIff(g: Domains, a: string, b: string)
    requires AllWritten(g)
    ensures Edge(ZoneOf(g), a, b) <==> Includes(g, a, b)
  {
    hide Written, Target, Bare, Tokens, Records, Bares, Items;
    if a in g {
      TokensAre(g[a]);
      ItemsWritten(g[a]);
      BaresIn(Items(g[a]));
      forall i | i in Items(g[a]) ensures Target(Bare(i)) == if i.Include? then Some(i.domain) else None {
        TargetIs(i);
      }
    }
  }

  // ---------- reachability ----------

  /** A way from the first domain of the list to the last along listed includes. */
  ghost predicate Way(g: Domains, way: seq<string>) {
    way != [] && forall i, j :: 0 <= i < j < |way| && j == i + 1 ==> Includes(g, way[i], way[j])
  }

  ghost predicate Reaches(g: Domains, a: string, b: string) {
    exists way :: Way(g, way) && way[0] == a && way[|way| - 1] == b
  }

  lemma {:induction false} WalkIsWay(g: Domains, q: seq<string>, d: string)
    requires AllWritten(g)
    ensures Walk(ZoneOf(g), q, d) <==> Way(g, q + [d])
  {
    hide Edge, Includes, AllWritten, ZoneOf;
    if q == [] {
      assert q + [d] == [d];
    } else {
      var n := |q| - 1;
      var way := q + [d];
      WalkIsWay(g, q[..n], q[n]);
      EdgeIff(g, q[n], d);
      assert q[..n] + [q[n]] == q;
      assert way[n] == q[n] && way[n + 1] == d;
      if Way(g, way) {
        assert forall i, j :: 0 <= i < j < |q| && j == i + 1 ==> way[i] == q[i] && way[j] == q[j];
      }
      if Way(g, q) && Includes(g, q[n], d) {
        forall i, j | 0 <= i < j < |way| && j == i + 1 ensures Includes(g, way[i], way[j]) {
          if j < |q| {
            assert Includes(g, q[i], q[j]);
          }
        }
      }
    }
  }

  lemma ReachableIff(g: Domains, a: string, b: string)
    requires AllWritten(g)
    ensures Reachable(ZoneOf(g), a, b) <==> Reaches(g, a, b)
  {
    hide Walk, Includes, AllWritten, ZoneOf;
    if Reachable(ZoneOf(g), a, b) {
      if a == b {
        assert Way(g, [a]);
      } else {
        var q :| q != [] && q[0] == a && Walk(ZoneOf(g), q, b);
        WalkIsWay(g, q, b);
        assert (q + [b])[0] == a && (q + [b])[|q + [b]| - 1] == b;
      }
    }
    if way :| Way(g, way) && way[0] == a && way[|way| - 1] == b {
      var n := |way| - 1;
      assert way == way[..n] + [way[n]];
      if n > 0 {
        WalkIsWay(g, way[..n], b);
        assert way[..n][0] == a;
      }
    }
  }

  // ---------- ranges ----------

  /** The words of a domain that are no includes and pass the address check, each as often as it is listed. */
  function Listed(items: seq<Item>): multiset<string> {
    if items == [] then multiset{}
    else
      var n := |items| - 1;
      Listed(items[..n]) +
      (if items[n].Other? && ValidateCIDR(items[n].text).Some? then multiset{items[n].text} else multiset{})
  }

  lemma {:induction false} RangesAre(items: seq<Item>)
    requires forall i :: i in items ==> Written(i)
    ensures Ranges(Bares(items)) == Listed(items)
  {
    hide Written, Target, ValidateCIDR;
    if items != [] {
      var n := |items| - 1;
      assert items == items[..n] + [items[n]] && items[n] in items;
      RangesAre(items[..n]);
      TargetIs(items[n]);
      RangesSnoc(Bares(items[..n]), Bare(items[n]));
    }
  }

  /** The ranges of the listed domains together. */
  function ListedIn(g: Domains, domains: seq<string>): multiset<string> {
    if domains == [] then multiset{}
    else
      var n := |domains| - 1;
      ListedIn(g, domains[..n]) + (if domains[n] in g then Listed(Items(g[domains[n]])) else multiset{})
  }

  lemma {:induction false} RangesOfAre(g: Domains, domains: seq<string>)
    requires AllWritten(g)
    ensures RangesOf(ZoneOf(g), domains) == ListedIn(g, domains)
  {
    hide Written, Ranges, Tokens, Records, Listed, Items;
    if domains != [] {
      var n := |domains| - 1;
      RangesOfAre(g, domains[..n]);
      if domains[n] in g {
        TokensAre(g[domains[n]]);
        ItemsWritten(g[domains[n]]);
        RangesAre(Items(g[domains[n]]));
      }
    }
  }

  /** Every domain the root reaches in the graph, once. */
  ghost predicate Covers(g: Domains, root: string, domains: seq<string>) {
    && (forall i, j ::
      0 <= i < j < |domains| ==> domains[i] != domains[j])
      && (forall d :: d in domains <==> Reaches(g, root, d))
  }

  /**
   What ResolveTXT promises, said of the graph: a success returns exactly the listed valid ranges of the domains that
   the root reaches, each domain counted once, and all of those have records; a failure names a reached domain that has
   none, or one behind a chain of eleven includes.
   */
  lemma ResolvedInGraph(g: Domains, root: string, r: Result<seq<string>, ResolveError>, domains: seq<string>)
    requires AllWritten(g)
    requires r.Ok? ==> ListsReachable(ZoneOf(g), root, domains) && multiset(r.value) == RangesOf(ZoneOf(g), domains)
    requires r.Ok? ==> forall d :: Reachable(ZoneOf(g), root, d) ==> d in ZoneOf(g)
    requires r.Err? ==> match r.error
                        case LookupFailed(d) => d !in ZoneOf(g) && Reachable(ZoneOf(g), root, d)
                        case TooDeep(d) => TooDeepChain(ZoneOf(g), root, d)
    ensures r.Ok? ==> Covers(g, root, domains) && multiset(r.value) == ListedIn(g, domains)
    ensures r.Ok? ==> forall d :: Reaches(g, root, d) ==> d in g
    ensures r.Err? ==> match r.error
                       case LookupFailed(d) => d !in g && Reaches(g, root, d)
                       case TooDeep(d) => exists way ::
                         |way| == 12 && Way(g, way) && NoRepeat(way[..11])
                         && way[0] == root && way[11] == d
  {
    hide Written, Reachable, Reaches, Walk, Way, Records, RangesOf, ListedIn, AllWritten;
    forall d ensures Reachable(ZoneOf(g), root, d) <==> Reaches(g, root, d) {
      ReachableIff(g, root, d);
    }
    RangesOfAre(g, domains);
    if r.Err? && r.error.TooDeep? {
      var d := r.error.domain;
      var q :| |q| == MAX_DEPTH + 1 && q[0] == root && NoRepeat(q) && Walk(ZoneOf(g), q, d);
      WalkIsWay(g, q, d);
      assert (q + [d])[..11] == q;
      assert |q + [d]| == 12 && (q + [d])[0] == root && (q + [d])[11] == d;
    }
  }
}
