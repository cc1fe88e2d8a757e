/**
 The daily refresh: the classification loop, the all-or-nothing replacement of the provider sets,
 and what the self-heal step can and cannot bring back.
 */
module Refreshing {
  import opened Wrappers
  import opened Text
  import opened Cidr
  import opened Nft
  import opened Registry
  import opened State

  // ---------- the classification loop ----------

  /** `sort -u`, up to the order of the lines. */
  function Unique(words: seq<string>): seq<string> {
    if words == [] then []
    else
      var n := |words| - 1;
      var u := Unique(words[..n]);
      if words[n] in u then u else u + [words[n]]
  }

  ghost predicate AllDifferent(s: seq<string>) {
    forall i, j :: 0 <= i < j < |s| ==> s[i] != s[j]
  }

  lemma {:induction false} UniqueMembers(words: seq<string>)
    ensures AllDifferent(Unique(words))
    ensures forall w :: w in Unique(words) <==> w in words
  {
    if words != [] {
      UniqueMembers(words[..|words| - 1]);
    }
  }

  function Members(s: seq<string>): set<string> { set w | w in s }

  lemma {:induction false} CountDifferent(s: seq<string>)
    requires AllDifferent(s)
    ensures |Members(s)| == |s|
  {
    if s != [] {
      var n := |s| - 1;
      CountDifferent(s[..n]);
      assert s == s[..n] + [s[n]];
      assert Members(s) == Members(s[..n]) + {s[n]};
      assert s[n] !in Members(s[..n]);
    }
  }

  /** The body of `update` up to the count: tmp4 and tmp6, line by line. */
  method Classify(text: string) returns (v4: seq<string>, v6: seq<string>)
    ensures Members(v4) == Accepted4(text) && |v4| == |Accepted4(text)|
    ensures Members(v6) == Accepted6(text) && |v6| == |Accepted6(text)|
  {
    hide ColonShape, Cidr4, Cidr6, Fields;
    var lines := Unique(Fields(text));
    UniqueMembers(Fields(text));
    v4, v6 := [], [];
    var i := 0;
    while i < |lines|
      invariant 0 <= i <= |lines|
      invariant AllDifferent(v4) && AllDifferent(v6)
      invariant forall w :: w in v4 <==> w in lines[..i] && !ColonShape(w) && Cidr4(w)
      invariant forall w :: w in v6 <==> w in lines[..i] && ColonShape(w) && Cidr6(w)
    {
      assert lines[..i + 1] == lines[..i] + [lines[i]];
      assert lines[i] !in lines[..i];
      if ColonShape(lines[i]) {
        if Cidr6(lines[i]) {
          v6 := v6 + [lines[i]];
        }
      } else {
        if Cidr4(lines[i]) {
          v4 := v4 + [lines[i]];
        }
      }
      i := i + 1;
    }
    assert lines[..i] == lines;
    assert Members(v4) == Accepted4(text);
    assert Members(v6) == Accepted6(text);
    CountDifferent(v4);
    CountDifferent(v6);
  }

  // ---------- all or nothing ----------

  ghost predicate Holds(sets: Sets, name: SetName, elements: set<string>) {
    name in sets && sets[name] == elements
  }

  ghost predicate AdminKept(before: Sets, after: Sets) {
    forall name :: (name == Admin4 || name == Admin6) && name in before ==> name in after && before[name] <= after[name]
  }

  ghost predicate AllowKept(before: Sets, after: Sets) {
    forall name ::
      name == Allow4 || name == Allow6
      ==> (name in before <==> name in after) && (name in before ==> after[name] == before[name])
  }

  lemma HealTouchesOnlyEmpty(sets: Sets, name: SetName, file: Option<seq<string>>)
    ensures HealSet(sets, name, file).Keys == sets.Keys
    ensures forall n :: n in sets && (n != name || sets[n] != {}) ==> HealSet(sets, name, file)[n] == sets[n]
  {
    hide ElementList, Join, FileWords;
  }

  lemma SelfHealKeeps(s: Node)
    ensures AdminKept(s.sets, SelfHeal(s).sets) && AllowKept(s.sets, SelfHeal(s).sets)
    ensures SelfHeal(s).sets.Keys == s.sets.Keys
  {
    hide HealSet;
    HealTouchesOnlyEmpty(s.sets, Admin4, s.admin4);
    HealTouchesOnlyEmpty(HealSet(s.sets, Admin4, s.admin4), Admin6, s.admin6);
  }

  /** A refresh replaces both provider sets by exactly what it accepted, at least four texts, or leaves both alone. */
  lemma RefreshIsAllOrNothing(s: Node, text: string, loads: bool, now: int)
    ensures var t := Refresh(s, text, loads, now);
            && AdminKept(s.sets, t.sets)
            && (if RefreshOk(s, text, loads)
                then Holds(t.sets, Allow4, Accepted4(text)) && Holds(t.sets, Allow6, Accepted6(text))
                     && |Accepted4(text)| + |Accepted6(text)| >= 4 && t.lastSync == Some(now)
                else AllowKept(s.sets, t.sets) && t.lastSync == s.lastSync)
            && t == s.(sets := t.sets, lastSync := t.lastSync)
  {
    hide Accepted4, Accepted6, SelfHeal;
    SelfHealKeeps(s);
    HealOnlySets(s);
  }

  lemma HealOnlySets(s: Node)
    ensures SelfHeal(s) == s.(sets := SelfHeal(s).sets)
    ensures forall text, loads :: RefreshOk(SelfHeal(s), text, loads) <==> RefreshOk(s, text, loads)
  {
    SelfHealKeeps(s);
  }

  /** What gets into allow4 is canonical, denotes a prefix, and passes the Go check as IPv4. */
  lemma AcceptedDenotes(text: string)
    ensures forall t :: t in Accepted4(text) ==> Meaning(t).Some? && ValidateCIDR(t) == Some(false)
  {
    forall t | t in Accepted4(text) ensures Meaning(t).Some? && ValidateCIDR(t) == Some(false) {
      Cidr4PassesGoCheck(t);
    }
  }

  // ---------- what self-heal restores ----------

  lemma MeaningHasNoSpace(raw: string)
    requires Meaning(raw).Some?
    ensures NoSpace(TrimSpace(raw)) && Free(TrimSpace(raw), ',')
  {
    hide Meaning;
    NormalizedText(raw);
    var s, n := TrimSpace(raw), NormalizeCIDR(raw);
    assert s <= n;
    assert forall c :: c in s ==> c in n;
  }

  lemma WordTrims(w: string)
    requires Word(w)
    ensures TrimSpace(w) == w
  {
    TrimKeeps(w, SPACES);
  }

  ghost predicate Elements(words: seq<string>, v6: bool) {
    forall w :: w in words ==> Word(w) && InFamily(w, v6)
  }

  lemma ElementText(w: string, v6: bool)
    requires Word(w) && InFamily(w, v6)
    ensures Free(w, ',') && TrimSpace(w) == w
  {
    hide Meaning;
    WordTrims(w);
    MeaningHasNoSpace(w);
  }

  /** A comma-separated list of addresses is read as exactly those addresses. */
  lemma CommaListReads(words: seq<string>, v6: bool)
    requires words != [] && Elements(words, v6)
    ensures ElementList(Join(words, ','), v6) == Some(Members(words))
  {
    hide InFamily, Word;
    forall i | 0 <= i < |words| ensures Free(words[i], ',') && TrimSpace(words[i]) == words[i] {
      ElementText(words[i], v6);
    }
    SplitJoin(words, ',');
    assert forall w :: w in words ==> TrimSpace(w) == w;
    assert (set i | i in words :: TrimSpace(i)) == Members(words);
  }

  lemma {:induction false} JoinedEnds(words: seq<string>)
    requires words != [] && forall w :: w in words ==> Word(w)
    ensures var v := Join(words, ' ');
            v != "" && !IsSpace(v[0]) && !IsSpace(v[|v| - 1]) && (|words| >= 2 ==> ' ' in v)
  {
    var n := |words| - 1;
    assert words == words[..n] + [words[n]] && words[n] in words;
    if n > 0 {
      JoinedEnds(words[..n]);
      JoinSnoc(words[..n], words[n], ' ');
      var v := Join(words, ' ');
      assert v[|Join(words[..n], ' ')|] == ' ';
    }
  }

  /** Two or more addresses separated by blanks are not an element list. */
  lemma BlankListFails(words: seq<string>, v6: bool)
    requires |words| >= 2 && Elements(words, v6)
    ensures ElementList(Join(words, ' '), v6) == None
  {
    hide InFamily, Word, Join;
    var v := Join(words, ' ');
    forall i | 0 <= i < |words| ensures Free(words[i], ',') {
      ElementText(words[i], v6);
    }
    JoinFree(words, ' ', ',');
    SplitWhole(v, ',');
    JoinedEnds(words);
    TrimKeeps(v, SPACES);
    if InFamily(v, v6) {
      InFamilyMeans(v, v6);
      MeaningHasNoSpace(v);
    }
  }

  lemma InFamilyMeans(v: string, v6: bool)
    requires InFamily(v, v6)
    ensures Meaning(v).Some?
  {
  }

  /** An emptied admin set comes back with exactly its element file if and only if the file has at most one address. */
  lemma HealRestoresAtMostOne(sets: Sets, name: SetName, lines: seq<string>)
    requires Holds(sets, name, {}) && Elements(FileWords(lines), SetIsV6(name))
    ensures Holds(HealSet(sets, name, Some(lines)), name, Members(FileWords(lines))) <==> |FileWords(lines)| <= 1
    ensures |FileWords(lines)| > 1 ==> HealSet(sets, name, Some(lines)) == sets
  {
    hide InFamily, Word, ElementList;
    var words := FileWords(lines);
    if |words| == 1 {
      CommaListReads(words, SetIsV6(name));
      assert Join(words, ' ') == words[0] == Join(words, ',');
      assert words[0] in words;
      WordNotEmpty(words[0]);
    } else if |words| >= 2 {
      BlankListFails(words, SetIsV6(name));
      assert words[0] in Members(words);
    }
  }

  lemma WordNotEmpty(w: string)
    requires Word(w)
    ensures w != ""
  {
  }

  lemma PrintedElement(bits: nat)
    requires bits < 0x1_0000_0000
    ensures var w := Print4(bits, Some(32)); Word(w) && InFamily(w, false) && Fields(w) == [w]
  {
    hide Print4, Cidr4, Fields;
    var w := Print4(bits, Some(32));
    PrintedIsAccepted(bits, Some(32));
    AcceptedWord(w);
    FieldsOne(w);
  }

  /** A concrete loss: an element file holding 203.0.113.10/32 and 203.0.113.11/32 is not restored. */
  lemma TwoAdminsStayLost(sets: Sets)
    requires Holds(sets, Admin4, {})
    ensures var file := [Print4(0xCB00_710A, Some(32)), Print4(0xCB00_710B, Some(32))];
            HealSet(sets, Admin4, Some(file)) == sets
  {
    hide Print4, Word, InFamily, HealSet, Fields;
    var a, b := Print4(0xCB00_710A, Some(32)), Print4(0xCB00_710B, Some(32));
    PrintedElement(0xCB00_710A);
    PrintedElement(0xCB00_710B);
    TwoLines(a, b);
    HealRestoresAtMostOne(sets, Admin4, [a, b]);
  }

  lemma TwoLines(a: string, b: string)
    requires Fields(a) == [a] && Fields(b) == [b]
    ensures FileWords([a, b]) == [a, b]
  {
    hide Fields;
    assert [a, b][..1] == [a] && [a][..0] == [];
    assert FileWords([a]) == [a];
  }
}
