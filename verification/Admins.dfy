/**
 The operator's address list: how the CLI parses it, and what becomes of it on the node.
 */
module Admins {
  import opened Wrappers
  import opened Text
  import opened Cidr
  import opened Nft
  import opened Registry
  import opened Policy
  import opened State
  import opened Refreshing
  import opened Watchdog

  function NonBlank(parts: seq<string>): seq<string> {
    if parts == [] then []
    else
      var n := |parts| - 1;
      NonBlank(parts[..n]) + (if TrimSpace(parts[n]) != "" then [parts[n]] else [])
  }

  lemma NonBlankStep(parts: seq<string>, part: string)
    ensures NonBlank(parts + [part]) == if TrimSpace(part) != "" then NonBlank(parts) + [part] else NonBlank(parts)
  {
    hide Trim;
    assert (parts + [part])[..|parts|] == parts;
  }

  lemma {:induction false} BadStays(parts: seq<string>, k: nat)
    requires k <= |parts| && FirstBad(NonBlank(parts[..k])).Some?
    ensures FirstBad(NonBlank(parts)) == FirstBad(NonBlank(parts[..k]))
  {
    hide Meaning, Trim, FirstBad, NonBlank;
    if k == |parts| {
      assert parts[..k] == parts;
    } else {
      var n := |parts| - 1;
      assert parts[..n][..k] == parts[..k] && parts == parts[..n] + [parts[n]];
      BadStays(parts[..n], k);
      NonBlankStep(parts[..n], parts[n]);
      FamilyStep(NonBlank(parts[..n]), parts[n]);
    }
  }

  ghost predicate IsOf(part: string, v6: bool) { Meaning(part).Some? && Meaning(part).value.v6 == v6 }

  /** The list holds exactly the normalised addresses of one family among the parts. */
  ghost predicate ReadsAll(parts: seq<string>, list: seq<string>, v6: bool) {
    && (forall part :: part in parts && IsOf(part, v6) ==> NormalizeCIDR(part) in list)
    && (forall ip :: ip in list ==> exists part :: part in parts && IsOf(part, v6) && NormalizeCIDR(part) == ip)
  }

  lemma {:induction false} NonBlankMembers(parts: seq<string>)
    ensures forall part :: part in NonBlank(parts) <==> part in parts && TrimSpace(part) != ""
  {
    hide Trim;
    if parts != [] {
      NonBlankMembers(parts[..|parts| - 1]);
    }
  }

  lemma {:induction false} FamilyReads(parts: seq<string>, v6: bool)
    ensures ReadsAll(parts, Family(parts, v6), v6)
  {
    hide Meaning, NormalizeCIDR;
    if parts != [] {
      FamilyReads(parts[..|parts| - 1], v6);
    }
  }

  lemma {:induction false} FirstBadIs(parts: seq<string>)
    ensures FirstBad(parts).None? <==> forall part :: part in parts ==> Meaning(part).Some?
    ensures FirstBad(parts).Some? ==> FirstBad(parts).value in parts && Meaning(FirstBad(parts).value).None?
  {
    hide Meaning;
    if parts != [] {
      FirstBadIs(parts[..|parts| - 1]);
    }
  }

  lemma MeaningIsNotBlank(part: string)
    requires Meaning(part).Some?
    ensures TrimSpace(part) != ""
  {
    hide Meaning, Trim;
    if TrimSpace(part) == "" {
      BlankMeansNothing(part);
    }
  }

  lemma BlankMeansNothing(part: string)
    requires TrimSpace(part) == ""
    ensures Meaning(part).None?
  {
    assert ParseQuad("").None?;
  }

  lemma ReadsMore(few: seq<string>, all: seq<string>, list: seq<string>, v6: bool)
    requires ReadsAll(few, list, v6) && forall part :: part in few <==> part in all && TrimSpace(part) != ""
    ensures ReadsAll(all, list, v6)
  {
    hide Meaning, Trim, NormalizeCIDR;
    forall part | part in all && Meaning(part).Some? ensures part in few {
      MeaningIsNotBlank(part);
    }
  }

  /** What the lists of a comma-separated text hold, part by part. */
  lemma ReadsParts(raw: string)
    ensures var parts, few := Split(raw, ','), NonBlank(Split(raw, ','));
            && ReadsAll(parts, Family(few, false), false) && ReadsAll(parts, Family(few, true), true)
            && (FirstBad(few).None? ==> forall part ::
              part in parts ==> TrimSpace(part) == "" || Meaning(part).Some?)
              && (FirstBad(few).Some? ==> var bad := FirstBad(few).value;
                                        bad in parts && TrimSpace(bad) != "" && Meaning(bad).None?)
    ensures TrimSpace(raw) == "" ==> NonBlank(Split(raw, ',')) == []
  {
    hide Meaning, Trim, NormalizeCIDR, Family, FirstBad, NonBlank, ReadsAll, Split;
    var parts := Split(raw, ',');
    var few := NonBlank(parts);
    NonBlankMembers(parts);
    FamilyReads(few, false);
    FamilyReads(few, true);
    FirstBadIs(few);
    ReadsMore(few, parts, Family(few, false), false);
    ReadsMore(few, parts, Family(few, true), true);
    if TrimSpace(raw) == "" {
      BlankIsOnePart(raw);
    }
  }

  lemma BlankIsOnePart(raw: string)
    requires TrimSpace(raw) == ""
    ensures NonBlank(Split(raw, ',')) == []
  {
    hide Trim, Split;
    BlankIsSpaces(raw);
    SplitWhole(raw, ',');
    assert [raw][..0] == [];
  }

  lemma BlankIsSpaces(s: string)
    requires TrimSpace(s) == ""
    ensures Free(s, ',')
  {
    BlankOnlySpaces(s);
    assert !IsSpace(',');
  }

  /** Comma-separated addresses, blanks skipped, normalised and split by family; the first bad one is the error. */
  method ParseAdminIPs(raw: string) returns (r: Result<(seq<string>, seq<string>), string>)
    ensures var parts := NonBlank(Split(raw, ','));
            r == if TrimSpace(raw) != "" && FirstBad(parts).Some? then Err(FirstBad(parts).value)
                 else if TrimSpace(raw) == "" then Ok(([], []))
                 else Ok((Family(parts, false), Family(parts, true)))
    ensures r.Err? ==> r.error in Split(raw, ',') && TrimSpace(r.error) != "" && Meaning(r.error).None?
    ensures r.Ok? ==> ReadsAll(Split(raw, ','), r.value.0, false) && ReadsAll(Split(raw, ','), r.value.1, true)
    ensures r.Ok? ==> forall part :: part in Split(raw, ',') ==> TrimSpace(part) == "" || Meaning(part).Some?
  {
    hide Meaning, NormalizeCIDR, Family, FirstBad, NonBlank, Split, Trim, InFamily, ReadsAll;
    ReadsParts(raw);
    if TrimSpace(raw) == "" {
      FamilyEmpty();
      return Ok(([], []));
    }
    var parts := Split(raw, ',');
    var admin4, admin6: seq<string> := [], [];
    FamilyEmpty();
    NonBlankEmpty();
    var i := 0;
    while i < |parts|
      invariant 0 <= i <= |parts|
      invariant FirstBad(NonBlank(parts[..i])).None?
      invariant admin4 == Family(NonBlank(parts[..i]), false) && admin6 == Family(NonBlank(parts[..i]), true)
    {
      assert parts[..i + 1] == parts[..i] + [parts[i]];
      NonBlankStep(parts[..i], parts[i]);
      if TrimSpace(parts[i]) != "" {
        var ip, v6 := NormalizeAndCheck(parts[i]);
        FamilyStep(NonBlank(parts[..i]), parts[i]);
        InFamilyIs(parts[i]);
        if v6.None? {
          BadStays(parts, i + 1);
          return Err(parts[i]);
        }
        if v6.value {
          admin6 := admin6 + [ip];
        } else {
          admin4 := admin4 + [ip];
        }
      }
      i := i + 1;
    }
    assert parts[..i] == parts;
    return Ok((admin4, admin6));
  }

  lemma NonBlankEmpty()
    ensures NonBlank([]) == []
  {
  }

  lemma InFamilyIs(raw: string)
    ensures forall v6 :: InFamily(raw, v6) <==> Meaning(raw).Some? && Meaning(raw).value.v6 == v6
  {
    hide Meaning;
  }

  // ---------- on the node ----------

  lemma {:induction false} FileOfStored(list: seq<string>, v6: bool)
    requires forall x :: x in list ==> Stored(x, v6)
    ensures FileWords(list) == list && Elements(list, v6)
  {
    hide Stored, Fields, Word, InFamily;
    if list != [] {
      var n := |list| - 1;
      assert list == list[..n] + [list[n]] && list[n] in list;
      FileOfStored(list[..n], v6);
      StoredText(list[n], v6);
      FieldsOne(list[n]);
      StoredInFamily(list[n], v6);
    }
  }

  lemma StoredInFamily(ip: string, v6: bool)
    requires Stored(ip, v6)
    ensures InFamily(ip, v6)
  {
  }

  lemma BlankFile()
    ensures FileWords([""]) == []
  {
    assert [""][..0] == [];
  }

  function AdminList(cfg: Config, v6: bool): seq<string> { if v6 then cfg.admin6 else cfg.admin4 }

  /**
   From the command line to the repair: the element file written for a parsed admin list reads back as that list, and if
   its set ever disappears or is emptied the watchdog restores it if and only if the list has at most one address.
   */
  lemma ParsedAdminsHeal(raws: seq<string>, cfg: Config, before: Node, s: Node, w: WatchEnv, v6: bool)
    requires AdminList(cfg, v6) == Family(raws, v6) && AdminFile(s, v6) == AdminFile(Prepare(before, cfg), v6)
    requires AdminName(v6) in s.sets ==> s.sets[AdminName(v6)] == {}
    ensures Holds(Watch(s, w).sets, AdminName(v6), Members(AdminList(cfg, v6))) <==> |AdminList(cfg, v6)| <= 1
  {
    hide Family, Watch, Stored, Elements, FileWords, Holds;
    var list := AdminList(cfg, v6);
    FamilyStored(raws, v6);
    FileOfStored(list, v6);
    BlankFile();
    NoElements(v6);
    var lines := if list == [] then [""] else list;
    assert AdminFile(s, v6) == Some(lines);
    WatchRestoresAdminSet(s, w, v6, lines);
  }

  lemma NoElements(v6: bool)
    ensures Elements([], v6)
  {
  }
}
