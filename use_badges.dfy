/**
 * The per-user badge view: the join of a user's awards against the badge
 * definitions they reference (`useUserAwardedBadges`) and the acceptance
 * flags, display order and sort that turn the joined badges into the list
 * the profile manager shows (`useUserBadges`). The relay queries are taken
 * as given: the award events and definition events are inputs.
 */
module UseBadges {
  import opened Wrappers
  import opened Strings
  import opened Seqs
  import opened Sorting
  import opened BadgeTypes
  import opened BadgeUtils

  // ---------------------------------------------------------------------
  // Definition references and the per-issuer query groups

  /**
   * The coordinate an award contributes to the definition queries: its
   * first `a` value, when present, non-empty, three-part and of kind 30009.
   */
  function AwardDefinitionRef(award: Event): (r: Option<ATagRef>)
    ensures r.Some? <==> && Truthy(GetTagValue(award, "a"))
                         && ParseATagIdentifier(GetTagValue(award, "a").value).Some?
                         && ParseATagIdentifier(GetTagValue(award, "a").value).value.kind == Some(BadgeDefinitionKind)
    ensures r.Some? ==> r == ParseATagIdentifier(GetTagValue(award, "a").value)
  {
    var aTag := GetTagValue(award, "a");
    if !Truthy(aTag) then None
    else
      var parsed := ParseATagIdentifier(aTag.value);
      if parsed.Some? && parsed.value.kind == Some(BadgeDefinitionKind) then parsed else None
  }

  /** The coordinates of all awards, in award order, skipping those that contribute none. */
  function DefinitionRefs(awards: seq<Event>): (r: seq<ATagRef>)
    ensures |r| <= |awards|
    ensures forall k :: 0 <= k < |r| ==> r[k].kind == Some(BadgeDefinitionKind)
    ensures forall k :: 0 <= k < |r| ==> exists i :: 0 <= i < |awards| && AwardDefinitionRef(awards[i]) == Some(r[k])
  {
    if awards == [] then []
    else
      var rest := DefinitionRefs(awards[1..]);
      assert forall i :: 0 < i < |awards| ==> awards[i] == awards[1..][i - 1];
      match AwardDefinitionRef(awards[0])
      case None => rest
      case Some(ref) => [ref] + rest
  }

  /** References keep award order: the collection distributes over concatenation. */
  lemma {:induction false} DefinitionRefsAppend(a1: seq<Event>, a2: seq<Event>)
    ensures DefinitionRefs(a1 + a2) == DefinitionRefs(a1) + DefinitionRefs(a2)
    decreases |a1|
  {
    if a1 == [] {
      assert a1 + a2 == a2;
    } else {
      var a := a1 + a2;
      assert a[0] == a1[0];
      assert a[1..] == a1[1..] + a2;
      DefinitionRefsAppend(a1[1..], a2);
    }
  }

  /** The identifiers referenced under `pubkey`, in reference order. */
  function SlugsOf(refs: seq<ATagRef>, pubkey: string): (r: seq<string>)
    ensures |r| <= |refs|
    ensures forall k :: 0 <= k < |r| ==> exists i :: 0 <= i < |refs| && refs[i].pubkey == pubkey && refs[i].identifier == r[k]
    ensures r == [] <==> forall i :: 0 <= i < |refs| ==> refs[i].pubkey != pubkey
  {
    if refs == [] then []
    else
      var init := refs[..|refs| - 1];
      var last := refs[|refs| - 1];
      assert forall i :: 0 <= i < |init| ==> init[i] == refs[i];
      SlugsOf(init, pubkey) + (if last.pubkey == pubkey then [last.identifier] else [])
  }

  /** Every reference is listed under its own issuer. */
  lemma {:induction false} SlugsOfListsEveryRef(refs: seq<ATagRef>, i: nat)
    requires i < |refs|
    ensures refs[i].identifier in SlugsOf(refs, refs[i].pubkey)
    decreases |refs|
  {
    if i < |refs| - 1 {
      var init := refs[..|refs| - 1];
      assert init[i] == refs[i];
      SlugsOfListsEveryRef(init, i);
    }
  }

  /** The issuers that occur among the references. */
  function Issuers(refs: seq<ATagRef>): (r: set<string>)
    ensures forall pk :: pk in r <==> exists i :: 0 <= i < |refs| && refs[i].pubkey == pk
  {
    set i | 0 <= i < |refs| :: refs[i].pubkey
  }

  /** The query groups: each issuer mapped to the identifiers referenced under it. */
  function IssuerGroups(refs: seq<ATagRef>): (r: map<string, seq<string>>)
    ensures r.Keys == Issuers(refs)
    ensures forall pk :: pk in r ==> r[pk] != [] && r[pk] == SlugsOf(refs, pk)
  {
    map pk | pk in Issuers(refs) :: SlugsOf(refs, pk)
  }

  /**
   * The `reduce` that groups identifiers by issuer, with the accumulator
   * read as a dictionary of its own keys only.
   */
  method GroupByIssuer(refs: seq<ATagRef>) returns (groups: map<string, seq<string>>)
    ensures groups == IssuerGroups(refs)
  {
    groups := map[];
    for i := 0 to |refs|
      invariant groups == IssuerGroups(refs[..i])
    {
      var ref := refs[i];
      GroupByIssuerStep(refs, i, groups);
      if ref.pubkey !in groups {
        groups := groups[ref.pubkey := []];
      }
      groups := groups[ref.pubkey := groups[ref.pubkey] + [ref.identifier]];
    }
    assert refs[..|refs|] == refs;
  }

  /** One turn of the grouping loop: create the issuer's group when missing, then append the identifier. */
  lemma GroupByIssuerStep(refs: seq<ATagRef>, i: nat, groups: map<string, seq<string>>)
    requires i < |refs| && groups == IssuerGroups(refs[..i])
    ensures var ref := refs[i];
            var created := if ref.pubkey !in groups then groups[ref.pubkey := []] else groups;
            created[ref.pubkey := created[ref.pubkey] + [ref.identifier]] == IssuerGroups(refs[..i + 1])
  {
    var ref := refs[i];
    var front := refs[..i + 1];
    assert front[..|front| - 1] == refs[..i] && front[|front| - 1] == ref;
    var created := if ref.pubkey !in groups then groups[ref.pubkey := []] else groups;
    if ref.pubkey !in groups {
      assert SlugsOf(refs[..i], ref.pubkey) == [];
    }
    assert created[ref.pubkey] == SlugsOf(refs[..i], ref.pubkey);
    GroupStep(front, created[ref.pubkey := created[ref.pubkey] + [ref.identifier]]);
  }

  /** The issuers of a list are those of its front plus the last reference's. */
  lemma IssuersStep(refs: seq<ATagRef>)
    requires refs != []
    ensures Issuers(refs) == Issuers(refs[..|refs| - 1]) + {refs[|refs| - 1].pubkey}
  {
    var init := refs[..|refs| - 1];
    assert forall i :: 0 <= i < |init| ==> init[i] == refs[i];
  }

  /** Adding one reference extends its issuer's group and leaves the others alone. */
  lemma GroupStep(refs: seq<ATagRef>, groups: map<string, seq<string>>)
    requires refs != []
    requires var init := refs[..|refs| - 1];
             var last := refs[|refs| - 1];
             groups == IssuerGroups(init)[last.pubkey := SlugsOf(init, last.pubkey) + [last.identifier]]
    ensures groups == IssuerGroups(refs)
  {
    var init := refs[..|refs| - 1];
    var last := refs[|refs| - 1];
    var target := IssuerGroups(refs);
    IssuersStep(refs);
    assert groups.Keys == target.Keys;
    forall pk | pk in groups ensures groups[pk] == target[pk] {
      SlugsOfStep(refs, pk);
      if pk != last.pubkey {
        assert groups[pk] == IssuerGroups(init)[pk];
      }
    }
  }

  /** The group of one issuer after adding the last reference. */
  lemma SlugsOfStep(refs: seq<ATagRef>, pk: string)
    requires refs != []
    ensures SlugsOf(refs, pk) == SlugsOf(refs[..|refs| - 1], pk)
              + (if refs[|refs| - 1].pubkey == pk then [refs[|refs| - 1].identifier] else [])
  {
  }

  /**
   * The names a plain JavaScript object inherits from `Object.prototype`.
   * Reading one of them off the `{}` accumulator yields a function or an
   * object, never `undefined`.
   */
  const ObjectPrototypeKeys: set<string> := {
    "constructor", "hasOwnProperty", "isPrototypeOf", "propertyIsEnumerable",
    "toLocaleString", "toString", "valueOf", "__proto__",
    "__defineGetter__", "__defineSetter__", "__lookupGetter__", "__lookupSetter__"
  }

  /**
   * The grouping `reduce` as written, over a `{}` accumulator: for an issuer
   * key that names an inherited member, `!acc[key]` is false and
   * `acc[key].push` is not a function, so the reduction throws (`None`).
   */
  function GroupByIssuerAsWritten(refs: seq<ATagRef>): (r: Option<map<string, seq<string>>>)
    ensures r.Some? ==> forall pk :: pk in r.value ==> pk !in ObjectPrototypeKeys && |r.value[pk]| > 0
    decreases |refs|
  {
    if refs == [] then Some(map[])
    else
      var last := refs[|refs| - 1];
      match GroupByIssuerAsWritten(refs[..|refs| - 1])
      case None => None
      case Some(acc) =>
        if last.pubkey in acc then Some(acc[last.pubkey := acc[last.pubkey] + [last.identifier]])
        else if last.pubkey in ObjectPrototypeKeys then None
        else Some(acc[last.pubkey := [last.identifier]])
  }

  /** Some coordinate's issuer key names an inherited member of a plain object. */
  predicate HasPrototypeKey(refs: seq<ATagRef>) {
    exists i :: 0 <= i < |refs| && refs[i].pubkey in ObjectPrototypeKeys
  }

  lemma HasPrototypeKeyStep(refs: seq<ATagRef>)
    requires refs != []
    ensures HasPrototypeKey(refs) <==> HasPrototypeKey(refs[..|refs| - 1]) || refs[|refs| - 1].pubkey in ObjectPrototypeKeys
  {
    var init := refs[..|refs| - 1];
    assert forall i :: 0 <= i < |init| ==> init[i] == refs[i];
  }

  /**
   * The reduction as written fails exactly when some issuer key names an
   * inherited member; otherwise it computes the intended groups.
   */
  lemma {:induction false} GroupByIssuerAsWrittenSpec(refs: seq<ATagRef>)
    ensures GroupByIssuerAsWritten(refs).None? <==> HasPrototypeKey(refs)
    ensures GroupByIssuerAsWritten(refs).Some? ==> GroupByIssuerAsWritten(refs).value == IssuerGroups(refs)
    decreases |refs|
  {
    if refs == [] {
      assert IssuerGroups(refs) == map[];
    } else {
      var init := refs[..|refs| - 1];
      var last := refs[|refs| - 1];
      GroupByIssuerAsWrittenSpec(init);
      HasPrototypeKeyStep(refs);
      match GroupByIssuerAsWritten(init)
      case None =>
      case Some(acc) =>
        if last.pubkey in acc {
          GroupStep(refs, acc[last.pubkey := acc[last.pubkey] + [last.identifier]]);
        } else if last.pubkey !in ObjectPrototypeKeys {
          assert last.pubkey !in Issuers(init);
          assert SlugsOf(init, last.pubkey) == [];
          assert SlugsOf(init, last.pubkey) + [last.identifier] == [last.identifier];
          GroupStep(refs, acc[last.pubkey := [last.identifier]]);
        }
    }
  }

  /** A coordinate whose issuer key is `constructor` makes the reduction as written throw. */
  lemma GroupByIssuerAsWrittenThrows()
    ensures var refs := [ATagRef(Some(BadgeDefinitionKind), "constructor", "x")];
            && GroupByIssuerAsWritten(refs).None?
            && IssuerGroups(refs) == map["constructor" := ["x"]]
  {
    var refs := [ATagRef(Some(BadgeDefinitionKind), "constructor", "x")];
    assert refs[..0] == [];
    assert refs[0].pubkey == "constructor";
    assert forall pk :: pk in Issuers(refs) <==> pk == "constructor";
    assert Issuers(refs) == {"constructor"};
    assert SlugsOf(refs, "constructor") == ["x"];
  }

  /**
   * Any user can be sent such a coordinate: a well-formed award naming the
   * issuer `constructor` contributes it to the grouping.
   */
  lemma HostileAwardContributesRef(victim: string)
    ensures var award := Event("award", "attacker", BadgeAwardKind, 0,
                               [["a", CreateATagIdentifier(BadgeDefinitionKind, "constructor", "x")], ["p", victim]], "");
            && IsValidBadgeAward(award)
            && DefinitionRefs([award]) == [ATagRef(Some(BadgeDefinitionKind), "constructor", "x")]
  {
    var award := Event("award", "attacker", BadgeAwardKind, 0,
                       [["a", CreateATagIdentifier(BadgeDefinitionKind, "constructor", "x")], ["p", victim]], "");
    assert HasName(award.tags[0], "a") && HasName(award.tags[1], "p");
    ATagRoundTrip(BadgeDefinitionKind, "constructor", "x");
    assert CreateATagIdentifier(BadgeDefinitionKind, "constructor", "x") != "";
    assert GetTagValue(award, "a") == Some(CreateATagIdentifier(BadgeDefinitionKind, "constructor", "x"));
    assert [award][1..] == [];
  }

  // ---------------------------------------------------------------------
  // The award/definition join

  /** The definition an award's coordinate names: by issuer and first `d` value. */
  function MatchesCoordinate(pubkey: string, identifier: string): (r: Event -> bool)
    ensures forall def :: r(def) ==> def.pubkey == pubkey && HasTag(def.tags, "d")
  {
    (def: Event) => def.pubkey == pubkey && GetTagValue(def, "d") == Some(identifier)
  }

  /**
   * The badge one award contributes: none when its `a` value is missing,
   * empty or not three-part, or when no definition matches; otherwise the
   * first matching definition combined with the award. The coordinate's kind
   * is not compared here.
   */
  function JoinAward(award: Event, definitions: seq<Event>): (r: Option<Badge>)
    ensures r.Some? ==> && r.value.awardEventId == Some(award.id)
                        && r.value.awardId == Some(award.id)
                        && r.value.issuedAt == Some(award.createdAt)
  {
    var aTag := GetTagValue(award, "a");
    if !Truthy(aTag) then None
    else
      match ParseATagIdentifier(aTag.value)
      case None => None
      case Some(parsed) =>
        match FindIndex(definitions, MatchesCoordinate(parsed.pubkey, parsed.identifier))
        case None => None
        case Some(i) =>
          var badge := CombineBadgeInfo(definitions[i], Some(award));
          Some(badge.(awardEventId := Some(award.id)))
  }

  /**
   * An award yields a badge exactly when its coordinate parses and some
   * definition matches it; the badge is then built from the first match.
   */
  lemma JoinAwardSpec(award: Event, definitions: seq<Event>)
    ensures var r := JoinAward(award, definitions);
            r.Some? <==> && Truthy(GetTagValue(award, "a"))
                         && ParseATagIdentifier(GetTagValue(award, "a").value).Some?
                         && var parsed := ParseATagIdentifier(GetTagValue(award, "a").value).value;
                            exists i :: 0 <= i < |definitions| && MatchesCoordinate(parsed.pubkey, parsed.identifier)(definitions[i])
    ensures var r := JoinAward(award, definitions);
            r.Some? ==> var parsed := ParseATagIdentifier(GetTagValue(award, "a").value).value;
                        exists i :: && 0 <= i < |definitions|
                                    && MatchesCoordinate(parsed.pubkey, parsed.identifier)(definitions[i])
                                    && (forall j :: 0 <= j < i ==> !MatchesCoordinate(parsed.pubkey, parsed.identifier)(definitions[j]))
                                    && r.value.info == ProcessBadgeDefinition(definitions[i])
  {
  }

  /** The join of one award against a fixed list of definitions. */
  function JoinWith(definitions: seq<Event>): Event -> Option<Badge> {
    (award: Event) => JoinAward(award, definitions)
  }

  /** The joined badges: at most one per award, in award order. */
  function Join(awards: seq<Event>, definitions: seq<Event>): (r: seq<Badge>)
    ensures |r| <= |awards|
  {
    FilterMap(awards, JoinWith(definitions))
  }

  /** The join keeps award order: it distributes over concatenation of the awards. */
  lemma JoinAppend(a1: seq<Event>, a2: seq<Event>, definitions: seq<Event>)
    ensures Join(a1 + a2, definitions) == Join(a1, definitions) + Join(a2, definitions)
  {
    FilterMapAppend(a1, a2, JoinWith(definitions));
  }

  /** Every joined badge is the badge some award joins to. */
  lemma JoinFromAwards(awards: seq<Event>, definitions: seq<Event>, k: nat)
    requires k < |Join(awards, definitions)|
    ensures exists i :: 0 <= i < |awards| && JoinAward(awards[i], definitions) == Some(Join(awards, definitions)[k])
  {
    FilterMapFrom(awards, JoinWith(definitions));
    var i :| 0 <= i < |awards| && JoinWith(definitions)(awards[i]) == Some(Join(awards, definitions)[k]);
    assert JoinAward(awards[i], definitions) == Some(Join(awards, definitions)[k]);
  }

  /** Every emitted badge carries its award's id as both award ids. */
  lemma JoinedBadgesCarryAwardIds(awards: seq<Event>, definitions: seq<Event>, k: nat)
    requires k < |Join(awards, definitions)|
    ensures var b := Join(awards, definitions)[k];
            b.awardEventId.Some? && b.awardEventId == b.awardId && b.issuedAt.Some?
  {
    JoinFromAwards(awards, definitions, k);
  }

  lemma JoinSingle(award: Event, definitions: seq<Event>)
    ensures Join([award], definitions) == OptionSeq(JoinAward(award, definitions))
  {
    assert [award][1..] == [];
    assert [award][0] == award;
    assert Join([award], definitions) == OptionSeq(JoinWith(definitions)(award)) + FilterMap([], JoinWith(definitions));
  }

  lemma JoinStep(awards: seq<Event>, i: nat, definitions: seq<Event>)
    requires i < |awards|
    ensures Join(awards[..i + 1], definitions) == Join(awards[..i], definitions) + OptionSeq(JoinAward(awards[i], definitions))
  {
    var front := awards[..i];
    var award := awards[i];
    assert awards[..i + 1] == front + [award];
    JoinAppend(front, [award], definitions);
    JoinSingle(award, definitions);
  }

  /** The join loop: pushes the badge of each award that has one. */
  method JoinAwards(awards: seq<Event>, definitions: seq<Event>) returns (badges: seq<Badge>)
    ensures badges == Join(awards, definitions)
  {
    badges := [];
    for i := 0 to |awards|
      invariant badges == Join(awards[..i], definitions)
    {
      var award := awards[i];
      JoinStep(awards, i, definitions);
      var aTag := GetTagValue(award, "a");
      if Truthy(aTag) {
        var parsed := ParseATagIdentifier(aTag.value);
        if parsed.Some? {
          var definition := FindIndex(definitions, MatchesCoordinate(parsed.value.pubkey, parsed.value.identifier));
          if definition.Some? {
            var badge := CombineBadgeInfo(definitions[definition.value], Some(award));
            badge := badge.(awardEventId := Some(award.id));
            badges := badges + [badge];
          }
        }
      }
    }
    assert awards[..|awards|] == awards;
  }

  /**
   * `useUserAwardedBadges`: nothing without a user; otherwise the valid
   * awards joined against the valid definitions, with the per-issuer query
   * groups the definitions were fetched by. The groups are the intended
   * ones; they agree with the reduction as written wherever that one does
   * not throw.
   */
  method UserAwardedBadges(pubkey: Option<string>, awardEvents: seq<Event>, definitionEvents: seq<Event>)
    returns (groups: map<string, seq<string>>, badges: seq<Badge>)
    ensures !Truthy(pubkey) ==> groups == map[] && badges == []
    ensures Truthy(pubkey) ==>
              var awards := Filter(awardEvents, IsValidBadgeAward);
              && groups == IssuerGroups(DefinitionRefs(awards))
              && badges == Join(awards, Filter(definitionEvents, IsValidBadgeDefinition))
    ensures Truthy(pubkey) ==>
              var refs := DefinitionRefs(Filter(awardEvents, IsValidBadgeAward));
              && (GroupByIssuerAsWritten(refs).None? <==> HasPrototypeKey(refs))
              && (GroupByIssuerAsWritten(refs).Some? ==> GroupByIssuerAsWritten(refs).value == groups)
  {
    if !Truthy(pubkey) {
      return map[], [];
    }
    var awards := Filter(awardEvents, IsValidBadgeAward);
    var definitionRefs := DefinitionRefs(awards);
    groups := GroupByIssuer(definitionRefs);
    GroupByIssuerAsWrittenSpec(definitionRefs);
    var definitions := Filter(definitionEvents, IsValidBadgeDefinition);
    badges := JoinAwards(awards, definitions);
  }

  // ---------------------------------------------------------------------
  // Acceptance, order and sort

  /** A badge is accepted when a profile list exists and one of its pairs names the badge's award. */
  predicate IsAccepted(profile: Option<Event>, badge: Badge)
    ensures IsAccepted(profile, badge) <==>
              && profile.Some?
              && var aTags, eTags := GetAllTagValues(profile.value.tags, "a"), GetAllTagValues(profile.value.tags, "e");
                 exists i :: 0 <= i < |aTags| && i < |eTags| && eTags[i] == badge.awardEventId
  {
    if profile.None? then false
    else
      PairedETag(profile.value.tags, badge.awardEventId);
      var refs := PairReferences(profile.value.tags);
      exists i :: 0 <= i < |refs| && refs[i].eTag == badge.awardEventId
  }

  /** Some pair holds `eTag` exactly when that `e` value sits at a position that also has an `a` value. */
  lemma PairedETag(tags: seq<Tag>, eTag: Option<string>)
    ensures (exists i :: 0 <= i < |PairReferences(tags)| && PairReferences(tags)[i].eTag == eTag)
            <==> exists i :: && 0 <= i < |GetAllTagValues(tags, "a")| && i < |GetAllTagValues(tags, "e")|
                             && GetAllTagValues(tags, "e")[i] == eTag
  {
    var refs := PairReferences(tags);
    var aTags, eTags := GetAllTagValues(tags, "a"), GetAllTagValues(tags, "e");
    if i :| 0 <= i < |refs| && refs[i].eTag == eTag {
      assert i < |aTags| && i < |eTags| && eTags[i] == eTag;
    }
    if i :| 0 <= i < |aTags| && i < |eTags| && eTags[i] == eTag {
      assert i < |refs| && refs[i].eTag == eTag;
      assert exists j :: && 0 <= j < |GetAllTagValues(tags, "a")| && j < |GetAllTagValues(tags, "e")|
                             && GetAllTagValues(tags, "e")[j] == eTag;
    }
  }

  /** Each joined badge with its acceptance flag and the default order 0. */
  function WithAcceptance(profile: Option<Event>, badges: seq<Badge>): (r: seq<UserBadge>)
    ensures |r| == |badges|
    ensures forall i :: 0 <= i < |r| ==> r[i] == UserBadge(badges[i], IsAccepted(profile, badges[i]), 0)
  {
    seq(|badges|, i requires 0 <= i < |badges| => UserBadge(badges[i], IsAccepted(profile, badges[i]), 0))
  }

  function HasAwardEvent(eTag: Option<string>): UserBadge -> bool {
    (b: UserBadge) => b.badge.awardEventId == eTag
  }

  /** The effect of one pair on the list: the first badge of that award takes the pair's index as its order. */
  function SetOrder(s: seq<UserBadge>, eTag: Option<string>, index: int): (r: seq<UserBadge>)
    ensures |r| == |s|
    ensures forall k :: 0 <= k < |s| ==> r[k].badge == s[k].badge && r[k].accepted == s[k].accepted
  {
    match FindIndex(s, HasAwardEvent(eTag))
    case None => s
    case Some(k) => s[k := s[k].(order := index)]
  }

  /**
   * Only the first badge of award `eTag` can change, and only its order; when
   * the award is on the list its first badge takes `index`, and otherwise the
   * list is left as it was.
   */
  lemma SetOrderSpec(s: seq<UserBadge>, eTag: Option<string>, index: int)
    ensures var r := SetOrder(s, eTag, index);
            forall k :: 0 <= k < |s| && r[k] != s[k] ==>
              && s[k].badge.awardEventId == eTag && r[k].order == index
              && forall j :: 0 <= j < k ==> s[j].badge.awardEventId != eTag
    ensures var r := SetOrder(s, eTag, index);
            (exists k :: 0 <= k < |s| && s[k].badge.awardEventId == eTag) ==>
              exists k :: 0 <= k < |s| && s[k].badge.awardEventId == eTag && r[k].order == index
    ensures (forall k :: 0 <= k < |s| ==> s[k].badge.awardEventId != eTag) ==> SetOrder(s, eTag, index) == s
  {
    var r := SetOrder(s, eTag, index);
    match FindIndex(s, HasAwardEvent(eTag))
    case None =>
    case Some(k) =>
      assert HasAwardEvent(eTag)(s[k]);
  }

  /** The effect of the whole `forEach` over the pairs, in pair order. */
  function OrdersAssigned(s: seq<UserBadge>, refs: seq<PairedRef>): (r: seq<UserBadge>)
    ensures |r| == |s|
    ensures forall k :: 0 <= k < |r| ==> r[k].badge == s[k].badge && r[k].accepted == s[k].accepted
    decreases |refs|
  {
    if refs == [] then s
    else
      var r := OrdersAssigned(s, refs[..|refs| - 1]);
      SetOrder(r, refs[|refs| - 1].eTag, |refs| - 1)
  }

  /** The last position of a pair naming award `eTag`. */
  function LastRefIndex(refs: seq<PairedRef>, eTag: Option<string>): (r: Option<nat>)
    ensures r.Some? ==> r.value < |refs| && refs[r.value].eTag == eTag
    ensures r.Some? ==> forall j :: r.value < j < |refs| ==> refs[j].eTag != eTag
    ensures r.None? <==> forall j :: 0 <= j < |refs| ==> refs[j].eTag != eTag
    decreases |refs|
  {
    if refs == [] then None
    else if refs[|refs| - 1].eTag == eTag then Some(|refs| - 1)
    else LastRefIndex(refs[..|refs| - 1], eTag)
  }

  /** Two lists with the same badges, position by position, find the same first badge of an award. */
  lemma FindAwardEventSameBadges(s: seq<UserBadge>, t: seq<UserBadge>, eTag: Option<string>)
    requires |s| == |t| && forall k :: 0 <= k < |s| ==> s[k].badge == t[k].badge
    ensures FindIndex(s, HasAwardEvent(eTag)) == FindIndex(t, HasAwardEvent(eTag))
  {
    FindIndexSameAnswers(s, HasAwardEvent(eTag), t, HasAwardEvent(eTag));
  }

  /**
   * The order rule: the first badge of each award takes the index of the
   * last pair naming that award; every other badge keeps its order.
   */
  lemma {:induction false} OrdersAssignedSpec(s: seq<UserBadge>, refs: seq<PairedRef>, k: nat)
    requires k < |s|
    ensures var e := s[k].badge.awardEventId;
            OrdersAssigned(s, refs)[k].order
              == if FindIndex(s, HasAwardEvent(e)) == Some(k) && LastRefIndex(refs, e).Some?
                 then LastRefIndex(refs, e).value as int
                 else s[k].order
    decreases |refs|
  {
    if refs != [] {
      var init := refs[..|refs| - 1];
      var last := refs[|refs| - 1];
      var e := s[k].badge.awardEventId;
      var r := OrdersAssigned(s, init);
      OrdersAssignedSpec(s, init, k);
      FindAwardEventSameBadges(r, s, last.eTag);
      assert OrdersAssigned(s, refs) == SetOrder(r, last.eTag, |refs| - 1);
      if FindIndex(s, HasAwardEvent(last.eTag)) == Some(k) {
        assert HasAwardEvent(last.eTag)(s[k]);
        assert LastRefIndex(refs, e) == Some(|refs| - 1);
      } else {
        assert OrdersAssigned(s, refs)[k] == r[k];
        if last.eTag != e {
          assert LastRefIndex(refs, e) == LastRefIndex(init, e);
        }
      }
    }
  }

  /** The `forEach` that writes each pair's index into the first badge of its award. */
  method AssignOrders(a: array<UserBadge>, refs: seq<PairedRef>)
    modifies a
    ensures a[..] == OrdersAssigned(old(a[..]), refs)
  {
    ghost var s := a[..];
    for index := 0 to |refs|
      invariant a[..] == OrdersAssigned(s, refs[..index])
    {
      var ref := refs[index];
      assert refs[..index + 1][..index] == refs[..index];
      var badgeIndex := FindIndex(a[..], HasAwardEvent(ref.eTag));
      if badgeIndex.Some? {
        a[badgeIndex.value] := a[badgeIndex.value].(order := index);
      }
    }
    assert refs[..|refs|] == refs;
  }

  /** The list before sorting: acceptance flags, then the orders of the profile list's pairs. */
  function Unsorted(profile: Option<Event>, badges: seq<Badge>): (r: seq<UserBadge>)
    ensures |r| == |badges|
    ensures forall i :: 0 <= i < |r| ==> r[i].badge == badges[i] && r[i].accepted == IsAccepted(profile, badges[i])
  {
    var initial := WithAcceptance(profile, badges);
    if profile.None? then initial else OrdersAssigned(initial, PairReferences(profile.value.tags))
  }

  /**
   * What the order pass leaves: an unaccepted badge keeps order 0; an
   * accepted one that is the first of its award takes the index of the last
   * pair naming that award.
   */
  lemma UnsortedOrders(profile: Option<Event>, badges: seq<Badge>, k: nat)
    requires k < |badges|
    ensures var r := Unsorted(profile, badges);
            !r[k].accepted ==> r[k].order == 0
    ensures var r := Unsorted(profile, badges);
            var e := badges[k].awardEventId;
            r[k].accepted && FindIndex(r, HasAwardEvent(e)) == Some(k) ==>
              r[k].order == LastRefIndex(PairReferences(profile.value.tags), e).value
  {
    var initial := WithAcceptance(profile, badges);
    var r := Unsorted(profile, badges);
    if profile.Some? {
      var refs := PairReferences(profile.value.tags);
      OrdersAssignedSpec(initial, refs, k);
      FindAwardEventSameBadges(r, initial, badges[k].awardEventId);
      if !r[k].accepted {
        assert LastRefIndex(refs, badges[k].awardEventId).None?;
      }
    }
  }

  /** `issuedAt || 0`. */
  function IssuedKey(b: UserBadge): int {
    b.badge.issuedAt.GetOr(0)
  }

  /**
   * The comparator of the view (and of the profile manager's re-sort):
   * accepted badges by ascending order, then unaccepted ones by descending
   * issue time.
   */
  function CompareUserBadges(a: UserBadge, b: UserBadge): (r: int)
    ensures a.accepted && !b.accepted ==> r < 0
    ensures !a.accepted && b.accepted ==> r > 0
    ensures a.accepted && b.accepted ==> (r <= 0 <==> a.order <= b.order)
    ensures !a.accepted && !b.accepted ==> (r <= 0 <==> IssuedKey(b) <= IssuedKey(a))
  {
    if a.accepted && b.accepted then a.order - b.order
    else if a.accepted then -1
    else if b.accepted then 1
    else IssuedKey(b) - IssuedKey(a)
  }

  /** The comparator is a total preorder on any list of badges. */
  lemma CompareUserBadgesPreorder(s: seq<UserBadge>)
    ensures PreorderOn(CompareUserBadges, s)
  {
    forall a, b, c | CompareUserBadges(a, b) <= 0 && CompareUserBadges(b, c) <= 0
      ensures CompareUserBadges(a, c) <= 0
    {
    }
  }

  /** The three ordering guarantees of the sorted view. */
  ghost predicate ViewOrdered(r: seq<UserBadge>) {
    && (forall i, j :: 0 <= i < j < |r| && r[j].accepted ==> r[i].accepted)
    && (forall i, j :: 0 <= i < j < |r| && r[i].accepted && r[j].accepted ==> r[i].order <= r[j].order)
    && (forall i, j :: 0 <= i < j < |r| && !r[i].accepted && !r[j].accepted ==> IssuedKey(r[i]) >= IssuedKey(r[j]))
  }

  /** Sorting by the comparator puts accepted badges first, in order, then the rest newest first. */
  lemma SortedViewOrdered(s: seq<UserBadge>)
    ensures ViewOrdered(SortBy(s, CompareUserBadges))
  {
    CompareUserBadgesPreorder(s);
    SortBySorted(s, CompareUserBadges);
    var r := SortBy(s, CompareUserBadges);
    assert forall i, j :: 0 <= i < j < |r| ==> CompareUserBadges(r[i], r[j]) <= 0;
  }

  /** Sorting the view again with the same comparator changes nothing. */
  lemma SortedViewIdempotent(s: seq<UserBadge>)
    ensures SortBy(SortBy(s, CompareUserBadges), CompareUserBadges) == SortBy(s, CompareUserBadges)
  {
    CompareUserBadgesPreorder(s);
    SortByIdempotent(s, CompareUserBadges);
  }

  /** Reordering a list keeps every entry's acceptance flag in step with the profile. */
  lemma PermutationKeepsAcceptance(profile: Option<Event>, t: seq<UserBadge>, u: seq<UserBadge>)
    requires multiset(t) == multiset(u)
    requires forall i :: 0 <= i < |u| ==> u[i].accepted == IsAccepted(profile, u[i].badge)
    ensures forall i :: 0 <= i < |t| ==> t[i].accepted == IsAccepted(profile, t[i].badge)
  {
    forall i | 0 <= i < |t| ensures t[i].accepted == IsAccepted(profile, t[i].badge) {
      assert t[i] in multiset(u);
    }
  }

  /**
   * `useUserBadges`: the joined badges with acceptance flags and orders,
   * sorted in place by `CompareUserBadges`.
   */
  method UserBadges(profile: Option<Event>, awardedBadges: seq<Badge>) returns (result: seq<UserBadge>)
    ensures result == SortBy(Unsorted(profile, awardedBadges), CompareUserBadges)
    ensures multiset(result) == multiset(Unsorted(profile, awardedBadges))
    ensures forall i :: 0 <= i < |result| ==> result[i].accepted == IsAccepted(profile, result[i].badge)
    ensures ViewOrdered(result)
  {
    var initial := WithAcceptance(profile, awardedBadges);
    var userBadges := new UserBadge[|initial|](i requires 0 <= i < |initial| => initial[i]);
    assert userBadges[..] == initial;
    if profile.Some? {
      var refs := ExtractBadgeReferences(profile.value);
      AssignOrders(userBadges, refs);
    }
    ghost var u := Unsorted(profile, awardedBadges);
    assert userBadges[..] == u;
    SortInPlace(userBadges, CompareUserBadges);
    result := userBadges[..];
    SortedViewOrdered(u);
    PermutationKeepsAcceptance(profile, result, u);
  }
}
