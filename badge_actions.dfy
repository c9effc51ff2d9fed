/**
 * The three publishing mutations: a badge definition (kind 30009), a badge
 * award (kind 8) and the profile badge list (kind 30008). Signing and relay
 * publication are outside the model: the author, the event id and the
 * timestamp the publisher assigns are parameters, and the result is the
 * event that would be published, or the error the mutation throws first.
 */
module BadgeActions {
  import opened Wrappers
  import opened Strings
  import opened BadgeTypes
  import opened BadgeUtils

  /** What a mutation does: publish an event, or throw before publishing. */
  datatype Publication = Published(event: Event) | Rejected(reason: string)

  // ---------------------------------------------------------------------
  // Badge definitions

  /** The parameters of a badge definition; optional numbers are `None` when not given. */
  datatype DefinitionParams = DefinitionParams(
    id: string,
    name: string,
    description: Option<string>,
    image: Option<string>,
    imageWidth: Option<int>,
    imageHeight: Option<int>,
    thumbnail: Option<string>,
    thumbnailWidth: Option<int>,
    thumbnailHeight: Option<int>)

  /** A number is truthy when it is given and not zero. */
  predicate TruthyNumber(n: Option<int>) {
    n.Some? && n.value != 0
  }

  /** An image tag value: `url WxH` when both dimensions are truthy, otherwise the bare url. */
  function ImageValue(url: string, width: Option<int>, height: Option<int>): (r: string)
    ensures !(TruthyNumber(width) && TruthyNumber(height)) ==> r == url
  {
    if TruthyNumber(width) && TruthyNumber(height)
    then url + " " + IntToDecimal(width.value) + "x" + IntToDecimal(height.value)
    else url
  }

  /**
   * The image value round-trips through the dimension parser: the
   * dimensions come back exactly when both were truthy, provided the url
   * itself holds no space.
   */
  lemma ImageValueDimensions(url: string, width: Option<int>, height: Option<int>)
    requires ' ' !in url
    ensures GetImageDimensions(ImageValue(url, width, height))
            == if TruthyNumber(width) && TruthyNumber(height) then Some((width.value, height.value)) else None
  {
    if TruthyNumber(width) && TruthyNumber(height) {
      var w := IntToDecimal(width.value);
      var h := IntToDecimal(height.value);
      var dims := w + "x" + h;
      assert ' ' !in dims;
      assert ImageValue(url, width, height) == url + [' '] + dims;
      SplitTwo(url, dims, ' ');
      assert dims == w + ['x'] + h;
      SplitTwo(w, h, 'x');
      ParseIntToDecimal(width.value);
      ParseIntToDecimal(height.value);
    } else {
      NoDimensionsWithoutSpace(url);
    }
  }

  /** The one-tag list `[[name, value]]` when `present`, else nothing. */
  function OptionalTag(present: bool, name: string, value: string): (r: seq<Tag>)
    ensures |r| <= 1 && (r != [] <==> present)
  {
    if present then [[name, value]] else []
  }

  /**
   * The definition's tags: `d` and `name`, then `description` when it is
   * non-empty, `image` and `thumb` when their urls are.
   */
  function DefinitionTags(params: DefinitionParams): (tags: seq<Tag>)
    ensures 2 <= |tags| <= 5
    ensures tags[0] == ["d", params.id] && tags[1] == ["name", params.name]
    ensures |tags| == 2 + (if Truthy(params.description) then 1 else 0)
                        + (if Truthy(params.image) then 1 else 0)
                        + (if Truthy(params.thumbnail) then 1 else 0)
  {
    [["d", params.id], ["name", params.name]]
    + OptionalTag(Truthy(params.description), "description", params.description.GetOr(""))
    + OptionalTag(Truthy(params.image), "image",
                  ImageValue(params.image.GetOr(""), params.imageWidth, params.imageHeight))
    + OptionalTag(Truthy(params.thumbnail), "thumb",
                  ImageValue(params.thumbnail.GetOr(""), params.thumbnailWidth, params.thumbnailHeight))
  }

  /** The tag building of the definition mutation: two fixed tags, then conditional pushes. */
  method CreateBadgeDefinition(params: DefinitionParams, author: string, eventId: string, createdAt: int)
    returns (published: Event)
    ensures published == Event(eventId, author, BadgeDefinitionKind, createdAt, DefinitionTags(params), "")
  {
    var tags: seq<Tag> := [["d", params.id], ["name", params.name]];
    if Truthy(params.description) {
      tags := tags + [["description", params.description.value]];
    }
    if Truthy(params.image) {
      var imageTag := ImageValue(params.image.value, params.imageWidth, params.imageHeight);
      tags := tags + [["image", imageTag]];
    }
    if Truthy(params.thumbnail) {
      var thumbTag := ImageValue(params.thumbnail.value, params.thumbnailWidth, params.thumbnailHeight);
      tags := tags + [["thumb", thumbTag]];
    }
    published := Event(eventId, author, BadgeDefinitionKind, createdAt, tags, "");
  }

  /** The one-tag list answers a lookup only for its own name, and only when present. */
  lemma OptionalTagLookup(present: bool, name: string, value: string, other: string)
    ensures HasTag(OptionalTag(present, name, value), other) <==> present && other == name
    ensures TagValue(OptionalTag(present, name, value), other) == if present && other == name then Some(value) else None
  {
    if present {
      assert HasName(OptionalTag(present, name, value)[0], name);
    }
  }

  /** The optional tags of a definition, in the order they are pushed. */
  function OptionalTags(params: DefinitionParams): seq<Tag> {
    OptionalTag(Truthy(params.description), "description", params.description.GetOr(""))
    + (OptionalTag(Truthy(params.image), "image",
                   ImageValue(params.image.GetOr(""), params.imageWidth, params.imageHeight))
       + OptionalTag(Truthy(params.thumbnail), "thumb",
                     ImageValue(params.thumbnail.GetOr(""), params.thumbnailWidth, params.thumbnailHeight)))
  }

  /** The definition's tags are the two fixed tags followed by the optional ones. */
  lemma DefinitionTagsShape(params: DefinitionParams)
    ensures DefinitionTags(params) == [["d", params.id], ["name", params.name]] + OptionalTags(params)
  {
  }

  /** A lookup in a list that starts with the `d` and `name` tags. */
  lemma FixedTagsLookup(id: string, badgeName: string, rest: seq<Tag>, name: string)
    ensures TagValue([["d", id], ["name", badgeName]] + rest, name)
            == if name == "d" then Some(id) else if name == "name" then Some(badgeName) else TagValue(rest, name)
  {
    var fixed: seq<Tag> := [["d", id], ["name", badgeName]];
    TagValueAppend(fixed, rest, name);
    if name == "d" {
      TagValueOfFirst(fixed, "d", id);
      assert HasName(fixed[0], "d");
    } else if name == "name" {
      assert fixed == [fixed[0]] + [fixed[1]];
      TagValueSkips([fixed[0]], [fixed[1]], "name");
      TagValueOfFirst([fixed[1]], "name", badgeName);
      assert HasName(fixed[1], "name");
    } else {
      assert !HasTag(fixed, name);
    }
  }

  /** A lookup in the optional tags that follow. */
  lemma OptionalTagsLookup(params: DefinitionParams, name: string)
    ensures TagValue(OptionalTags(params), name)
            == if name == "description" then
                 (if Truthy(params.description) then params.description else None)
               else if name == "image" then
                 (if Truthy(params.image)
                  then Some(ImageValue(params.image.value, params.imageWidth, params.imageHeight)) else None)
               else if name == "thumb" then
                 (if Truthy(params.thumbnail)
                  then Some(ImageValue(params.thumbnail.value, params.thumbnailWidth, params.thumbnailHeight)) else None)
               else None
  {
    var desc := OptionalTag(Truthy(params.description), "description", params.description.GetOr(""));
    var image := OptionalTag(Truthy(params.image), "image",
                             ImageValue(params.image.GetOr(""), params.imageWidth, params.imageHeight));
    var thumb := OptionalTag(Truthy(params.thumbnail), "thumb",
                             ImageValue(params.thumbnail.GetOr(""), params.thumbnailWidth, params.thumbnailHeight));
    TagValueAppend(desc, image + thumb, name);
    OptionalTagLookup(Truthy(params.description), "description", params.description.GetOr(""), name);
    TagValueAppend(image, thumb, name);
    OptionalTagLookup(Truthy(params.image), "image",
                      ImageValue(params.image.GetOr(""), params.imageWidth, params.imageHeight), name);
    OptionalTagLookup(Truthy(params.thumbnail), "thumb",
                      ImageValue(params.thumbnail.GetOr(""), params.thumbnailWidth, params.thumbnailHeight), name);
  }

  /** What a lookup of each name finds in the definition's tags. */
  lemma DefinitionTagsLookup(params: DefinitionParams, name: string)
    ensures TagValue(DefinitionTags(params), name)
            == if name == "d" then Some(params.id)
               else if name == "name" then Some(params.name)
               else if name == "description" then
                 (if Truthy(params.description) then params.description else None)
               else if name == "image" then
                 (if Truthy(params.image)
                  then Some(ImageValue(params.image.value, params.imageWidth, params.imageHeight)) else None)
               else if name == "thumb" then
                 (if Truthy(params.thumbnail)
                  then Some(ImageValue(params.thumbnail.value, params.thumbnailWidth, params.thumbnailHeight)) else None)
               else None
  {
    DefinitionTagsShape(params);
    FixedTagsLookup(params.id, params.name, OptionalTags(params), name);
    OptionalTagsLookup(params, name);
  }

  /**
   * Reading the published definition back: it is a valid definition and the
   * badge assembler recovers every parameter (the id as slug, the optional
   * fields exactly when they were non-empty).
   */
  lemma DefinitionRoundTrip(params: DefinitionParams, author: string, eventId: string, createdAt: int)
    requires params.id != ""
    ensures var e := Event(eventId, author, BadgeDefinitionKind, createdAt, DefinitionTags(params), "");
            && IsValidBadgeDefinition(e)
            && ProcessBadgeDefinition(e) == Some(BadgeInfo(
                 id := eventId,
                 name := Some(params.name),
                 description := if Truthy(params.description) then params.description else None,
                 image := if Truthy(params.image)
                          then Some(ImageValue(params.image.value, params.imageWidth, params.imageHeight)) else None,
                 thumb := if Truthy(params.thumbnail)
                          then Some(ImageValue(params.thumbnail.value, params.thumbnailWidth, params.thumbnailHeight)) else None,
                 issuerPubkey := author,
                 definitionId := eventId,
                 badgeId := params.id))
  {
    var tags := DefinitionTags(params);
    assert HasName(tags[0], "d");
    DefinitionTagsLookup(params, "d");
    DefinitionTagsLookup(params, "name");
    DefinitionTagsLookup(params, "description");
    DefinitionTagsLookup(params, "image");
    DefinitionTagsLookup(params, "thumb");
  }

  // ---------------------------------------------------------------------
  // Badge awards

  const MissingAwardInput: string := "Badge definition and at least one recipient are required"
  const InvalidDefinition: string := "Invalid badge definition"

  /** The award's tags: the definition's coordinate, then one `p` tag per recipient. */
  function AwardTags(aTag: string, recipients: seq<string>): (tags: seq<Tag>)
    ensures |tags| == 1 + |recipients|
    ensures TagValue(tags, "a") == Some(aTag)
    ensures forall i :: 1 <= i < |tags| ==> HasName(tags[i], "p") && !HasName(tags[i], "a")
  {
    [["a", aTag]] + seq(|recipients|, i requires 0 <= i < |recipients| => ["p", recipients[i]])
  }

  /**
   * The award mutation: throws when the definition is missing or there are
   * no recipients, then when the definition's first `d` value is missing or
   * empty; otherwise publishes a kind-8 event naming the definition's
   * coordinate and every recipient.
   */
  function AwardBadge(definition: Option<Event>, recipients: seq<string>, author: string, eventId: string, createdAt: int)
    : (r: Publication)
    ensures definition.None? || recipients == [] ==> r == Rejected(MissingAwardInput)
    ensures definition.Some? && recipients != [] && !Truthy(GetTagValue(definition.value, "d"))
            ==> r == Rejected(InvalidDefinition)
    ensures r.Published? <==> definition.Some? && recipients != [] && Truthy(GetTagValue(definition.value, "d"))
    ensures r.Published? ==> && r.event.kind == BadgeAwardKind
                             && r.event.pubkey == author
                             && r.event.tags == AwardTags(CreateATagIdentifier(BadgeDefinitionKind, definition.value.pubkey,
                                                                               GetTagValue(definition.value, "d").value),
                                                          recipients)
  {
    if definition.None? || |recipients| == 0 then Rejected(MissingAwardInput)
    else
      var badgeId := GetTagValue(definition.value, "d");
      if !Truthy(badgeId) then Rejected(InvalidDefinition)
      else
        var aTag := CreateATagIdentifier(BadgeDefinitionKind, definition.value.pubkey, badgeId.value);
        Published(Event(eventId, author, BadgeAwardKind, createdAt, AwardTags(aTag, recipients), ""))
  }

  lemma AwardTagsStep(aTag: string, recipients: seq<string>)
    requires recipients != []
    ensures AwardTags(aTag, recipients)
            == AwardTags(aTag, recipients[..|recipients| - 1]) + [["p", recipients[|recipients| - 1]]]
  {
    var init := recipients[..|recipients| - 1];
    var lhs := AwardTags(aTag, recipients);
    var rhs := AwardTags(aTag, init) + [["p", recipients[|recipients| - 1]]];
    assert |lhs| == |rhs|;
    forall i | 0 <= i < |lhs| ensures lhs[i] == rhs[i] {
      if 0 < i < |lhs| - 1 {
        assert rhs[i] == AwardTags(aTag, init)[i];
      }
    }
  }

  lemma OnePosition(tag: Tag, name: string, value: string)
    requires tag == [name, value]
    ensures GetTagValuesByPosition([tag], name, 1) == [value]
    ensures forall other :: other != name ==> GetTagValuesByPosition([tag], other, 1) == []
  {
    assert [tag][1..] == [];
  }

  /** The recipients are recovered, in order, as the `p` values of the award. */
  lemma {:induction false} AwardTagsRecipients(aTag: string, recipients: seq<string>)
    ensures GetTagValuesByPosition(AwardTags(aTag, recipients), "p", 1) == recipients
    decreases |recipients|
  {
    if recipients == [] {
      assert AwardTags(aTag, recipients) == [["a", aTag]];
      OnePosition(["a", aTag], "a", aTag);
    } else {
      var init := recipients[..|recipients| - 1];
      var last := recipients[|recipients| - 1];
      calc {
        GetTagValuesByPosition(AwardTags(aTag, recipients), "p", 1);
        { AwardTagsStep(aTag, recipients); }
        GetTagValuesByPosition(AwardTags(aTag, init) + [["p", last]], "p", 1);
        { PositionAppend(AwardTags(aTag, init), [["p", last]], "p", 1); }
        GetTagValuesByPosition(AwardTags(aTag, init), "p", 1) + GetTagValuesByPosition([["p", last]], "p", 1);
        { AwardTagsRecipients(aTag, init); OnePosition(["p", last], "p", last); }
        init + [last];
      }
      assert init + [last] == recipients;
    }
  }

  /**
   * A published award is a valid award, its coordinate is the one the view
   * builder queries, and joined against its own definition it yields that
   * definition's badge with the award's ids.
   */
  lemma AwardResolvesToDefinition(definition: Event, recipients: seq<string>, author: string, eventId: string, createdAt: int)
    requires AwardBadge(Some(definition), recipients, author, eventId, createdAt).Published?
    requires ':' !in definition.pubkey && ':' !in GetTagValue(definition, "d").value
    ensures var award := AwardBadge(Some(definition), recipients, author, eventId, createdAt).event;
            var slug := GetTagValue(definition, "d").value;
            && IsValidBadgeAward(award)
            && GetTagValue(award, "a") == Some(CreateATagIdentifier(BadgeDefinitionKind, definition.pubkey, slug))
            && ParseATagIdentifier(GetTagValue(award, "a").value)
               == Some(ATagRef(Some(BadgeDefinitionKind), definition.pubkey, slug))
            && GetTagValuesByPosition(award.tags, "p", 1) == recipients
  {
    var award := AwardBadge(Some(definition), recipients, author, eventId, createdAt).event;
    var slug := GetTagValue(definition, "d").value;
    var aTag := CreateATagIdentifier(BadgeDefinitionKind, definition.pubkey, slug);
    AwardTagsRecipients(aTag, recipients);
    TagValueOfFirst(award.tags, "a", aTag);
    ATagRoundTrip(BadgeDefinitionKind, definition.pubkey, slug);
    assert HasName(award.tags[0], "a");
    assert HasName(award.tags[1], "p");
  }

  // ---------------------------------------------------------------------
  // Profile badge lists

  const NotLoggedIn: string := "User must be logged in to update profile badges"

  /** The profile list's tags: the fixed `d` tag, then an `a` and an `e` tag per reference, in order. */
  function ProfileBadgesTags(refs: seq<BadgeRef>): (tags: seq<Tag>)
    ensures |tags| == 1 + 2 * |refs|
    ensures tags[0] == ["d", ProfileBadgesIdentifier]
    ensures forall i :: 0 <= i < |refs| ==> tags[1 + 2 * i] == ["a", refs[i].aTag] && tags[2 + 2 * i] == ["e", refs[i].eTag]
    decreases |refs|
  {
    if refs == [] then [["d", ProfileBadgesIdentifier]]
    else
      var init := refs[..|refs| - 1];
      var last := refs[|refs| - 1];
      assert forall i :: 0 <= i < |init| ==> init[i] == refs[i];
      ProfileBadgesTags(init) + [["a", last.aTag], ["e", last.eTag]]
  }

  /**
   * The profile mutation: throws without a user; otherwise pushes the fixed
   * tag, then an `a` and an `e` tag per reference, and publishes them.
   */
  method UpdateProfileBadges(user: Option<string>, badgeRefs: seq<BadgeRef>, eventId: string, createdAt: int)
    returns (r: Publication)
    ensures user.None? ==> r == Rejected(NotLoggedIn)
    ensures user.Some? ==> r == Published(Event(eventId, user.value, ProfileBadgesKind, createdAt, ProfileBadgesTags(badgeRefs), ""))
  {
    if user.None? {
      return Rejected(NotLoggedIn);
    }
    var tags: seq<Tag> := [["d", ProfileBadgesIdentifier]];
    for i := 0 to |badgeRefs|
      invariant tags == ProfileBadgesTags(badgeRefs[..i])
    {
      var ref := badgeRefs[i];
      assert badgeRefs[..i + 1][..i] == badgeRefs[..i];
      tags := tags + [["a", ref.aTag]];
      tags := tags + [["e", ref.eTag]];
    }
    assert badgeRefs[..|badgeRefs|] == badgeRefs;
    r := Published(Event(eventId, user.value, ProfileBadgesKind, createdAt, tags, ""));
  }

  /** The references as the pairer reads them back: both values present. */
  function AsPaired(refs: seq<BadgeRef>): (r: seq<PairedRef>)
    ensures |r| == |refs|
    ensures forall i :: 0 <= i < |refs| ==> r[i] == PairedRef(Some(refs[i].aTag), Some(refs[i].eTag))
  {
    seq(|refs|, i requires 0 <= i < |refs| => PairedRef(Some(refs[i].aTag), Some(refs[i].eTag)))
  }

  /** The `a` column of the references. */
  function ATagColumn(refs: seq<BadgeRef>): (r: seq<Option<string>>)
    ensures |r| == |refs| && forall i :: 0 <= i < |refs| ==> r[i] == Some(refs[i].aTag)
  {
    seq(|refs|, i requires 0 <= i < |refs| => Some(refs[i].aTag))
  }

  /** The `e` column of the references. */
  function ETagColumn(refs: seq<BadgeRef>): (r: seq<Option<string>>)
    ensures |r| == |refs| && forall i :: 0 <= i < |refs| ==> r[i] == Some(refs[i].eTag)
  {
    seq(|refs|, i requires 0 <= i < |refs| => Some(refs[i].eTag))
  }

  lemma ColumnsStep(refs: seq<BadgeRef>)
    requires refs != []
    ensures var init := refs[..|refs| - 1];
            var last := refs[|refs| - 1];
            && ATagColumn(refs) == ATagColumn(init) + [Some(last.aTag)]
            && ETagColumn(refs) == ETagColumn(init) + [Some(last.eTag)]
  {
    var init := refs[..|refs| - 1];
    assert forall i :: 0 <= i < |init| ==> init[i] == refs[i];
  }

  lemma PairColumns(aTag: string, eTag: string)
    ensures GetAllTagValues([["a", aTag], ["e", eTag]], "a") == [Some(aTag)]
    ensures GetAllTagValues([["a", aTag], ["e", eTag]], "e") == [Some(eTag)]
  {
    var pair: seq<Tag> := [["a", aTag], ["e", eTag]];
    assert pair[1..] == [["e", eTag]];
    assert pair[1..][1..] == [];
  }

  /** The `a` values and the `e` values of the profile list are the references' two columns. */
  lemma {:induction false} ProfileBadgesColumns(refs: seq<BadgeRef>)
    ensures GetAllTagValues(ProfileBadgesTags(refs), "a") == ATagColumn(refs)
    ensures GetAllTagValues(ProfileBadgesTags(refs), "e") == ETagColumn(refs)
    decreases |refs|
  {
    if refs == [] {
      assert ProfileBadgesTags(refs)[1..] == [];
    } else {
      var init := refs[..|refs| - 1];
      var last := refs[|refs| - 1];
      ProfileBadgesColumns(init);
      var pair: seq<Tag> := [["a", last.aTag], ["e", last.eTag]];
      assert ProfileBadgesTags(refs) == ProfileBadgesTags(init) + pair;
      GetAllTagValuesAppend(ProfileBadgesTags(init), pair, "a");
      GetAllTagValuesAppend(ProfileBadgesTags(init), pair, "e");
      PairColumns(last.aTag, last.eTag);
      ColumnsStep(refs);
    }
  }

  /** The pairer inverts the profile serialiser: the references come back unchanged, in order. */
  lemma ProfileBadgesRoundTrip(refs: seq<BadgeRef>)
    ensures PairReferences(ProfileBadgesTags(refs)) == AsPaired(refs)
  {
    ProfileBadgesColumns(refs);
  }

  /** A published profile list is recognised as one. */
  lemma ProfileBadgesValid(user: string, refs: seq<BadgeRef>, eventId: string, createdAt: int)
    ensures IsValidProfileBadges(Event(eventId, user, ProfileBadgesKind, createdAt, ProfileBadgesTags(refs), ""))
  {
    TagValueOfFirst(ProfileBadgesTags(refs), "d", ProfileBadgesIdentifier);
  }
}
