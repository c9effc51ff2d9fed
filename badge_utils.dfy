/**
 * Tag lookups, the a-tag coordinate codec `<kind>:<pubkey>:<d>`, the three
 * structural event classifiers, the badge assembler, the (a, e) reference
 * pairer of profile badge lists and the image-dimension parser.
 */
module BadgeUtils {
  import opened Wrappers
  import opened Strings
  import opened Seqs
  import opened BadgeTypes

  // ---------------------------------------------------------------------
  // a-tag coordinates

  /** A parsed coordinate; `kind` is `None` where `parseInt` yields `NaN`. */
  datatype ATagRef = ATagRef(kind: Option<int>, pubkey: string, identifier: string)

  /**
   * `parseATagIdentifier`: absent unless splitting on `:` gives exactly three
   * parts; the kind is the first part read by `parseInt(_, 10)`.
   */
  function ParseATagIdentifier(aTag: string): (r: Option<ATagRef>)
    ensures r.None? <==> |Split(aTag, ':')| != 3
    ensures r.Some? ==> ':' !in r.value.pubkey && ':' !in r.value.identifier
    ensures r.Some? ==> r.value.kind == ParseDecimal(Split(aTag, ':')[0])
    ensures r.Some? ==> r.value.pubkey == Split(aTag, ':')[1] && r.value.identifier == Split(aTag, ':')[2]
  {
    var parts := Split(aTag, ':');
    if |parts| != 3 then None
    else Some(ATagRef(ParseDecimal(parts[0]), parts[1], parts[2]))
  }

  /**
   * Any coordinate of three colon-free parts, as a relay may hand it over,
   * decodes to its parts, the first read by `parseInt`.
   */
  lemma ParseATagParts(kind: string, pubkey: string, identifier: string)
    requires ':' !in kind && ':' !in pubkey && ':' !in identifier
    ensures ParseATagIdentifier(kind + ":" + pubkey + ":" + identifier)
            == Some(ATagRef(ParseDecimal(kind), pubkey, identifier))
  {
    assert kind + ":" + pubkey + ":" + identifier == kind + [':'] + pubkey + [':'] + identifier;
    SplitThree(kind, pubkey, identifier, ':');
  }

  /** `createATagIdentifier`: `${kind}:${pubkey}:${identifier}`. */
  function CreateATagIdentifier(kind: int, pubkey: string, identifier: string): (r: string)
    ensures ':' !in pubkey && ':' !in identifier ==> Split(r, ':') == [IntToDecimal(kind), pubkey, identifier]
  {
    var k := IntToDecimal(kind);
    var r := k + ":" + pubkey + ":" + identifier;
    assert r == k + [':'] + pubkey + [':'] + identifier;
    if ':' !in pubkey && ':' !in identifier then
      SplitThree(k, pubkey, identifier, ':');
      r
    else
      r
  }

  /** Encoding then decoding a coordinate gives it back when pubkey and identifier hold no `:`. */
  lemma ATagRoundTrip(kind: int, pubkey: string, identifier: string)
    requires ':' !in pubkey && ':' !in identifier
    ensures ParseATagIdentifier(CreateATagIdentifier(kind, pubkey, identifier))
            == Some(ATagRef(Some(kind), pubkey, identifier))
  {
    var k := IntToDecimal(kind);
    assert CreateATagIdentifier(kind, pubkey, identifier) == k + [':'] + pubkey + [':'] + identifier;
    SplitThree(k, pubkey, identifier, ':');
    ParseIntToDecimal(kind);
  }

  /** Decoding never accepts a coordinate whose identifier or pubkey part holds a `:`. */
  lemma ATagWithExtraColonRejected(kind: int, pubkey: string, identifier: string)
    requires ':' !in pubkey && ':' in identifier
    ensures ParseATagIdentifier(CreateATagIdentifier(kind, pubkey, identifier)).None?
  {
    var k := IntToDecimal(kind);
    assert CreateATagIdentifier(kind, pubkey, identifier) == (k + [':'] + pubkey) + [':'] + identifier;
    SplitAround(k + [':'] + pubkey, identifier, ':');
    SplitAround(k, pubkey, ':');
    SplitLength(identifier, ':');
  }

  /** A string holding a separator splits into at least two pieces. */
  lemma {:induction false} SplitLength(s: string, c: char)
    requires c in s
    ensures |Split(s, c)| >= 2
    decreases |s|
  {
    if s[0] != c {
      assert c in s[1..] by {
        var k :| 0 <= k < |s| && s[k] == c;
        assert s[1..][k - 1] == c;
      }
      SplitLength(s[1..], c);
    }
  }

  // ---------------------------------------------------------------------
  // Tag lookups

  /** `tag[0] === name`; an empty tag has no name. */
  predicate HasName(tag: Tag, name: string) {
    |tag| > 0 && tag[0] == name
  }

  /** `tag[1]`, undefined on a tag of length one or less. */
  function ValueOf(tag: Tag): Option<string> {
    if |tag| > 1 then Some(tag[1]) else None
  }

  /** `tags.findIndex(tag => tag[0] === name)` as an option. */
  function FindTag(tags: seq<Tag>, name: string): (r: Option<nat>)
    ensures r.Some? ==> r.value < |tags| && HasName(tags[r.value], name)
    ensures r.Some? ==> forall j :: 0 <= j < r.value ==> !HasName(tags[j], name)
    ensures r.None? <==> forall j :: 0 <= j < |tags| ==> !HasName(tags[j], name)
  {
    if tags == [] then None
    else if HasName(tags[0], name) then Some(0)
    else
      match FindTag(tags[1..], name)
      case None => None
      case Some(k) => Some(k + 1)
  }

  /** Element 1 of the first tag named `name` in `tags`. */
  function TagValue(tags: seq<Tag>, name: string): (r: Option<string>)
    ensures r.Some? ==> exists i :: 0 <= i < |tags| && HasName(tags[i], name)
                                    && |tags[i]| > 1 && tags[i][1] == r.value
                                    && forall j :: 0 <= j < i ==> !HasName(tags[j], name)
    ensures (forall j :: 0 <= j < |tags| ==> !HasName(tags[j], name)) ==> r.None?
    ensures FindTag(tags, name).Some? && |tags[FindTag(tags, name).value]| > 1
            ==> r == Some(tags[FindTag(tags, name).value][1])
  {
    match FindTag(tags, name)
    case None => None
    case Some(i) => ValueOf(tags[i])
  }

  /** `getTagValue`: the value of the event's first tag named `name`. */
  function GetTagValue(event: Event, name: string): (r: Option<string>)
    ensures r.Some? ==> HasTag(event.tags, name)
    ensures !HasTag(event.tags, name) ==> r.None?
    ensures HasTag(event.tags, name) && |event.tags[FindTag(event.tags, name).value]| > 1
            ==> r == Some(event.tags[FindTag(event.tags, name).value][1])
  {
    TagValue(event.tags, name)
  }

  /**
   * The lookup reads the first tag with the name: element 1 when that tag
   * has one, `undefined` when it is a bare `[name]`.
   */
  lemma TagValueOfFirstNamed(tags: seq<Tag>, name: string, i: nat)
    requires i < |tags| && HasName(tags[i], name)
    requires forall j :: 0 <= j < i ==> !HasName(tags[j], name)
    ensures TagValue(tags, name) == if |tags[i]| > 1 then Some(tags[i][1]) else None
  {
    assert FindTag(tags, name) == Some(i);
  }

  /** Looking a name up in a list that starts with a tag of that name reads that tag. */
  lemma TagValueOfFirst(tags: seq<Tag>, name: string, value: string)
    requires |tags| > 0 && tags[0] == [name, value]
    ensures TagValue(tags, name) == Some(value)
  {
  }

  /** Tags of other names in front of the list do not change a lookup. */
  lemma TagValueSkips(front: seq<Tag>, back: seq<Tag>, name: string)
    requires forall j :: 0 <= j < |front| ==> !HasName(front[j], name)
    ensures TagValue(front + back, name) == TagValue(back, name)
  {
    FindTagSkips(front, back, name);
    match FindTag(back, name)
    case None =>
    case Some(k) => assert (front + back)[k + |front|] == back[k];
  }

  /** Tags of other names in front do not change a lookup. */
  lemma {:induction false} FindTagSkips(front: seq<Tag>, back: seq<Tag>, name: string)
    requires forall j :: 0 <= j < |front| ==> !HasName(front[j], name)
    ensures FindTag(front + back, name) == (match FindTag(back, name)
                                           case None => None
                                           case Some(k) => Some(k + |front|))
    decreases |front|
  {
    if front == [] {
      assert front + back == back;
    } else {
      var t := front + back;
      assert t[0] == front[0];
      assert !HasName(t[0], name);
      assert t[1..] == front[1..] + back;
      FindTagSkips(front[1..], back, name);
    }
  }

  /** A lookup in a concatenation finds the first list's tag when it has one, else the second's. */
  lemma {:induction false} FindTagAppend(front: seq<Tag>, back: seq<Tag>, name: string)
    ensures FindTag(front + back, name) == if FindTag(front, name).Some? then FindTag(front, name)
                                           else match FindTag(back, name)
                                                case None => None
                                                case Some(k) => Some(k + |front|)
    decreases |front|
  {
    if front == [] {
      assert front + back == back;
    } else {
      var t := front + back;
      assert t[0] == front[0];
      assert t[1..] == front[1..] + back;
      FindTagAppend(front[1..], back, name);
    }
  }

  /** `TagValue` over a concatenation: the first list decides when it holds a tag of that name. */
  lemma TagValueAppend(front: seq<Tag>, back: seq<Tag>, name: string)
    ensures TagValue(front + back, name) == if HasTag(front, name) then TagValue(front, name) else TagValue(back, name)
  {
    FindTagAppend(front, back, name);
    match FindTag(front, name)
    case Some(i) =>
      assert (front + back)[i] == front[i];
    case None =>
      match FindTag(back, name)
      case None =>
      case Some(k) => assert (front + back)[k + |front|] == back[k];
  }

  /** `getAllTagValues`: element 1 of every tag named `name`, in document order. */
  function GetAllTagValues(tags: seq<Tag>, name: string): (r: seq<Option<string>>)
    ensures |r| <= |tags|
  {
    if tags == [] then []
    else
      var rest := GetAllTagValues(tags[1..], name);
      if HasName(tags[0], name) then [ValueOf(tags[0])] + rest else rest
  }

  /**
   * There is a value for every tag with the name and for no other: the list
   * is empty exactly when no tag has the name, and each entry is the value
   * (or `undefined`) of such a tag.
   */
  lemma {:induction false} GetAllTagValuesFromTags(tags: seq<Tag>, name: string)
    ensures var r := GetAllTagValues(tags, name);
            |r| > 0 <==> exists i :: 0 <= i < |tags| && HasName(tags[i], name)
    ensures var r := GetAllTagValues(tags, name);
            forall k :: 0 <= k < |r| ==>
              exists i :: 0 <= i < |tags| && HasName(tags[i], name) && r[k] == ValueOf(tags[i])
    decreases |tags|
  {
    if tags != [] {
      GetAllTagValuesFromTags(tags[1..], name);
      assert forall i :: 0 <= i < |tags[1..]| ==> tags[1..][i] == tags[i + 1];
    }
  }

  /** `tag => tag[0] === name`, as a filter predicate. */
  function Named(name: string): Tag -> bool {
    (tag: Tag) => HasName(tag, name)
  }

  /**
   * `getAllTagValues` is `filter` then `map`: one entry per tag with the
   * name, in document order, each that tag's element 1 (or `undefined`).
   */
  lemma {:induction false} GetAllTagValuesOfNamed(tags: seq<Tag>, name: string)
    ensures |GetAllTagValues(tags, name)| == |Filter(tags, Named(name))|
    ensures forall k :: 0 <= k < |GetAllTagValues(tags, name)|
              ==> GetAllTagValues(tags, name)[k] == ValueOf(Filter(tags, Named(name))[k])
    decreases |tags|
  {
    if tags != [] {
      GetAllTagValuesOfNamed(tags[1..], name);
      var r, rest := GetAllTagValues(tags, name), GetAllTagValues(tags[1..], name);
      var f, more := Filter(tags, Named(name)), Filter(tags[1..], Named(name));
      if HasName(tags[0], name) {
        assert Named(name)(tags[0]);
        assert r == [ValueOf(tags[0])] + rest;
        assert f == [tags[0]] + more;
        forall k | 0 <= k < |r| ensures r[k] == ValueOf(f[k]) {
          if k > 0 {
            assert r[k] == rest[k - 1] && f[k] == more[k - 1];
          }
        }
      } else {
        assert !Named(name)(tags[0]);
        assert r == rest && f == more;
      }
    }
  }

  /** One step of `getAllTagValues`: the first tag's value, when it has the name, then the rest. */
  lemma GetAllTagValuesCons(tags: seq<Tag>, name: string)
    requires tags != []
    ensures GetAllTagValues(tags, name)
            == (if HasName(tags[0], name) then [ValueOf(tags[0])] else []) + GetAllTagValues(tags[1..], name)
  {
  }

  /** The inductive step of `GetAllTagValuesAppend`, from the claim for the tail of `t1`. */
  lemma GetAllTagValuesAppendStep(t1: seq<Tag>, t2: seq<Tag>, name: string)
    requires t1 != []
    requires GetAllTagValues(t1[1..] + t2, name) == GetAllTagValues(t1[1..], name) + GetAllTagValues(t2, name)
    ensures GetAllTagValues(t1 + t2, name) == GetAllTagValues(t1, name) + GetAllTagValues(t2, name)
  {
    var t := t1 + t2;
    assert t[0] == t1[0];
    assert t[1..] == t1[1..] + t2;
    GetAllTagValuesCons(t, name);
    GetAllTagValuesCons(t1, name);
    var head: seq<Option<string>> := if HasName(t1[0], name) then [ValueOf(t1[0])] else [];
    ConsAssoc(GetAllTagValues(t, name), GetAllTagValues(t1, name), head,
              GetAllTagValues(t1[1..] + t2, name), GetAllTagValues(t1[1..], name), GetAllTagValues(t2, name));
  }

  lemma ConsAssoc<T>(whole: seq<T>, front: seq<T>, head: seq<T>, tail: seq<T>, rest1: seq<T>, rest2: seq<T>)
    requires whole == head + tail && tail == rest1 + rest2 && front == head + rest1
    ensures whole == front + rest2
  {
  }

  /** Values are collected in document order: the lookup distributes over concatenation. */
  lemma {:induction false} GetAllTagValuesAppend(t1: seq<Tag>, t2: seq<Tag>, name: string)
    ensures GetAllTagValues(t1 + t2, name) == GetAllTagValues(t1, name) + GetAllTagValues(t2, name)
    decreases |t1|
  {
    if t1 == [] {
      assert t1 + t2 == t2;
    } else {
      GetAllTagValuesAppend(t1[1..], t2, name);
      GetAllTagValuesAppendStep(t1, t2, name);
    }
  }

  /** `getTagValuesByPosition`: element `position` of every tag named `name` that is long enough. */
  function GetTagValuesByPosition(tags: seq<Tag>, name: string, position: nat): (r: seq<string>)
    ensures |r| <= |tags|
    ensures forall k :: 0 <= k < |r| ==>
              exists i :: 0 <= i < |tags| && HasName(tags[i], name) && |tags[i]| > position && r[k] == tags[i][position]
  {
    if tags == [] then []
    else
      var rest := GetTagValuesByPosition(tags[1..], name, position);
      assert forall k :: 0 <= k < |rest| ==>
        exists i :: 1 <= i < |tags| && HasName(tags[i], name) && |tags[i]| > position && rest[k] == tags[i][position] by {
        forall k | 0 <= k < |rest|
          ensures exists i :: 1 <= i < |tags| && HasName(tags[i], name) && |tags[i]| > position && rest[k] == tags[i][position]
        {
          assert rest == GetTagValuesByPosition(tags[1..], name, position);
          var i :| 0 <= i < |tags[1..]| && HasName(tags[1..][i], name) && |tags[1..][i]| > position && rest[k] == tags[1..][i][position];
          assert tags[1..][i] == tags[i + 1];
        }
      }
      if HasName(tags[0], name) && |tags[0]| > position then [tags[0][position]] + rest else rest
  }

  /** `tag => tag[0] === name && tag.length > position`, as a filter predicate. */
  function NamedWith(name: string, position: nat): Tag -> bool {
    (tag: Tag) => HasName(tag, name) && |tag| > position
  }

  /**
   * Every tag with the name that is long enough contributes its element
   * `position`, and nothing else does: the result is the filter of those
   * tags, read at `position`.
   */
  lemma {:induction false} GetTagValuesByPositionOfNamed(tags: seq<Tag>, name: string, position: nat)
    ensures |GetTagValuesByPosition(tags, name, position)| == |Filter(tags, NamedWith(name, position))|
    ensures forall k :: 0 <= k < |GetTagValuesByPosition(tags, name, position)|
              ==> |Filter(tags, NamedWith(name, position))[k]| > position
                  && GetTagValuesByPosition(tags, name, position)[k] == Filter(tags, NamedWith(name, position))[k][position]
    decreases |tags|
  {
    if tags != [] {
      GetTagValuesByPositionOfNamed(tags[1..], name, position);
      var r, rest := GetTagValuesByPosition(tags, name, position), GetTagValuesByPosition(tags[1..], name, position);
      var f, more := Filter(tags, NamedWith(name, position)), Filter(tags[1..], NamedWith(name, position));
      if HasName(tags[0], name) && |tags[0]| > position {
        assert NamedWith(name, position)(tags[0]);
        assert r == [tags[0][position]] + rest;
        assert f == [tags[0]] + more;
        forall k | 0 <= k < |r| ensures |f[k]| > position && r[k] == f[k][position] {
          if k > 0 {
            assert r[k] == rest[k - 1] && f[k] == more[k - 1];
          }
        }
      } else {
        assert !NamedWith(name, position)(tags[0]);
        assert r == rest && f == more;
      }
    }
  }

  /** Every tag with the name that has an element `position` has that element in the result. */
  lemma GetTagValuesByPositionComplete(tags: seq<Tag>, name: string, position: nat, i: nat)
    requires i < |tags| && HasName(tags[i], name) && |tags[i]| > position
    ensures tags[i][position] in GetTagValuesByPosition(tags, name, position)
  {
    GetTagValuesByPositionOfNamed(tags, name, position);
    var f := Filter(tags, NamedWith(name, position));
    assert NamedWith(name, position)(tags[i]);
    assert tags[i] in f;
    var k :| 0 <= k < |f| && f[k] == tags[i];
    assert GetTagValuesByPosition(tags, name, position)[k] == tags[i][position];
  }

  /** Reading a position keeps document order: it distributes over concatenation. */
  lemma {:induction false} PositionAppend(t1: seq<Tag>, t2: seq<Tag>, name: string, position: nat)
    ensures GetTagValuesByPosition(t1 + t2, name, position)
            == GetTagValuesByPosition(t1, name, position) + GetTagValuesByPosition(t2, name, position)
    decreases |t1|
  {
    if t1 == [] {
      assert t1 + t2 == t2;
    } else {
      var t := t1 + t2;
      assert t[0] == t1[0];
      assert t[1..] == t1[1..] + t2;
      PositionAppend(t1[1..], t2, name, position);
    }
  }

  /** The defined values among `GetAllTagValues`, unwrapped. */
  function DefinedValues(vs: seq<Option<string>>): seq<string> {
    if vs == [] then []
    else (if vs[0].Some? then [vs[0].value] else []) + DefinedValues(vs[1..])
  }

  /**
   * Reading position 1 drops exactly the tags too short to have a value:
   * it yields the defined values of `GetAllTagValues`, in the same order.
   */
  lemma {:induction false} ByPositionOneIsDefinedValues(tags: seq<Tag>, name: string)
    ensures GetTagValuesByPosition(tags, name, 1) == DefinedValues(GetAllTagValues(tags, name))
    decreases |tags|
  {
    if tags != [] {
      ByPositionOneIsDefinedValues(tags[1..], name);
      var rest := GetAllTagValues(tags[1..], name);
      if HasName(tags[0], name) {
        assert ([ValueOf(tags[0])] + rest)[1..] == rest;
      }
    }
  }

  // ---------------------------------------------------------------------
  // Structural classifiers

  /** `tags.some(tag => tag[0] === name)`. */
  predicate HasTag(tags: seq<Tag>, name: string) {
    exists i :: 0 <= i < |tags| && HasName(tags[i], name)
  }

  lemma HasTagAppend(front: seq<Tag>, back: seq<Tag>, name: string)
    ensures HasTag(front + back, name) <==> HasTag(front, name) || HasTag(back, name)
  {
    var t := front + back;
    if HasTag(front, name) {
      var i :| 0 <= i < |front| && HasName(front[i], name);
      assert t[i] == front[i];
      assert HasName(t[i], name);
    }
    if HasTag(back, name) {
      var i :| 0 <= i < |back| && HasName(back[i], name);
      assert t[|front| + i] == back[i];
      assert HasName(t[|front| + i], name);
    }
    if HasTag(t, name) {
      var i :| 0 <= i < |t| && HasName(t[i], name);
      if i < |front| {
        assert t[i] == front[i];
        assert HasName(front[i], name);
      } else {
        assert t[i] == back[i - |front|];
        assert HasName(back[i - |front|], name);
      }
    }
  }

  /** `isValidBadgeDefinition`: kind 30009 with some `d` tag, which the lookup then finds. */
  predicate IsValidBadgeDefinition(event: Event)
    ensures IsValidBadgeDefinition(event) <==> event.kind == BadgeDefinitionKind && FindTag(event.tags, "d").Some?
    ensures IsValidBadgeDefinition(event) ==> |GetAllTagValues(event.tags, "d")| > 0
  {
    GetAllTagValuesFromTags(event.tags, "d");
    event.kind == BadgeDefinitionKind && HasTag(event.tags, "d")
  }

  /** `isValidBadgeAward`: kind 8 with some `a` tag and some `p` tag. */
  predicate IsValidBadgeAward(event: Event)
    ensures IsValidBadgeAward(event) <==> && event.kind == BadgeAwardKind
                                          && FindTag(event.tags, "a").Some? && FindTag(event.tags, "p").Some?
    ensures IsValidBadgeAward(event) ==> |GetAllTagValues(event.tags, "p")| > 0
  {
    GetAllTagValuesFromTags(event.tags, "p");
    event.kind == BadgeAwardKind && HasTag(event.tags, "a") && HasTag(event.tags, "p")
  }

  /** `isValidProfileBadges`: kind 30008 whose first `d` tag holds `profile_badges`. */
  predicate IsValidProfileBadges(event: Event)
    ensures IsValidProfileBadges(event) <==>
              && event.kind == ProfileBadgesKind
              && FindTag(event.tags, "d").Some?
              && var d := event.tags[FindTag(event.tags, "d").value];
                 |d| > 1 && d[1] == ProfileBadgesIdentifier
  {
    event.kind == ProfileBadgesKind && GetTagValue(event, "d") == Some(ProfileBadgesIdentifier)
  }

  /**
   * A valid profile badge list is also structurally a list with a `d` tag;
   * the converse fails when the first `d` tag holds another value.
   */
  lemma ProfileBadgesHasDTag(event: Event)
    requires IsValidProfileBadges(event)
    ensures HasTag(event.tags, "d")
    ensures FindTag(event.tags, "d").Some?
  {
  }

  /** A definition whose first `d` tag is value-less is still valid, but has no slug. */
  lemma DefinitionValidWithoutSlug()
    ensures var e := Event("id", "pk", BadgeDefinitionKind, 0, [["d"]], "");
            IsValidBadgeDefinition(e) && GetTagValue(e, "d").None?
  {
    var e := Event("id", "pk", BadgeDefinitionKind, 0, [["d"]], "");
    assert HasName(e.tags[0], "d");
  }

  // ---------------------------------------------------------------------
  // Badge assembly

  /**
   * `processBadgeDefinition`: the empty record when the first `d` value is
   * missing or empty; otherwise the slug, the id (used both as `id` and as
   * `definitionId`), the issuer and the optional display tags.
   */
  function ProcessBadgeDefinition(definition: Event): (r: Option<BadgeInfo>)
    ensures r.None? <==> !Truthy(GetTagValue(definition, "d"))
    ensures r.Some? ==> && Some(r.value.badgeId) == GetTagValue(definition, "d")
                        && r.value.badgeId != ""
                        && r.value.id == definition.id
                        && r.value.definitionId == definition.id
                        && r.value.issuerPubkey == definition.pubkey
  {
    var badgeId := GetTagValue(definition, "d");
    if !Truthy(badgeId) then None
    else Some(BadgeInfo(
      id := definition.id,
      name := GetTagValue(definition, "name"),
      description := GetTagValue(definition, "description"),
      image := GetTagValue(definition, "image"),
      thumb := GetTagValue(definition, "thumb"),
      issuerPubkey := definition.pubkey,
      definitionId := definition.id,
      badgeId := badgeId.value))
  }

  /**
   * `combineBadgeInfo`: the definition's fields, plus the award's id and
   * timestamp when an award is given.
   */
  function CombineBadgeInfo(definition: Event, award: Option<Event>): (r: Badge)
    ensures r.info == ProcessBadgeDefinition(definition)
    ensures r.awardEventId.None?
    ensures r.awardId.Some? <==> award.Some?
    ensures award.Some? ==> r.awardId == Some(award.value.id) && r.issuedAt == Some(award.value.createdAt)
    ensures award.None? ==> r.issuedAt.None?
  {
    var badge := Badge(ProcessBadgeDefinition(definition), None, None, None);
    match award
    case None => badge
    case Some(a) => badge.(awardId := Some(a.id), issuedAt := Some(a.createdAt))
  }

  // ---------------------------------------------------------------------
  // Reference pairing

  /** `Math.min`. */
  function Min(a: int, b: int): int {
    if a <= b then a else b
  }

  /** The pairs a profile badge list denotes: its `a` values and `e` values zipped by position. */
  function PairReferences(tags: seq<Tag>): (r: seq<PairedRef>)
    ensures var aTags := GetAllTagValues(tags, "a");
            var eTags := GetAllTagValues(tags, "e");
            && |r| == Min(|aTags|, |eTags|)
            && forall i :: 0 <= i < |r| ==> r[i] == PairedRef(aTags[i], eTags[i])
  {
    var aTags := GetAllTagValues(tags, "a");
    var eTags := GetAllTagValues(tags, "e");
    seq(Min(|aTags|, |eTags|), i requires 0 <= i < Min(|aTags|, |eTags|) => PairedRef(aTags[i], eTags[i]))
  }

  /**
   * `extractBadgeReferences`: collects the `a` values and the `e` values
   * independently, then pushes one pair per position of the shorter list;
   * trailing unpaired values are dropped.
   */
  method ExtractBadgeReferences(profileBadges: Event) returns (results: seq<PairedRef>)
    ensures var aTags := GetAllTagValues(profileBadges.tags, "a");
            var eTags := GetAllTagValues(profileBadges.tags, "e");
            && |results| == Min(|aTags|, |eTags|)
            && forall i :: 0 <= i < |results| ==> results[i] == PairedRef(aTags[i], eTags[i])
    ensures results == PairReferences(profileBadges.tags)
  {
    results := [];
    var aTags := GetAllTagValues(profileBadges.tags, "a");
    var eTags := GetAllTagValues(profileBadges.tags, "e");
    var n := Min(|aTags|, |eTags|);
    for i := 0 to n
      invariant |results| == i
      invariant forall k :: 0 <= k < i ==> results[k] == PairedRef(aTags[k], eTags[k])
    {
      results := results + [PairedRef(aTags[i], eTags[i])];
    }
  }

  // ---------------------------------------------------------------------
  // Image dimensions

  /**
   * `getImageDimensions`: for `"url WxH"`, the width and height; absent
   * unless there is a second space-separated part, it splits on `x` into
   * exactly two pieces, and both pieces start with an integer.
   */
  function GetImageDimensions(imageTag: string): (r: Option<(int, int)>)
    ensures var parts := Split(imageTag, ' ');
            r.Some? <==> && |parts| >= 2
                         && |Split(parts[1], 'x')| == 2
                         && ParseDecimal(Split(parts[1], 'x')[0]).Some?
                         && ParseDecimal(Split(parts[1], 'x')[1]).Some?
    ensures r.Some? ==> var dims := Split(Split(imageTag, ' ')[1], 'x');
                        r.value == (ParseDecimal(dims[0]).value, ParseDecimal(dims[1]).value)
  {
    var parts := Split(imageTag, ' ');
    if |parts| < 2 then None
    else
      var dimensions := Split(parts[1], 'x');
      if |dimensions| != 2 then None
      else
        var width := ParseDecimal(dimensions[0]);
        var height := ParseDecimal(dimensions[1]);
        if width.None? || height.None? then None
        else Some((width.value, height.value))
  }

  /** A bare URL (no space) carries no dimensions. */
  lemma NoDimensionsWithoutSpace(url: string)
    requires ' ' !in url
    ensures GetImageDimensions(url).None?
  {
    SplitWithoutSeparator(url, ' ');
  }
}
