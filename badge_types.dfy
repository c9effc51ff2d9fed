/**
 * Nostr events and the badge records derived from them (NIP-58: badge
 * definitions of kind 30009, badge awards of kind 8, profile badge lists of
 * kind 30008).
 */
module BadgeTypes {
  import opened Wrappers

  /** A tag is a list of strings; by convention element 0 names it and element 1 is its value. */
  type Tag = seq<string>

  /**
   * A signed event as received from a relay. The signature is not part of
   * the model: nothing here checks it.
   */
  datatype Event = Event(
    id: string,
    pubkey: string,
    kind: int,
    createdAt: int,
    tags: seq<Tag>,
    content: string)

  const BadgeDefinitionKind: int := 30009
  const BadgeAwardKind: int := 8
  const ProfileBadgesKind: int := 30008
  const ProfileBadgesIdentifier: string := "profile_badges"

  /** The fields `processBadgeDefinition` copies out of a usable definition event. */
  datatype BadgeInfo = BadgeInfo(
    id: string,
    name: Option<string>,
    description: Option<string>,
    image: Option<string>,
    thumb: Option<string>,
    issuerPubkey: string,
    definitionId: string,
    badgeId: string)

  /**
   * A badge record. `info` is `None` when the definition had no usable `d`
   * value: the record is then the empty object `{}` the source casts to a
   * badge, carrying only the award fields set on it afterwards.
   */
  datatype Badge = Badge(
    info: Option<BadgeInfo>,
    awardId: Option<string>,
    awardEventId: Option<string>,
    issuedAt: Option<int>)
  {
    /** `badge.id`, which is the definition event's id (undefined on a degenerate record). */
    function Id(): Option<string> {
      if info.Some? then Some(info.value.id) else None
    }
    function IssuerPubkey(): Option<string> {
      if info.Some? then Some(info.value.issuerPubkey) else None
    }
    function BadgeId(): Option<string> {
      if info.Some? then Some(info.value.badgeId) else None
    }
  }

  /** A badge with the recipient's acceptance flag and display order. */
  datatype UserBadge = UserBadge(badge: Badge, accepted: bool, order: int)
  {
    function Id(): Option<string> {
      badge.Id()
    }
  }

  /** One (a, e) pair as read back from a profile badge list; either value may be missing. */
  datatype PairedRef = PairedRef(aTag: Option<string>, eTag: Option<string>)

  /** One (a, e) pair handed to the profile badge list serialiser. */
  datatype BadgeRef = BadgeRef(aTag: string, eTag: string)
}
