/**
 * The reconciliation round trips that cross components: an award the
 * award action publishes joins back to the definition it was made from,
 * and a list the editor saves reads back with exactly the saved awards
 * accepted.
 */
module Reconciliation {
  import opened Wrappers
  import opened Strings
  import opened Seqs
  import opened BadgeTypes
  import opened BadgeUtils
  import opened UseBadges
  import opened BadgeActions
  import opened ProfileBadgesManager

  /**
   * An award published for a definition joins, in front of any other
   * definitions, to that definition's badge, carrying the award's id and
   * time.
   */
  lemma AwardJoinsItsDefinition(definition: Event, others: seq<Event>, recipients: seq<string>,
                                author: string, eventId: string, createdAt: int)
    requires AwardBadge(Some(definition), recipients, author, eventId, createdAt).Published?
    requires ':' !in definition.pubkey && ':' !in GetTagValue(definition, "d").value
    ensures var award := AwardBadge(Some(definition), recipients, author, eventId, createdAt).event;
            JoinAward(award, [definition] + others)
              == Some(Badge(ProcessBadgeDefinition(definition), Some(eventId), Some(eventId), Some(createdAt)))
  {
    var award := AwardBadge(Some(definition), recipients, author, eventId, createdAt).event;
    var definitions := [definition] + others;
    var slug := GetTagValue(definition, "d").value;
    AwardResolvesToDefinition(definition, recipients, author, eventId, createdAt);
    assert definitions[0] == definition;
    assert MatchesCoordinate(definition.pubkey, slug)(definitions[0]);
  }

  /** The profile list event the editor's save publishes for `s`. */
  function SavedProfile(user: string, s: seq<UserBadge>, eventId: string, createdAt: int): Event {
    Event(eventId, user, ProfileBadgesKind, createdAt, ProfileBadgesTags(BadgeRefsOf(s)), "")
  }

  /** Each saved reference names the award of a saved entry of the list. */
  lemma SavedRefHasEntry(s: seq<UserBadge>, j: nat)
    requires j < |BadgeRefsOf(s)|
    ensures exists i :: 0 <= i < |s| && Savable()(s[i]) && s[i].badge.awardEventId == Some(BadgeRefsOf(s)[j].eTag)
  {
    var saved := SavedEntries(s);
    assert saved[j].badge.awardEventId == Some(BadgeRefsOf(s)[j].eTag);
    assert saved[j] in s && Savable()(saved[j]);
    var i :| 0 <= i < |s| && s[i] == saved[j];
  }

  /** Each accepted entry with an award id has its award among the saved references. */
  lemma SavableEntryIsSaved(s: seq<UserBadge>, i: nat)
    requires i < |s| && Savable()(s[i])
    ensures exists j :: 0 <= j < |BadgeRefsOf(s)| && Some(BadgeRefsOf(s)[j].eTag) == s[i].badge.awardEventId
  {
    var saved := SavedEntries(s);
    assert s[i] in Filter(s, Savable());
    assert s[i] in multiset(saved);
    var j :| 0 <= j < |saved| && saved[j] == s[i];
    assert Some(BadgeRefsOf(s)[j].eTag) == s[i].badge.awardEventId;
  }

  /** The award ids among a list's references are those of its accepted entries with an award id. */
  lemma SavedAwardIds(s: seq<UserBadge>, e: Option<string>)
    ensures (exists j :: 0 <= j < |BadgeRefsOf(s)| && Some(BadgeRefsOf(s)[j].eTag) == e)
            <==> exists i :: 0 <= i < |s| && Savable()(s[i]) && s[i].badge.awardEventId == e
  {
    var badgeRefs := BadgeRefsOf(s);
    if exists j :: 0 <= j < |badgeRefs| && Some(badgeRefs[j].eTag) == e {
      var j :| 0 <= j < |badgeRefs| && Some(badgeRefs[j].eTag) == e;
      SavedRefHasEntry(s, j);
    }
    if exists i :: 0 <= i < |s| && Savable()(s[i]) && s[i].badge.awardEventId == e {
      var i :| 0 <= i < |s| && Savable()(s[i]) && s[i].badge.awardEventId == e;
      SavableEntryIsSaved(s, i);
    }
  }

  /**
   * Reading back a saved list: a badge counts as accepted exactly when the
   * saved list held an accepted entry with the same award event id.
   */
  lemma SaveReloadAcceptance(user: string, s: seq<UserBadge>, eventId: string, createdAt: int, b: Badge)
    ensures IsAccepted(Some(SavedProfile(user, s, eventId, createdAt)), b)
            <==> exists i :: 0 <= i < |s| && Savable()(s[i]) && s[i].badge.awardEventId == b.awardEventId
  {
    var badgeRefs := BadgeRefsOf(s);
    var refs := PairReferences(SavedProfile(user, s, eventId, createdAt).tags);
    ProfileBadgesRoundTrip(badgeRefs);
    assert refs == AsPaired(badgeRefs);
    SavedAwardIds(s, b.awardEventId);
    PairedETags(badgeRefs, b.awardEventId);
    var accepted := IsAccepted(Some(SavedProfile(user, s, eventId, createdAt)), b);
    assert accepted == exists i :: 0 <= i < |refs| && refs[i].eTag == b.awardEventId;
  }

  /** A paired reference carries an `e` value exactly when the reference it came from does. */
  lemma PairedETags(badgeRefs: seq<BadgeRef>, e: Option<string>)
    ensures (exists i :: 0 <= i < |AsPaired(badgeRefs)| && AsPaired(badgeRefs)[i].eTag == e)
            <==> exists i :: 0 <= i < |badgeRefs| && Some(badgeRefs[i].eTag) == e
  {
    var paired := AsPaired(badgeRefs);
    if i :| 0 <= i < |paired| && paired[i].eTag == e {
      assert Some(badgeRefs[i].eTag) == e;
    }
    if i :| 0 <= i < |badgeRefs| && Some(badgeRefs[i].eTag) == e {
      assert paired[i].eTag == e;
      assert exists j :: 0 <= j < |AsPaired(badgeRefs)| && AsPaired(badgeRefs)[j].eTag == e;
    }
  }
}
