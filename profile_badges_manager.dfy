/**
 * The curated-list editor: the signed-in user's badge list, edited by
 * accept, reject, move up and move down, each of which hands the edited
 * list to `saveBadges`, which turns it back into the ordered (a, e)
 * references of the profile badge list.
 *
 * Entries are looked up by `Id()`, the definition event's id, with the
 * first match winning; two awards of one definition share that id.
 */
module ProfileBadgesManager {
  import opened Wrappers
  import opened Strings
  import opened Seqs
  import opened Sorting
  import opened BadgeTypes
  import opened BadgeUtils
  import opened UseBadges

  // ---------------------------------------------------------------------
  // Lookups

  function HasId(id: Option<string>): UserBadge -> bool {
    (b: UserBadge) => b.Id() == id
  }

  /** `findIndex(b => b.id === id)`. */
  function FindById(s: seq<UserBadge>, id: Option<string>): Option<nat> {
    FindIndex(s, HasId(id))
  }

  function IsAcceptedEntry(): UserBadge -> bool {
    (b: UserBadge) => b.accepted
  }

  /** `badges.filter(b => b.accepted)`. */
  function AcceptedEntries(s: seq<UserBadge>): seq<UserBadge> {
    Filter(s, IsAcceptedEntry())
  }

  /** An entry of a filtered list is found in the list it came from. */
  lemma FoundInSource(s: seq<UserBadge>, q: nat)
    requires q < |AcceptedEntries(s)|
    ensures FindById(s, AcceptedEntries(s)[q].Id()).Some?
  {
    var x := AcceptedEntries(s)[q];
    var k :| 0 <= k < |s| && s[k] == x;
    assert HasId(x.Id())(s[k]);
  }

  // ---------------------------------------------------------------------
  // The effect of each handler on the list

  /** `Math.max(0, ...orders of the accepted entries)`. */
  function MaxAcceptedOrder(s: seq<UserBadge>): (m: int)
    ensures m >= 0
    ensures forall i :: 0 <= i < |s| && s[i].accepted ==> s[i].order <= m
    ensures m == 0 || exists i :: 0 <= i < |s| && s[i].accepted && s[i].order == m
  {
    if s == [] then 0
    else
      var rest := MaxAcceptedOrder(s[1..]);
      assert forall i :: 0 < i < |s| ==> s[i] == s[1..][i - 1];
      if s[0].accepted && s[0].order > rest then s[0].order else rest
  }

  /**
   * Accepting entry `k`: it becomes accepted with an order one above every
   * accepted order, its own old order included; nothing else changes.
   */
  function AcceptAt(s: seq<UserBadge>, k: nat): (r: seq<UserBadge>)
    requires k < |s|
    ensures |r| == |s| && r[k].accepted && r[k].badge == s[k].badge
    ensures forall i :: 0 <= i < |s| && i != k ==> r[i] == s[i]
    ensures r[k].order > s[k].order && r[k].order >= 1
    ensures forall i :: 0 <= i < |s| && i != k && r[i].accepted ==> r[i].order < r[k].order
  {
    var marked := s[k := s[k].(accepted := true)];
    marked[k := marked[k].(order := MaxAcceptedOrder(marked) + 1)]
  }

  /** Rejecting entry `k`: it becomes unaccepted and keeps its (now stale) order; nothing else changes. */
  function RejectAt(s: seq<UserBadge>, k: nat): (r: seq<UserBadge>)
    requires k < |s|
    ensures |r| == |s| && !r[k].accepted && r[k].badge == s[k].badge && r[k].order == s[k].order
    ensures forall i :: 0 <= i < |s| && i != k ==> r[i] == s[i]
  {
    s[k := s[k].(accepted := false)]
  }

  /** The orders of a list, position by position. */
  function Orders(s: seq<UserBadge>): (r: seq<int>)
    ensures |r| == |s| && forall i :: 0 <= i < |s| ==> r[i] == s[i].order
  {
    seq(|s|, i requires 0 <= i < |s| => s[i].order)
  }

  /** Swapping the orders of entries `i` and `j`; everything else stays. */
  function SwapOrders(s: seq<UserBadge>, i: nat, j: nat): (r: seq<UserBadge>)
    requires i < |s| && j < |s|
    ensures |r| == |s|
    ensures r[i] == s[i].(order := s[j].order) && r[j] == s[j].(order := s[i].order)
    ensures forall k :: 0 <= k < |s| && k != i && k != j ==> r[k] == s[k]
    ensures multiset(Orders(r)) == multiset(Orders(s))
  {
    var tempOrder := s[i].order;
    var moved := s[i := s[i].(order := s[j].order)];
    var r := moved[j := moved[j].(order := tempOrder)];
    assert Orders(r) == Orders(s)[i := s[j].order][j := s[i].order];
    r
  }

  /**
   * The entries `handleMoveUp` swaps for an entry with id `id`: the first
   * entry with that id and the first entry with the id of its predecessor
   * among the accepted entries; `None` when the entry is not accepted or is
   * the first accepted one.
   */
  function MoveUpPositions(s: seq<UserBadge>, id: Option<string>): (r: Option<(nat, nat)>)
    ensures r.Some? ==> r.value.0 < |s| && r.value.1 < |s|
    ensures r.Some? ==> FindById(s, id) == Some(r.value.0)
    ensures r.Some? <==> FindById(AcceptedEntries(s), id).Some? && FindById(AcceptedEntries(s), id).value > 0
    ensures r.Some? ==> var p := FindById(AcceptedEntries(s), id).value;
                        0 < p < |AcceptedEntries(s)| && FindById(s, AcceptedEntries(s)[p - 1].Id()) == Some(r.value.1)
  {
    var accepted := AcceptedEntries(s);
    match FindById(accepted, id)
    case None => None
    case Some(p) =>
      if p == 0 then None
      else
        FoundInSource(s, p);
        FoundInSource(s, p - 1);
        assert accepted[p].Id() == id;
        Some((FindById(s, id).value, FindById(s, accepted[p - 1].Id()).value))
  }

  /**
   * The entries `handleMoveDown` swaps: the first entry with id `id` and
   * the first entry with the id of its successor among the accepted
   * entries; `None` when it is the last accepted one. Some accepted entry
   * must carry `id`, as every entry the list shows in its accepted rows does.
   */
  function MoveDownPositions(s: seq<UserBadge>, id: Option<string>): (r: Option<(nat, nat)>)
    requires exists k :: 0 <= k < |s| && s[k].accepted && s[k].Id() == id
    ensures r.Some? ==> r.value.0 < |s| && r.value.1 < |s|
    ensures r.Some? ==> FindById(s, id) == Some(r.value.0)
    ensures FindById(AcceptedEntries(s), id).Some?
    ensures r.Some? <==> FindById(AcceptedEntries(s), id).value < |AcceptedEntries(s)| - 1
    ensures r.Some? ==> var p := FindById(AcceptedEntries(s), id).value;
                        p + 1 < |AcceptedEntries(s)| && FindById(s, AcceptedEntries(s)[p + 1].Id()) == Some(r.value.1)
  {
    var accepted := AcceptedEntries(s);
    var k :| 0 <= k < |s| && s[k].accepted && s[k].Id() == id;
    assert IsAcceptedEntry()(s[k]);
    assert HasId(id)(s[k]);
    var p := FindById(accepted, id).value;
    if p >= |accepted| - 1 then None
    else
      FoundInSource(s, p);
      FoundInSource(s, p + 1);
      Some((FindById(s, id).value, FindById(s, accepted[p + 1].Id()).value))
  }

  /** No two entries of the list share a definition id. */
  ghost predicate DistinctIds(s: seq<UserBadge>) {
    forall i, j :: 0 <= i < j < |s| ==> s[i].Id() != s[j].Id()
  }

  /** Filtering keeps ids distinct. */
  lemma {:induction false} FilterDistinctIds(s: seq<UserBadge>, p: UserBadge -> bool)
    requires DistinctIds(s)
    ensures DistinctIds(Filter(s, p))
    decreases |s|
  {
    if s != [] {
      FilterDistinctIds(s[1..], p);
      var rest := Filter(s[1..], p);
      forall k | 0 <= k < |rest| ensures rest[k].Id() != s[0].Id() {
        var y :| 0 <= y < |s[1..]| && s[1..][y] == rest[k];
        assert s[y + 1] == rest[k];
      }
    }
  }

  /** With distinct ids, looking an entry's id up finds that entry. */
  lemma FindOwnId(s: seq<UserBadge>, y: nat)
    requires DistinctIds(s) && y < |s|
    ensures FindById(s, s[y].Id()) == Some(y)
  {
    assert HasId(s[y].Id())(s[y]);
    var k := FindById(s, s[y].Id()).value;
    assert HasId(s[y].Id())(s[k]);
  }

  /** With distinct ids, an accepted entry is found in the full list at a position holding it. */
  lemma FindAccepted(s: seq<UserBadge>, q: nat)
    requires DistinctIds(s) && q < |AcceptedEntries(s)|
    ensures FindById(s, AcceptedEntries(s)[q].Id()).Some?
    ensures s[FindById(s, AcceptedEntries(s)[q].Id()).value] == AcceptedEntries(s)[q]
  {
    var x := AcceptedEntries(s)[q];
    var y :| 0 <= y < |s| && s[y] == x;
    FindOwnId(s, y);
  }

  /**
   * Moving up swaps an accepted entry with the accepted entry just before
   * it in the filtered list, when ids are distinct.
   */
  lemma MoveUpSwapsWithPredecessor(s: seq<UserBadge>, p: nat)
    requires DistinctIds(s) && 0 < p < |AcceptedEntries(s)|
    ensures var a := AcceptedEntries(s);
            var r := MoveUpPositions(s, a[p].Id());
            r.Some? && s[r.value.0] == a[p] && s[r.value.1] == a[p - 1]
  {
    var a := AcceptedEntries(s);
    FilterDistinctIds(s, IsAcceptedEntry());
    FindOwnId(a, p);
    FindAccepted(s, p);
    FindAccepted(s, p - 1);
    var r := MoveUpPositions(s, a[p].Id());
    assert r.Some?;
    assert r.value.0 == FindById(s, a[p].Id()).value;
    assert r.value.1 == FindById(s, a[p - 1].Id()).value;
  }

  /**
   * Moving down swaps an accepted entry with the accepted entry just after
   * it in the filtered list, when ids are distinct.
   */
  lemma MoveDownSwapsWithSuccessor(s: seq<UserBadge>, p: nat)
    requires DistinctIds(s) && p + 1 < |AcceptedEntries(s)|
    ensures var a := AcceptedEntries(s);
            exists k :: 0 <= k < |s| && s[k].accepted && s[k].Id() == a[p].Id()
    ensures var a := AcceptedEntries(s);
            var r := MoveDownPositions(s, a[p].Id());
            r.Some? && s[r.value.0] == a[p] && s[r.value.1] == a[p + 1]
  {
    var a := AcceptedEntries(s);
    FilterDistinctIds(s, IsAcceptedEntry());
    FindOwnId(a, p);
    FindAccepted(s, p);
    FindAccepted(s, p + 1);
    var y := FindById(s, a[p].Id()).value;
    assert s[y].accepted && s[y].Id() == a[p].Id();
  }

  /** Moving the first accepted entry up changes nothing. */
  lemma MoveUpFirstIsNoOp(s: seq<UserBadge>)
    requires AcceptedEntries(s) != []
    ensures MoveUpPositions(s, AcceptedEntries(s)[0].Id()).None?
  {
  }

  /** Moving the last accepted entry down changes nothing, when no other accepted entry shares its id. */
  lemma MoveDownLastIsNoOp(s: seq<UserBadge>)
    requires AcceptedEntries(s) != []
    requires var a := AcceptedEntries(s);
             forall q :: 0 <= q < |a| - 1 ==> a[q].Id() != a[|a| - 1].Id()
    ensures var a := AcceptedEntries(s);
            exists k :: 0 <= k < |s| && s[k].accepted && s[k].Id() == a[|a| - 1].Id()
    ensures var a := AcceptedEntries(s);
            MoveDownPositions(s, a[|a| - 1].Id()).None?
  {
    var a := AcceptedEntries(s);
    var x := a[|a| - 1];
    var k :| 0 <= k < |s| && s[k] == x;
    assert s[k].accepted && s[k].Id() == x.Id();
    assert FindById(a, x.Id()) == Some(|a| - 1);
  }

  // ---------------------------------------------------------------------
  // saveBadges: the list back into references

  /** Kept by `saveBadges`: accepted and carrying an award event id. */
  function Savable(): (r: UserBadge -> bool)
    ensures forall b :: r(b) <==> b.accepted && b.badge.awardEventId.Some? && b.badge.awardEventId.value != ""
  {
    (b: UserBadge) => b.accepted && Truthy(b.badge.awardEventId)
  }

  /** The save comparator `a.order - b.order`. */
  function CompareOrder(a: UserBadge, b: UserBadge): (r: int)
    ensures r < 0 <==> a.order < b.order
    ensures r == 0 <==> a.order == b.order
  {
    a.order - b.order
  }

  /** The kept entries, stably sorted by ascending order. */
  function SavedEntries(s: seq<UserBadge>): (r: seq<UserBadge>)
    ensures multiset(r) == multiset(Filter(s, Savable()))
    ensures forall i :: 0 <= i < |r| ==> Savable()(r[i]) && r[i] in s
  {
    var kept := Filter(s, Savable());
    var r := SortBy(kept, CompareOrder);
    assert forall i :: 0 <= i < |r| ==> r[i] in multiset(kept);
    r
  }

  /** The saved entries are in ascending order. */
  lemma SavedEntriesAscending(s: seq<UserBadge>)
    ensures var r := SavedEntries(s);
            forall i, j :: 0 <= i < j < |r| ==> r[i].order <= r[j].order
  {
    var kept := Filter(s, Savable());
    SortBySorted(kept, CompareOrder);
  }

  /** One reference: the coordinate `30009:<issuer>:<slug>` (each `undefined` when missing) and the award id. */
  function ToBadgeRef(b: UserBadge): (r: BadgeRef)
    requires b.badge.awardEventId.Some?
    ensures Some(r.eTag) == b.badge.awardEventId
    ensures var issuer, slug := Interpolate(b.badge.IssuerPubkey()), Interpolate(b.badge.BadgeId());
            ':' !in issuer && ':' !in slug ==> Split(r.aTag, ':') == [IntToDecimal(BadgeDefinitionKind), issuer, slug]
  {
    BadgeRef(CreateATagIdentifier(BadgeDefinitionKind, Interpolate(b.badge.IssuerPubkey()), Interpolate(b.badge.BadgeId())),
             b.badge.awardEventId.value)
  }

  /** The references `saveBadges` hands to the profile mutation. */
  function BadgeRefsOf(s: seq<UserBadge>): (r: seq<BadgeRef>)
    ensures |r| == |SavedEntries(s)|
    ensures forall i :: 0 <= i < |r| ==> SavedEntries(s)[i].badge.awardEventId == Some(r[i].eTag)
                                         && r[i] == ToBadgeRef(SavedEntries(s)[i])
  {
    var saved := SavedEntries(s);
    seq(|saved|, i requires 0 <= i < |saved| => ToBadgeRef(saved[i]))
  }

  /** A reference's coordinate reads back as the entry's issuer and slug, when neither holds a `:`. */
  lemma BadgeRefCoordinate(b: UserBadge)
    requires b.badge.awardEventId.Some? && b.badge.info.Some?
    requires ':' !in b.badge.info.value.issuerPubkey && ':' !in b.badge.info.value.badgeId
    ensures ParseATagIdentifier(ToBadgeRef(b).aTag)
            == Some(ATagRef(Some(BadgeDefinitionKind), b.badge.info.value.issuerPubkey, b.badge.info.value.badgeId))
  {
    ATagRoundTrip(BadgeDefinitionKind, b.badge.info.value.issuerPubkey, b.badge.info.value.badgeId);
  }

  /** After accepting entry `k`, it is the last one saved when it carries an award event id. */
  lemma AcceptedIsSavedLast(s: seq<UserBadge>, k: nat)
    requires k < |s| && Truthy(s[k].badge.awardEventId)
    ensures var r := AcceptAt(s, k);
            var refs := BadgeRefsOf(r);
            refs != [] && refs[|refs| - 1] == ToBadgeRef(r[k])
  {
    var r := AcceptAt(s, k);
    var saved := SavedEntries(r);
    assert Savable()(r[k]);
    assert r[k] in multiset(Filter(r, Savable()));
    assert r[k] in multiset(saved);
    var m :| 0 <= m < |saved| && saved[m] == r[k];
    var n := |saved|;
    var last := saved[n - 1];
    SavedEntriesAscending(r);
    assert last.order >= r[k].order by {
      if m < n - 1 {
        assert saved[m].order <= saved[n - 1].order;
      }
    }
    var i :| 0 <= i < |r| && r[i] == last;
    assert i == k;
  }

  // ---------------------------------------------------------------------
  // Accepting the second award of one definition

  /** Two awards of one definition, the first accepted and the second not. */
  function TwoAwardsOfOneDefinition(): seq<UserBadge> {
    var info := BadgeInfo("def", None, None, None, None, "issuer", "def", "slug");
    [UserBadge(Badge(Some(info), Some("award1"), Some("award1"), Some(2)), true, 1),
     UserBadge(Badge(Some(info), Some("award2"), Some("award2"), Some(1)), false, 0)]
  }

  /**
   * Accepting the second, unaccepted award as written finds the first
   * entry with the same definition id instead: the clicked award stays
   * unaccepted and the already accepted one is moved to the end.
   */
  lemma AcceptMissesSecondAward()
    ensures var s := TwoAwardsOfOneDefinition();
            && FindById(s, s[1].Id()) == Some(0)
            && !AcceptAt(s, FindById(s, s[1].Id()).value)[1].accepted
  {
    var s := TwoAwardsOfOneDefinition();
    assert HasId(s[1].Id())(s[0]);
  }

  function HasAwardEventId(awardEventId: Option<string>): UserBadge -> bool {
    (b: UserBadge) => b.badge.awardEventId == awardEventId
  }

  /** Awards are told apart by their award event ids. */
  ghost predicate DistinctAwards(s: seq<UserBadge>) {
    forall i, j :: 0 <= i < j < |s| && s[i].badge.awardEventId.Some? ==> s[i].badge.awardEventId != s[j].badge.awardEventId
  }

  /**
   * Accepting as evidently intended: the entry carrying the clicked
   * badge's award event id is the one accepted; nothing changes when no
   * entry carries it.
   */
  function AcceptClicked(s: seq<UserBadge>, badge: UserBadge): (r: seq<UserBadge>)
    ensures FindIndex(s, HasAwardEventId(badge.badge.awardEventId)).None? ==> r == s
    ensures FindIndex(s, HasAwardEventId(badge.badge.awardEventId)).Some? ==>
              r == AcceptAt(s, FindIndex(s, HasAwardEventId(badge.badge.awardEventId)).value)
  {
    match FindIndex(s, HasAwardEventId(badge.badge.awardEventId))
    case None => s
    case Some(k) => AcceptAt(s, k)
  }

  /** With distinct award ids, accepting any listed award accepts that very entry and places it last. */
  lemma AcceptClickedAcceptsIt(s: seq<UserBadge>, k: nat)
    requires k < |s| && DistinctAwards(s) && s[k].badge.awardEventId.Some?
    ensures var r := AcceptClicked(s, s[k]);
            && |r| == |s| && r[k].accepted && r[k].badge == s[k].badge
            && forall i :: 0 <= i < |s| && i != k && r[i].accepted ==> r[i].order < r[k].order
  {
    var p := HasAwardEventId(s[k].badge.awardEventId);
    assert p(s[k]);
  }

  // ---------------------------------------------------------------------
  // The editor

  class Editor {
    /** The signed-in user's public key, `None` when nobody is signed in. */
    var user: Option<string>
    /** The list the editor shows and edits. */
    var badges: seq<UserBadge>
    /** The references of every profile update requested so far, oldest first. */
    var published: seq<seq<BadgeRef>>

    constructor(user: Option<string>, badges: seq<UserBadge>)
      ensures this.user == user && this.badges == badges && published == []
    {
      this.user := user;
      this.badges := badges;
      published := [];
    }

    /** `saveBadges`: without a user nothing happens; otherwise the list's references are published. */
    method SaveBadges(badgesToSave: seq<UserBadge>)
      modifies this
      ensures user == old(user) && badges == old(badges)
      ensures user.None? ==> published == old(published)
      ensures user.Some? ==> published == old(published) + [BadgeRefsOf(badgesToSave)]
    {
      if user.None? {
        return;
      }
      var badgeRefs := BadgeRefsOf(badgesToSave);
      published := published + [badgeRefs];
    }

    /**
     * `handleAccept`: without a user or an award event id nothing happens;
     * otherwise the first entry with the badge's id is accepted and placed
     * after every accepted entry, and the list is saved.
     */
    method Accept(badge: UserBadge)
      modifies this
      ensures user == old(user)
      ensures user.None? || !Truthy(badge.badge.awardEventId) || FindById(old(badges), badge.Id()).None?
              ==> badges == old(badges) && published == old(published)
      ensures user.Some? && Truthy(badge.badge.awardEventId) && FindById(old(badges), badge.Id()).Some?
              ==> var k := FindById(old(badges), badge.Id()).value;
                  && badges == AcceptAt(old(badges), k)
                  && published == old(published) + [BadgeRefsOf(badges)]
    {
      if user.None? || !Truthy(badge.badge.awardEventId) {
        return;
      }
      var newBadges := badges;
      var badgeIndex := FindById(newBadges, badge.Id());
      if badgeIndex.Some? {
        var k := badgeIndex.value;
        newBadges := newBadges[k := newBadges[k].(accepted := true)];
        var maxOrder := MaxAcceptedOrder(newBadges);
        newBadges := newBadges[k := newBadges[k].(order := maxOrder + 1)];
        badges := newBadges;
        SaveBadges(newBadges);
      }
    }

    /**
     * `handleReject`: without a user nothing happens; otherwise the first
     * entry with the badge's id is unaccepted and the list is saved.
     */
    method Reject(badge: UserBadge)
      modifies this
      ensures user == old(user)
      ensures user.None? || FindById(old(badges), badge.Id()).None?
              ==> badges == old(badges) && published == old(published)
      ensures user.Some? && FindById(old(badges), badge.Id()).Some?
              ==> var k := FindById(old(badges), badge.Id()).value;
                  && badges == RejectAt(old(badges), k)
                  && published == old(published) + [BadgeRefsOf(badges)]
    {
      if user.None? {
        return;
      }
      var newBadges := badges;
      var badgeIndex := FindById(newBadges, badge.Id());
      if badgeIndex.Some? {
        var k := badgeIndex.value;
        newBadges := newBadges[k := newBadges[k].(accepted := false)];
        badges := newBadges;
        SaveBadges(newBadges);
      }
    }

    /**
     * The swap both move handlers share: exchanges the orders of entries `i`
     * and `j`, shows the list re-sorted by the view comparator and saves the
     * swapped, unsorted list.
     */
    method SwapAndSave(i: nat, j: nat)
      requires i < |badges| && j < |badges|
      modifies this
      ensures user == old(user)
      ensures badges == SortBy(SwapOrders(old(badges), i, j), CompareUserBadges)
      ensures user.None? ==> published == old(published)
      ensures user.Some? ==> published == old(published) + [BadgeRefsOf(SwapOrders(old(badges), i, j))]
      ensures ViewOrdered(badges)
    {
      var newBadges := badges;
      var tempOrder := newBadges[i].order;
      newBadges := newBadges[i := newBadges[i].(order := newBadges[j].order)];
      newBadges := newBadges[j := newBadges[j].(order := tempOrder)];
      assert newBadges == SwapOrders(old(badges), i, j);
      SortedViewOrdered(newBadges);
      badges := SortBy(newBadges, CompareUserBadges);
      SaveBadges(newBadges);
    }

    /**
     * `handleMoveUp`: unless there is no user, the badge is unaccepted or it
     * is the first accepted entry, swaps its order with its accepted
     * predecessor's, shows the re-sorted list and saves the unsorted one.
     */
    method MoveUp(badge: UserBadge)
      modifies this
      ensures user == old(user)
      ensures user.None? || !badge.accepted || MoveUpPositions(old(badges), badge.Id()).None?
              ==> badges == old(badges) && published == old(published)
      ensures user.Some? && badge.accepted && MoveUpPositions(old(badges), badge.Id()).Some?
              ==> var (i, j) := MoveUpPositions(old(badges), badge.Id()).value;
                  var swapped := SwapOrders(old(badges), i, j);
                  && badges == SortBy(swapped, CompareUserBadges)
                  && published == old(published) + [BadgeRefsOf(swapped)]
      ensures ViewOrdered(badges) || badges == old(badges)
    {
      if user.None? || !badge.accepted {
        return;
      }
      var positions := MoveUpPositions(badges, badge.Id());
      if positions.Some? {
        var (badgeToMoveIndex, prevBadgeIndex) := positions.value;
        SwapAndSave(badgeToMoveIndex, prevBadgeIndex);
      }
    }

    /**
     * `handleMoveDown`: unless there is no user, the badge is unaccepted or
     * it is the last accepted entry, swaps its order with its accepted
     * successor's, shows the re-sorted list and saves the unsorted one. The
     * badge is one of the listed entries, as the accepted rows pass it.
     */
    method MoveDown(badge: UserBadge)
      requires badge in badges
      modifies this
      ensures user == old(user)
      ensures user.None? || !badge.accepted ==> badges == old(badges) && published == old(published)
      ensures user.Some? && badge.accepted && MoveDownPositions(old(badges), badge.Id()).None?
              ==> badges == old(badges) && published == old(published)
      ensures user.Some? && badge.accepted && MoveDownPositions(old(badges), badge.Id()).Some?
              ==> var (i, j) := MoveDownPositions(old(badges), badge.Id()).value;
                  var swapped := SwapOrders(old(badges), i, j);
                  && badges == SortBy(swapped, CompareUserBadges)
                  && published == old(published) + [BadgeRefsOf(swapped)]
      ensures ViewOrdered(badges) || badges == old(badges)
    {
      if user.None? || !badge.accepted {
        return;
      }
      var positions := MoveDownPositions(badges, badge.Id());
      if positions.Some? {
        var (badgeToMoveIndex, nextBadgeIndex) := positions.value;
        SwapAndSave(badgeToMoveIndex, nextBadgeIndex);
      }
    }
  }
}
