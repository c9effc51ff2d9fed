/**
 * The badge explorer: every valid definition as a row, filtered by a
 * free-text search and sorted newest first, oldest first, by name, or not
 * at all.
 */
module BadgeExplorer {
  import opened Wrappers
  import opened Strings
  import opened Seqs
  import opened Sorting
  import opened BadgeTypes
  import opened BadgeUtils

  // ---------------------------------------------------------------------
  // Rows

  /**
   * An explorer row: the assembled definition fields, all absent when the
   * definition had no usable `d` value, with the issuer and ids taken from
   * the definition event itself.
   */
  datatype ExplorerBadge = ExplorerBadge(
    name: Option<string>,
    description: Option<string>,
    image: Option<string>,
    thumb: Option<string>,
    badgeId: Option<string>,
    issuerPubkey: string,
    definitionId: string,
    id: string)

  /** The row of one definition. */
  function ToExplorerBadge(definition: Event): (b: ExplorerBadge)
    ensures b.issuerPubkey == definition.pubkey && b.definitionId == definition.id && b.id == definition.id
    ensures b.badgeId.Some? <==> Truthy(GetTagValue(definition, "d"))
    ensures b.badgeId.Some? ==> b.badgeId == GetTagValue(definition, "d")
    ensures b.badgeId.None? ==> b.name.None? && b.description.None? && b.image.None? && b.thumb.None?
  {
    match ProcessBadgeDefinition(definition)
    case None => ExplorerBadge(None, None, None, None, None, definition.pubkey, definition.id, definition.id)
    case Some(info) =>
      ExplorerBadge(info.name, info.description, info.image, info.thumb, Some(info.badgeId),
                    definition.pubkey, definition.id, definition.id)
  }

  /** The rows of the valid definitions, in query order. */
  function ExplorerBadges(events: seq<Event>): (r: seq<ExplorerBadge>)
    ensures var defs := Filter(events, IsValidBadgeDefinition);
            |r| == |defs| && forall i :: 0 <= i < |r| ==> r[i] == ToExplorerBadge(defs[i])
  {
    var defs := Filter(events, IsValidBadgeDefinition);
    seq(|defs|, i requires 0 <= i < |defs| => ToExplorerBadge(defs[i]))
  }

  // ---------------------------------------------------------------------
  // Search

  /** An optional field that, lower-cased, contains `searchLower`. */
  predicate FieldMatches(field: Option<string>, searchLower: string) {
    field.Some? && Includes(Lower(field.value), searchLower)
  }

  /**
   * The search predicate as written: `None` stands for the TypeError thrown
   * when the name, description and issuer all fail to match and the row has
   * no badge id to lower-case.
   */
  function MatchesSearchAsWritten(b: ExplorerBadge, searchTerm: string): (r: Option<bool>)
    ensures r.None? <==> && searchTerm != ""
                         && !FieldMatches(b.name, Lower(searchTerm))
                         && !FieldMatches(b.description, Lower(searchTerm))
                         && !Includes(Lower(b.issuerPubkey), Lower(searchTerm))
                         && b.badgeId.None?
  {
    if searchTerm == "" then Some(true)
    else
      var searchLower := Lower(searchTerm);
      if FieldMatches(b.name, searchLower) || FieldMatches(b.description, searchLower)
         || Includes(Lower(b.issuerPubkey), searchLower)
      then Some(true)
      else if b.badgeId.None? then None
      else Some(Includes(Lower(b.badgeId.value), searchLower))
  }

  /**
   * The search as evidently intended: an empty term keeps every row;
   * otherwise a row is kept when the lower-cased term occurs in its
   * lower-cased name, description, issuer or badge id, a missing field
   * matching nothing.
   */
  function MatchesSearch(searchTerm: string): (r: ExplorerBadge -> bool)
    ensures searchTerm == "" ==> forall b: ExplorerBadge :: r(b)
    ensures forall b: ExplorerBadge :: Includes(Lower(b.issuerPubkey), Lower(searchTerm)) ==> r(b)
    ensures forall b: ExplorerBadge :: r(b) && searchTerm != "" ==>
              b.name.Some? || b.description.Some? || b.badgeId.Some? || Includes(Lower(b.issuerPubkey), Lower(searchTerm))
  {
    (b: ExplorerBadge) =>
      searchTerm == ""
      || FieldMatches(b.name, Lower(searchTerm))
      || FieldMatches(b.description, Lower(searchTerm))
      || Includes(Lower(b.issuerPubkey), Lower(searchTerm))
      || FieldMatches(b.badgeId, Lower(searchTerm))
  }

  /** Where the written search answers at all, it answers as intended; where it throws, the row does not match. */
  lemma SearchAsWrittenAgrees(b: ExplorerBadge, searchTerm: string)
    ensures MatchesSearchAsWritten(b, searchTerm).Some? ==> MatchesSearchAsWritten(b, searchTerm).value == MatchesSearch(searchTerm)(b)
    ensures MatchesSearchAsWritten(b, searchTerm).None? ==> !MatchesSearch(searchTerm)(b)
  {
  }

  /** The filter as written: it throws at the first row the search throws on. */
  function FilterAsWritten(badges: seq<ExplorerBadge>, searchTerm: string): (r: Option<seq<ExplorerBadge>>)
    ensures r.None? <==> exists i :: 0 <= i < |badges| && MatchesSearchAsWritten(badges[i], searchTerm).None?
    ensures r.Some? ==> r.value == Filter(badges, MatchesSearch(searchTerm))
    decreases |badges|
  {
    if badges == [] then Some([])
    else
      assert forall i :: 0 < i < |badges| ==> badges[i] == badges[1..][i - 1];
      SearchAsWrittenAgrees(badges[0], searchTerm);
      match MatchesSearchAsWritten(badges[0], searchTerm)
      case None => None
      case Some(keep) =>
        match FilterAsWritten(badges[1..], searchTerm)
        case None => None
        case Some(rest) => Some(if keep then [badges[0]] + rest else rest)
  }

  /** The filtered rows. */
  function FilterBadges(badges: seq<ExplorerBadge>, searchTerm: string): (r: seq<ExplorerBadge>)
    ensures |r| <= |badges|
    ensures forall i :: 0 <= i < |r| ==> r[i] in badges && MatchesSearch(searchTerm)(r[i])
    ensures forall i :: 0 <= i < |badges| && MatchesSearch(searchTerm)(badges[i]) ==> badges[i] in r
  {
    Filter(badges, MatchesSearch(searchTerm))
  }

  /** An empty search keeps every row. */
  lemma EmptySearchKeepsAll(badges: seq<ExplorerBadge>)
    ensures FilterBadges(badges, "") == badges
  {
    FilterAll(badges, MatchesSearch(""));
  }

  /** The filter keeps input order: it distributes over concatenation. */
  lemma FilterBadgesAppend(front: seq<ExplorerBadge>, back: seq<ExplorerBadge>, searchTerm: string)
    ensures FilterBadges(front + back, searchTerm) == FilterBadges(front, searchTerm) + FilterBadges(back, searchTerm)
  {
    FilterAppend(front, back, MatchesSearch(searchTerm));
  }

  /** A valid definition whose `d` tag is empty. */
  const DefinitionWithEmptySlug: Event := Event("e1", "abc", BadgeDefinitionKind, 0, [["d", ""]], "")

  /**
   * A valid definition with an empty `d` value makes any search that its
   * issuer does not match throw, and the whole filter with it; the intended
   * filter just leaves the row out.
   */
  lemma SearchThrowsOnEmptySlug()
    ensures IsValidBadgeDefinition(DefinitionWithEmptySlug)
    ensures FilterAsWritten([ToExplorerBadge(DefinitionWithEmptySlug)], "zzz").None?
    ensures FilterBadges([ToExplorerBadge(DefinitionWithEmptySlug)], "zzz") == []
  {
    var e := DefinitionWithEmptySlug;
    assert HasName(e.tags[0], "d");
    TagValueOfFirst(e.tags, "d", "");
    var b := ToExplorerBadge(e);
    assert Lower("abc") == "abc";
    assert Lower("zzz") == "zzz";
    IncludesHead("abc", "zzz");
    assert MatchesSearchAsWritten(b, "zzz").None?;
    assert !MatchesSearch("zzz")(b);
  }

  // ---------------------------------------------------------------------
  // Sort

  /**
   * The sort key of a row: `parseInt` of the first eight characters of
   * the definition id in base 16, or 0 for an empty id; `None` is NaN.
   */
  function SortKey(b: ExplorerBadge): (r: Option<int>)
    ensures b.definitionId == "" ==> r == Some(0)
  {
    if b.definitionId == "" then Some(0)
    else ParseHex(b.definitionId[..Min(8, |b.definitionId|)])
  }

  lemma {:induction false} LeadingHexDigitsOfHexDigits(s: string)
    requires AllHexDigits(s)
    ensures LeadingHexDigits(s) == s
    decreases |s|
  {
    if s != [] {
      LeadingHexDigitsOfHexDigits(s[1..]);
      assert s == [s[0]] + s[1..];
    }
  }

  /** A hexadecimal id, as event ids are, keys on the value of its first eight digits. */
  lemma HexIdKey(b: ExplorerBadge)
    requires b.definitionId != "" && AllHexDigits(b.definitionId)
    ensures var prefix := b.definitionId[..Min(8, |b.definitionId|)];
            AllHexDigits(prefix) && SortKey(b) == Some(HexValue(prefix))
  {
    var prefix := b.definitionId[..Min(8, |b.definitionId|)];
    assert AllHexDigits(prefix);
    LeadingHexDigitsOfHexDigits(prefix);
    assert IsHexDigit(prefix[0]);
  }

  /** A comparison with a NaN side is 0. */
  function NewestFirst(a: ExplorerBadge, b: ExplorerBadge): (r: int)
    ensures SortKey(a).None? || SortKey(b).None? ==> r == 0
    ensures SortKey(a).Some? && SortKey(b).Some? ==> (r <= 0 <==> SortKey(b).value <= SortKey(a).value)
  {
    match (SortKey(a), SortKey(b))
    case (Some(ka), Some(kb)) => kb - ka
    case _ => 0
  }

  function OldestFirst(a: ExplorerBadge, b: ExplorerBadge): (r: int)
    ensures SortKey(a).None? || SortKey(b).None? ==> r == 0
    ensures SortKey(a).Some? && SortKey(b).Some? ==> (r <= 0 <==> SortKey(a).value <= SortKey(b).value)
  {
    match (SortKey(a), SortKey(b))
    case (Some(ka), Some(kb)) => ka - kb
    case _ => 0
  }

  /** The comparator of a sort option; `localeCompare` is the locale's collation, a parameter here. */
  function Comparator(sortOption: string, localeCompare: (string, string) -> int): (r: (ExplorerBadge, ExplorerBadge) -> int)
    ensures sortOption == "newest" || sortOption == "oldest" ==> forall a, b :: r(a, b) == -r(b, a)
    ensures sortOption == "oldest" ==> forall a, b :: r(a, b) == -NewestFirst(a, b)
    ensures sortOption == "alphabetical" ==>
              forall a, b :: r(a, b) == localeCompare(a.name.GetOr(""), b.name.GetOr(""))
    ensures sortOption !in {"newest", "oldest", "alphabetical"} ==> forall a, b :: r(a, b) == 0
  {
    if sortOption == "newest" then NewestFirst
    else if sortOption == "oldest" then OldestFirst
    else if sortOption == "alphabetical" then
      (a: ExplorerBadge, b: ExplorerBadge) => localeCompare(a.name.GetOr(""), b.name.GetOr(""))
    else
      (a: ExplorerBadge, b: ExplorerBadge) => 0
  }

  /** The sorted copy the page shows. */
  function SortBadges(badges: seq<ExplorerBadge>, sortOption: string, localeCompare: (string, string) -> int)
    : (r: seq<ExplorerBadge>)
    ensures multiset(r) == multiset(badges)
  {
    SortBy(badges, Comparator(sortOption, localeCompare))
  }

  predicate AllKeyed(badges: seq<ExplorerBadge>) {
    forall i :: 0 <= i < |badges| ==> SortKey(badges[i]).Some?
  }

  /** With every key defined, the key comparators are total preorders. */
  lemma KeyComparatorsPreorder(badges: seq<ExplorerBadge>)
    requires AllKeyed(badges)
    ensures PreorderOn(NewestFirst, badges) && PreorderOn(OldestFirst, badges)
  {
    assert forall a :: a in badges ==> SortKey(a).Some?;
  }

  /** Newest first: keys descend when every key is defined. */
  lemma NewestSorted(badges: seq<ExplorerBadge>, localeCompare: (string, string) -> int)
    requires AllKeyed(badges)
    ensures var r := SortBadges(badges, "newest", localeCompare);
            && AllKeyed(r)
            && forall i, j :: 0 <= i < j < |r| ==> SortKey(r[i]).value >= SortKey(r[j]).value
  {
    assert Comparator("newest", localeCompare) == NewestFirst;
    var r := SortBy(badges, NewestFirst);
    KeyComparatorsPreorder(badges);
    SortBySorted(badges, NewestFirst);
    SortedKeepsKeys(badges, r);
  }

  /** Oldest first: keys ascend when every key is defined. */
  lemma OldestSorted(badges: seq<ExplorerBadge>, localeCompare: (string, string) -> int)
    requires AllKeyed(badges)
    ensures var r := SortBadges(badges, "oldest", localeCompare);
            && AllKeyed(r)
            && forall i, j :: 0 <= i < j < |r| ==> SortKey(r[i]).value <= SortKey(r[j]).value
  {
    assert Comparator("oldest", localeCompare) == OldestFirst;
    var r := SortBy(badges, OldestFirst);
    KeyComparatorsPreorder(badges);
    SortBySorted(badges, OldestFirst);
    SortedKeepsKeys(badges, r);
  }

  /** A permutation of keyed rows is keyed. */
  lemma SortedKeepsKeys(badges: seq<ExplorerBadge>, r: seq<ExplorerBadge>)
    requires AllKeyed(badges) && multiset(r) == multiset(badges)
    ensures AllKeyed(r)
  {
    forall i | 0 <= i < |r| ensures SortKey(r[i]).Some? {
      assert r[i] in multiset(badges);
      var k :| 0 <= k < |badges| && badges[k] == r[i];
    }
  }

  /** An unknown option compares everything as equal, so the stable sort keeps the order. */
  lemma UnknownOptionKeepsOrder(badges: seq<ExplorerBadge>, sortOption: string, localeCompare: (string, string) -> int)
    requires sortOption != "newest" && sortOption != "oldest" && sortOption != "alphabetical"
    ensures SortBadges(badges, sortOption, localeCompare) == badges
  {
    SortByZeroComparator(badges, Comparator(sortOption, localeCompare));
  }
}
