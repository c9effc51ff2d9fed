# badgr badge reconciliation, modelled in Dafny

badgr is a web client for NIP-58 badges on Nostr. A badge issuer publishes
a *badge definition* (kind 30009, addressed by its `d` tag, the slug). The
issuer then publishes *badge awards* (kind 8). Each award points at the
definition through an `a` tag `30009:<issuer>:<slug>` and names its
recipients in `p` tags. A recipient curates a *profile badges* list
(kind 30008, `d` = `profile_badges`). That list pairs each accepted
award's `a` coordinate with the award's event id in an `e` tag, in display
order.

This project models the part of the client that reconciles these three
kinds of events:

- the tag helpers and validators (`BadgeUtils`);
- the join of a user's awards with their definitions, and the ordered view
  of accepted and pending badges (`UseBadges`);
- the events the client publishes (`BadgeActions`);
- the profile badges editor with accept, reject, move up, move down and
  save (`ProfileBadgesManager`, with a `class Editor` whose fields the
  handlers update);
- the creation form's schema and guards (`BadgeCreationForm`);
- the award form's recipient parsing (`BadgeAwardForm`);
- the explorer's search and sort (`BadgeExplorer`);
- the round trips that cross components: an award published for a
  definition joins back to it, and a saved list reads back with exactly
  the saved awards accepted (`Reconciliation`).

Supporting modules model the JavaScript built-ins the code relies on:

- `Strings`: `split`, `parseInt`, template interpolation, truthiness,
  `trim`, `toLowerCase`, `includes`;
- `Seqs`: `filter`, `findIndex`;
- `Sorting`: the stable `Array.prototype.sort`.

Events are values: `Event(id, pubkey, kind, createdAt, tags, content)`.
Relay queries become input sequences. Signing and publishing become a
`Publication` value built from the author, event id and timestamp, which
are given as parameters.

## Model

| member | source | states |
|---|---|---|
| BadgeUtils.ParseATagIdentifier | src/lib/badge-utils.ts:7-16 | a coordinate parses exactly when it has three `:`-separated parts; the kind is the parseInt of the first part, the pubkey the second and the identifier the third |
| BadgeUtils.ParseATagParts | src/lib/badge-utils.ts:7-16 | any coordinate `k:p:d` with colon-free parts, as a relay hands it over, decodes to the parseInt of `k`, `p` and `d` |
| BadgeUtils.CreateATagIdentifier | src/lib/badge-utils.ts:21-23 | a coordinate built from a pubkey and an identifier without `:` splits on `:` into exactly the printed kind, the pubkey and the identifier |
| BadgeUtils.ATagRoundTrip | src/lib/badge-utils.ts:21-23 | a coordinate built by createATagIdentifier parses back to its kind, pubkey and identifier whenever the last two hold no `:` |
| BadgeUtils.ATagWithExtraColonRejected | src/lib/badge-utils.ts:7-16 | a coordinate whose identifier contains `:` is rejected rather than mis-split |
| Strings.ParseIntToDecimal | src/lib/badge-utils.ts:12 | reading a printed integer with parseInt gives the integer back, for every integer |
| BadgeUtils.FindTag | src/lib/badge-utils.ts:28-31 | the index found is the first tag with the name; none is found exactly when no tag has it |
| BadgeUtils.TagValue | src/lib/badge-utils.ts:28-31 | a value read comes from the first tag with the name, and only from a tag long enough to hold one; when that first tag holds a value, it is read; no value is read when no tag has the name |
| BadgeUtils.GetTagValue | src/lib/badge-utils.ts:28-31 | an event yields a value only when some tag has the name, and none when no tag has it; when the first tag with the name has element 1, that element is the value |
| BadgeUtils.TagValueOfFirstNamed | src/lib/badge-utils.ts:28-31 | for the first tag with the name, the lookup gives its element 1, or undefined when the tag is a bare name |
| BadgeUtils.TagValueAppend | src/lib/badge-utils.ts:28-31 | lookup in a concatenation reads the front when the front has the name, and the back otherwise |
| BadgeUtils.GetAllTagValues | src/lib/badge-utils.ts:36-40 | at most one entry per tag; which entries, and in what order, GetAllTagValuesFromTags and GetAllTagValuesOfNamed state |
| BadgeUtils.GetAllTagValuesFromTags | src/lib/badge-utils.ts:36-40 | the list is empty exactly when no tag has the name, and each entry is the value (or undefined) of a tag with the name |
| BadgeUtils.GetAllTagValuesOfNamed | src/lib/badge-utils.ts:36-40 | one entry per tag with the name, in document order: the filter of the named tags, each read at element 1 |
| BadgeUtils.GetAllTagValuesAppend | src/lib/badge-utils.ts:36-40 | reading all values distributes over concatenation of tag lists |
| BadgeUtils.GetTagValuesByPosition | src/lib/badge-utils.ts:45-49 | every value returned sits at that position of a tag with the name |
| BadgeUtils.GetTagValuesByPositionOfNamed | src/lib/badge-utils.ts:45-49 | the result is exactly the named tags long enough to have the position, in document order, each read at that position |
| BadgeUtils.GetTagValuesByPositionComplete | src/lib/badge-utils.ts:45-49 | every tag with the name that has an element at the position contributes that element |
| BadgeUtils.ByPositionOneIsDefinedValues | src/lib/badge-utils.ts:45-49 | reading position 1 equals getAllTagValues with the undefined entries dropped, in order |
| BadgeUtils.IsValidBadgeDefinition | src/lib/badge-utils.ts:54-59 | valid exactly when the kind is 30009 and some tag is named `d`, which the first-match lookup then finds; a valid definition has at least one `d` value entry |
| BadgeUtils.IsValidBadgeAward | src/lib/badge-utils.ts:64-70 | valid exactly when the kind is 8 and some tag is named `a` and some tag is named `p`, which the lookup then finds; a valid award has at least one `p` entry |
| BadgeUtils.IsValidProfileBadges | src/lib/badge-utils.ts:75-80 | valid exactly when the kind is 30008 and the first tag named `d` has element 1 equal to `profile_badges` |
| BadgeUtils.ProfileBadgesHasDTag | src/lib/badge-utils.ts:75-80 | a valid profile badges list has a `d` tag |
| BadgeUtils.DefinitionValidWithoutSlug | src/lib/badge-utils.ts:54-59 | a definition whose `d` tag has no value still passes validation but yields no slug |
| BadgeUtils.ProcessBadgeDefinition | src/lib/badge-utils.ts:85-99 | no badge exactly when the slug is missing or empty; otherwise the badge carries the slug, the event id as id and definition id, and the author as issuer |
| BadgeUtils.CombineBadgeInfo | src/lib/badge-utils.ts:126-138 | the info is the processed definition; the award id and issue time come from the award when one is given and are absent otherwise; no award event id is set |
| BadgeUtils.PairReferences | src/lib/badge-utils.ts:105-121 | the references are the `a` and `e` values zipped by position, as many as the shorter column |
| BadgeUtils.ExtractBadgeReferences | src/lib/badge-utils.ts:105-121 | the loop builds exactly the zipped pairs of the `a` and `e` columns |
| BadgeUtils.GetImageDimensions | src/lib/badge-utils.ts:144-157 | dimensions are found exactly when the second space-separated part splits at `x` into two numbers, and they are those numbers |
| BadgeUtils.NoDimensionsWithoutSpace | src/lib/badge-utils.ts:144-157 | a bare url yields no dimensions |
| UseBadges.AwardDefinitionRef | src/hooks/useBadges.ts:87-94 | an award contributes a reference exactly when its `a` value is non-empty, parses, and names kind 30009; the reference is the parsed coordinate |
| UseBadges.DefinitionRefs | src/hooks/useBadges.ts:87-94 | every reference has kind 30009 and comes from one of the awards |
| UseBadges.DefinitionRefsAppend | src/hooks/useBadges.ts:87-94 | the references of a concatenation are the concatenated references |
| UseBadges.SlugsOf | src/hooks/useBadges.ts:100-106 | an issuer's slugs come from references by that issuer; the list is empty exactly when no reference has that issuer |
| UseBadges.SlugsOfListsEveryRef | src/hooks/useBadges.ts:100-106 | every reference's slug appears in its issuer's list |
| UseBadges.Issuers | src/hooks/useBadges.ts:100-106 | the issuers are exactly the pubkeys of the references |
| UseBadges.IssuerGroups | src/hooks/useBadges.ts:100-106 | the groups are keyed by exactly the issuers; each group is non-empty and lists that issuer's slugs in order |
| UseBadges.GroupByIssuer | src/hooks/useBadges.ts:100-106 | the accumulating loop builds exactly the issuer groups |
| UseBadges.GroupByIssuerAsWritten | src/hooks/useBadges.ts:100-106 | when the reduce as written succeeds, no issuer key is an inherited object member and every group is non-empty; when it throws and what it builds, GroupByIssuerAsWrittenSpec states |
| UseBadges.GroupByIssuerAsWrittenSpec | src/hooks/useBadges.ts:100-106 | the object-keyed reduce throws exactly when some issuer is a name Object.prototype already has, and otherwise builds the issuer groups |
| UseBadges.GroupByIssuerAsWrittenThrows | src/hooks/useBadges.ts:100-106 | the issuer `constructor` makes the reduce throw, where the intended grouping has one group |
| UseBadges.HostileAwardContributesRef | src/hooks/useBadges.ts:84-94 | any author can publish a valid award to the victim whose coordinate names the issuer `constructor` |
| UseBadges.MatchesCoordinate | src/hooks/useBadges.ts:131-134 | the definition lookup accepts only a definition by the coordinate's issuer that has a `d` tag |
| UseBadges.Join | src/hooks/useBadges.ts:124-141 | at most one badge per award; JoinFromAwards, JoinAppend and JoinAwardSpec give each badge's origin and the award order |
| UseBadges.JoinAward | src/hooks/useBadges.ts:124-141 | a badge joined from an award carries the award's id as its award id and award event id, and the award's time as its issue time |
| UseBadges.JoinAwardSpec | src/hooks/useBadges.ts:124-141 | an award yields a badge exactly when its coordinate parses and some definition matches its issuer and slug; the badge is built from the first match and carries the award's id and time |
| UseBadges.JoinFromAwards | src/hooks/useBadges.ts:124-141 | every joined badge is the badge some award joins to |
| UseBadges.JoinAppend | src/hooks/useBadges.ts:124-141 | joining distributes over concatenation of the awards |
| UseBadges.JoinedBadgesCarryAwardIds | src/hooks/useBadges.ts:137-138 | every joined badge has an award event id equal to its award id, and an issue time |
| UseBadges.JoinAwards | src/hooks/useBadges.ts:124-141 | the loop over awards builds exactly the join |
| UseBadges.UserAwardedBadges | src/hooks/useBadges.ts:80-145 | with no user nothing is fetched; otherwise the valid awards are grouped by issuer and joined with the valid definitions; the grouping reduce as written throws exactly when an issuer is named like an inherited object member, and otherwise gives these groups |
| UseBadges.IsAccepted | src/hooks/useBadges.ts:185-188 | a badge is accepted exactly when a profile list exists and the badge's award event id is the `e` value at some position that also has an `a` value |
| UseBadges.WithAcceptance | src/hooks/useBadges.ts:185-195 | one entry per badge, flagged accepted exactly when the profile list references its award id, with order 0 |
| UseBadges.OrdersAssigned | src/hooks/useBadges.ts:198-207 | assigning orders changes no badge and no acceptance flag |
| UseBadges.LastRefIndex | src/hooks/useBadges.ts:198-207 | the index is the last pair with that award id; none exactly when no pair has it |
| UseBadges.SetOrder | src/hooks/useBadges.ts:201-206 | one pair keeps the list's length and every badge and its acceptance; only the order changes |
| UseBadges.SetOrderSpec | src/hooks/useBadges.ts:201-206 | only the first badge of the pair's award changes, and it takes the pair's index; an award not on the list leaves the list as it was |
| UseBadges.OrdersAssignedSpec | src/hooks/useBadges.ts:198-207 | an entry's final order is the index of the last pair naming its award, if it is the first entry with that award; otherwise it keeps its order |
| UseBadges.AssignOrders | src/hooks/useBadges.ts:198-207 | the in-place loop over the array leaves exactly the assigned orders |
| UseBadges.Unsorted | src/hooks/useBadges.ts:185-207 | one entry per awarded badge, accepted exactly when referenced by the profile list |
| UseBadges.CompareUserBadges | src/hooks/useBadges.ts:210-217 | an accepted badge sorts before a pending one; two accepted badges compare by order, two pending ones newest issue time first (missing time as 0) |
| UseBadges.UnsortedOrders | src/hooks/useBadges.ts:198-207 | pending entries have order 0; the first accepted entry of an award has the last position of its award in the list |
| UseBadges.CompareUserBadgesPreorder | src/hooks/useBadges.ts:210-217 | the view comparator is a total preorder, so the sort is well defined |
| UseBadges.SortedViewOrdered | src/hooks/useBadges.ts:210-217 | after sorting, accepted badges come first in ascending order, then pending badges newest first |
| UseBadges.SortedViewIdempotent | src/hooks/useBadges.ts:210-217 | re-sorting the sorted view changes nothing |
| UseBadges.UserBadges | src/hooks/useBadges.ts:179-218 | the result is a permutation of the flagged entries, each flagged as the profile list says, in view order |
| Sorting.SortBySorted | src/hooks/useBadges.ts:210-217 | a stable sort under a total preorder yields a list ordered by the comparator |
| Sorting.SortByZeroComparator | src/pages/badges/BadgeExplorer.tsx:56-57 | sorting with a comparator that always answers 0 keeps the list as it was |
| Sorting.SortInPlace | src/hooks/useBadges.ts:210-217 | sorting the array in place leaves exactly the stable sort of its old contents |
| Sorting.InsertInPlace | src/hooks/useBadges.ts:210-217 | one pass of the in-place sort makes the first `i + 1` cells the stable insertion of the old `a[i]` into the sorted prefix, and leaves the rest of the array alone |
| Sorting.SortByIdempotent | src/hooks/useBadges.ts:210-217 | under a total preorder, sorting a sorted list again changes nothing |
| Sorting.SortByStable | src/hooks/useBadges.ts:210-217 | the sort is stable: under a total preorder, the elements tied with any value come out in their input order |
| Sorting.InsertKeepsTies | src/hooks/useBadges.ts:210-217 | one insertion step puts the new element after every element it ties with |
| BadgeActions.ImageValueDimensions | src/hooks/useBadgeActions.ts:46-58 | an image value reads back its dimensions exactly when both were given and non-zero, provided the url has no space |
| BadgeActions.ImageValue | src/hooks/useBadgeActions.ts:46-49 | the bare url unless both dimensions are truthy; ImageValueDimensions reads the dimensions back |
| BadgeActions.OptionalTag | src/hooks/useBadgeActions.ts:42-58 | at most one tag, and one exactly when its value is present; DefinitionTagsLookup reads it back |
| BadgeActions.DefinitionTags | src/hooks/useBadgeActions.ts:37-58 | `d` and `name` come first; each optional tag is present exactly when its value is non-empty |
| BadgeActions.CreateBadgeDefinition | src/hooks/useBadgeActions.ts:37-62 | the published event is a kind 30009 event by the author with the definition's tags |
| BadgeActions.DefinitionTagsLookup | src/hooks/useBadgeActions.ts:37-58 | each tag name reads back the value the form gave, or nothing when that value was empty |
| BadgeActions.DefinitionRoundTrip | src/hooks/useBadgeActions.ts:37-62 | a published definition is valid and reads back as a badge with the given slug, name, description, image and thumbnail |
| BadgeActions.AwardBadge | src/hooks/useBadgeActions.ts:91-113 | no definition or no recipients is refused; a definition without a slug is refused; otherwise a kind 8 award with the definition's coordinate and the recipients is published |
| BadgeActions.AwardTags | src/hooks/useBadgeActions.ts:100-109 | one tag more than there are recipients: the `a` lookup reads back the coordinate, and every later tag is a `p` tag |
| BadgeActions.AwardTagsRecipients | src/hooks/useBadgeActions.ts:104-109 | the award's `p` values are exactly the recipients, in order |
| BadgeActions.AwardResolvesToDefinition | src/hooks/useBadgeActions.ts:101-109 | a published award is valid and its coordinate parses back to the definition's issuer and slug |
| BadgeActions.ProfileBadgesTags | src/hooks/useBadgeActions.ts:148-156 | the `d` tag first, then one `a` and `e` pair per reference, in order |
| BadgeActions.UpdateProfileBadges | src/hooks/useBadgeActions.ts:141-160 | with no user it is refused; otherwise a kind 30008 event with those tags is published |
| BadgeActions.ProfileBadgesRoundTrip | src/hooks/useBadgeActions.ts:148-156 | the references extracted from a published list are exactly the references it was built from |
| BadgeActions.ProfileBadgesValid | src/hooks/useBadgeActions.ts:141-160 | a published list passes the profile badges validation |
| ProfileBadgesManager.FoundInSource | src/components/badges/ProfileBadgesManager.tsx:73-80 | every accepted entry's id is found in the full list |
| ProfileBadgesManager.MaxAcceptedOrder | src/components/badges/ProfileBadgesManager.tsx:44-45 | the maximum is at least 0, bounds every accepted order, and is 0 or attained |
| ProfileBadgesManager.AcceptAt | src/components/badges/ProfileBadgesManager.tsx:37-45 | the entry becomes accepted with an order above every other accepted order and above its own; nothing else changes |
| ProfileBadgesManager.RejectAt | src/components/badges/ProfileBadgesManager.tsx:57-62 | the entry becomes unaccepted and keeps its order; nothing else changes |
| ProfileBadgesManager.SwapOrders | src/components/badges/ProfileBadgesManager.tsx:78-85 | the two entries exchange orders, nothing else changes, and the multiset of orders is kept |
| ProfileBadgesManager.MoveUpPositions | src/components/badges/ProfileBadgesManager.tsx:72-82 | a move happens exactly when the badge's first accepted entry is not the first accepted one; it swaps the first entry with the badge's id and the first entry with the id of the accepted entry just before it |
| ProfileBadgesManager.MoveDownPositions | src/components/badges/ProfileBadgesManager.tsx:99-109 | a move happens exactly when the badge's first accepted entry is not the last accepted one; it swaps the first entry with the badge's id and the first entry with the id of the accepted entry just after it |
| ProfileBadgesManager.MoveUpSwapsWithPredecessor | src/components/badges/ProfileBadgesManager.tsx:72-82 | with distinct ids, moving up swaps an accepted entry with exactly its predecessor in the accepted list |
| ProfileBadgesManager.MoveDownSwapsWithSuccessor | src/components/badges/ProfileBadgesManager.tsx:99-109 | with distinct ids, moving down swaps an accepted entry with exactly its successor in the accepted list |
| ProfileBadgesManager.MoveUpFirstIsNoOp | src/components/badges/ProfileBadgesManager.tsx:76 | moving the first accepted entry up does nothing |
| ProfileBadgesManager.MoveDownLastIsNoOp | src/components/badges/ProfileBadgesManager.tsx:103 | moving the last accepted entry down does nothing |
| ProfileBadgesManager.SavedEntries | src/components/badges/ProfileBadgesManager.tsx:128-132 | the saved entries are a permutation of the accepted entries with an award id, all drawn from the list |
| ProfileBadgesManager.SavedEntriesAscending | src/components/badges/ProfileBadgesManager.tsx:128-132 | the saved entries are in ascending order |
| ProfileBadgesManager.Savable | src/components/badges/ProfileBadgesManager.tsx:129 | a badge is saved exactly when it is accepted and has a non-empty award event id |
| ProfileBadgesManager.CompareOrder | src/components/badges/ProfileBadgesManager.tsx:130 | negative exactly when the first order is smaller, zero exactly when the orders are equal |
| ProfileBadgesManager.ToBadgeRef | src/components/badges/ProfileBadgesManager.tsx:131-136 | the `e` value is the badge's award event id; with a colon-free issuer and slug the `a` value splits into kind 30009, issuer and slug |
| ProfileBadgesManager.BadgeRefsOf | src/components/badges/ProfileBadgesManager.tsx:128-137 | one reference per saved entry, in order, carrying that entry's award id |
| ProfileBadgesManager.BadgeRefCoordinate | src/components/badges/ProfileBadgesManager.tsx:133-136 | a reference's coordinate parses back to the entry's issuer and slug |
| ProfileBadgesManager.AcceptedIsSavedLast | src/components/badges/ProfileBadgesManager.tsx:30-50 | after accepting an entry with an award id, its reference is the last one saved |
| ProfileBadgesManager.AcceptMissesSecondAward | src/components/badges/ProfileBadgesManager.tsx:35 | with two awards of one definition, accepting the second finds the first, and the clicked award stays unaccepted |
| ProfileBadgesManager.AcceptClicked | src/components/badges/ProfileBadgesManager.tsx:30-50 | the entry with the clicked award's id is accepted; nothing changes when none has it |
| ProfileBadgesManager.AcceptClickedAcceptsIt | src/components/badges/ProfileBadgesManager.tsx:30-50 | when award ids are distinct, accepting an award accepts that very entry and places it after every other accepted entry |
| ProfileBadgesManager.Editor.constructor | src/components/badges/ProfileBadgesManager.tsx:21-28 | the editor starts with the user and the list, and nothing published |
| ProfileBadgesManager.Editor.SaveBadges | src/components/badges/ProfileBadgesManager.tsx:124-154 | without a user nothing is published; otherwise the list's references are published; the list is unchanged |
| ProfileBadgesManager.Editor.Accept | src/components/badges/ProfileBadgesManager.tsx:30-50 | without a user or award id nothing happens; otherwise the first entry with the badge's id is accepted and the new list is saved |
| ProfileBadgesManager.Editor.Reject | src/components/badges/ProfileBadgesManager.tsx:52-68 | without a user nothing happens; otherwise the first entry with the badge's id is unaccepted and the new list is saved |
| ProfileBadgesManager.Editor.SwapAndSave | src/components/badges/ProfileBadgesManager.tsx:78-93 | two entries exchange orders; the list shown is the swapped list re-sorted into view order, and the swapped list is saved when a user is signed in |
| ProfileBadgesManager.Editor.MoveUp | src/components/badges/ProfileBadgesManager.tsx:70-95 | nothing happens without a user, for an unaccepted badge, or for the first accepted one; otherwise the two entries MoveUpPositions names (the badge and its accepted predecessor) exchange orders, the list shown is re-sorted into view order and the swapped list is saved |
| ProfileBadgesManager.Editor.MoveDown | src/components/badges/ProfileBadgesManager.tsx:97-122 | nothing happens without a user, for an unaccepted badge, or for the last accepted one; otherwise the two entries MoveDownPositions names (the badge and its accepted successor) exchange orders, the list shown is re-sorted into view order and the swapped list is saved |
| Reconciliation.AwardJoinsItsDefinition | src/hooks/useBadges.ts:124-141 | an award published for a definition joins back to that definition's badge, carrying the award's id and time |
| Reconciliation.SavedAwardIds | src/components/badges/ProfileBadgesManager.tsx:128-137 | the award ids in the saved references are exactly those of the accepted entries with an award id |
| Reconciliation.SaveReloadAcceptance | src/hooks/useBadges.ts:185-195 | after a save, a badge reads back as accepted exactly when the saved list held an accepted entry with its award id |
| BadgeCreationForm.NoSpaceRefinementRedundant | src/components/badges/BadgeCreationForm.tsx:28-33 | the slug pattern already excludes spaces, so the no-space refinement never fires |
| BadgeCreationForm.IsValidId | src/components/badges/BadgeCreationForm.tsx:28-33 | a valid id holds no colon and no space; NoSpaceRefinementRedundant states it is exactly 3 to 64 slug characters |
| BadgeCreationForm.IsValidName | src/components/badges/BadgeCreationForm.tsx:34-37 | a valid name has 2 to 64 characters, so it is never empty |
| BadgeCreationForm.IsValidDescription | src/components/badges/BadgeCreationForm.tsx:38-41 | a description is optional: a missing one is valid, a given one has at most 280 characters |
| BadgeCreationForm.IsValidForm | src/components/badges/BadgeCreationForm.tsx:27-42 | a valid form has a colon-free id, so its coordinate parses back, and a non-empty name |
| BadgeCreationForm.AfterUpload | src/components/badges/BadgeCreationForm.tsx:76-81 | a successful upload sets the image and the thumbnail to the returned url |
| BadgeCreationForm.Submit | src/components/badges/BadgeCreationForm.tsx:96-120 | invalid fields stop first, then a missing user, then a missing image; a definition is created exactly when all three pass, carrying the fields, the image and the thumbnail when non-empty |
| BadgeCreationForm.NoCreateWithoutImage | src/components/badges/BadgeCreationForm.tsx:107-113 | before any upload no definition is created |
| BadgeCreationForm.UploadedThumbnailIsImage | src/components/badges/BadgeCreationForm.tsx:115-120 | after an upload the definition's image and thumbnail are the uploaded url |
| BadgeCreationForm.CreatedDefinitionReadsBack | src/components/badges/BadgeCreationForm.tsx:115-120 | a created definition reads back with the form's id as slug, its name, the uploaded image and the user as issuer |
| BadgeAwardForm.SkipSeparators | src/components/badges/BadgeAwardForm.tsx:30 | skipping a run of separators drops only separators and stops at a non-separator |
| BadgeAwardForm.SplitRuns | src/components/badges/BadgeAwardForm.tsx:30 | splitting on runs of whitespace and commas yields at least one piece and no piece holds a separator |
| BadgeAwardForm.Tokens | src/components/badges/BadgeAwardForm.tsx:30-33 | the tokens are the non-empty pieces, each free of separators |
| BadgeAwardForm.Recipients | src/components/badges/BadgeAwardForm.tsx:30-46 | one recipient per token, in token order: the token with an `npub1` prefix removed; no recipient holds a separator |
| BadgeAwardForm.SplitRunsJoined | src/components/badges/BadgeAwardForm.tsx:31 | words with a non-empty separator run in each gap, and an optional run after the last, split into the words in order, then one empty piece when the trailing run is there |
| BadgeAwardForm.TokensRoundTrip | src/components/badges/BadgeAwardForm.tsx:30-33 | words without separators, with any non-empty run of whitespace and commas in each gap and an optional run before the first and after the last, tokenise back to exactly those words, in order |
| BadgeAwardForm.StripNpub | src/components/badges/BadgeAwardForm.tsx:35-46 | a token starting with `npub1` loses that prefix; any other token is kept |
| BadgeAwardForm.NoRecipientsIffOnlySeparators | src/components/badges/BadgeAwardForm.tsx:48-55 | there are no recipients exactly when the text is only whitespace and commas |
| BadgeAwardForm.BareNpubGivesEmptyRecipient | src/components/badges/BadgeAwardForm.tsx:35-46 | the text `npub1` yields one empty recipient |
| BadgeAwardForm.SubmittedRecipients | src/components/badges/BadgeAwardForm.tsx:30-57 | the submission is refused exactly when the text holds only separators; otherwise the recipients are passed on and are non-empty |
| BadgeAwardForm.SubmittedAwardPassesInputCheck | src/components/badges/BadgeAwardForm.tsx:48-57 | a form-submitted award is published exactly when the definition has a non-empty slug |
| BadgeExplorer.ExplorerBadges | src/pages/badges/BadgeExplorer.tsx:16-30 | one row per valid definition (kind 30009 with a `d` tag), in query order, each built from its definition by ToExplorerBadge |
| BadgeExplorer.ToExplorerBadge | src/pages/badges/BadgeExplorer.tsx:22-30 | a row keeps the definition's id and issuer; its slug is present exactly when the definition has a non-empty one; without one all optional fields are empty |
| BadgeExplorer.MatchesSearch | src/pages/badges/BadgeExplorer.tsx:33-43 | an empty search keeps every badge; an issuer match suffices; a kept badge under a search has some field that could match |
| BadgeExplorer.MatchesSearchAsWritten | src/pages/badges/BadgeExplorer.tsx:33-43 | the search throws exactly when no earlier field matches and the row has no slug; otherwise it answers whether some field contains the term |
| BadgeExplorer.SearchAsWrittenAgrees | src/pages/badges/BadgeExplorer.tsx:33-43 | whenever the search as written does not throw, it agrees with the intended search |
| BadgeExplorer.FilterAsWritten | src/pages/badges/BadgeExplorer.tsx:33-43 | the filter throws exactly when some row throws; otherwise it is the intended filter |
| BadgeExplorer.FilterBadges | src/pages/badges/BadgeExplorer.tsx:33-43 | a row is kept exactly when it matches the lower-cased term |
| BadgeExplorer.EmptySearchKeepsAll | src/pages/badges/BadgeExplorer.tsx:34 | an empty search keeps every row |
| BadgeExplorer.FilterBadgesAppend | src/pages/badges/BadgeExplorer.tsx:33-43 | filtering distributes over concatenation |
| BadgeExplorer.SearchThrowsOnEmptySlug | src/pages/badges/BadgeExplorer.tsx:33-43 | one valid definition with an empty slug makes any non-matching search throw, where the intended filter returns an empty list |
| BadgeExplorer.SortKey | src/pages/badges/BadgeExplorer.tsx:49-53 | an empty id keys to 0; a hexadecimal id keys to the value of its first eight digits, as HexIdKey states |
| BadgeExplorer.HexIdKey | src/pages/badges/BadgeExplorer.tsx:48-53 | an id of hex digits sorts by the value of its first eight digits |
| BadgeExplorer.NewestFirst | src/pages/badges/BadgeExplorer.tsx:48-50 | an unparsable key (NaN) compares equal; otherwise a badge sorts no later exactly when its key is no smaller |
| BadgeExplorer.OldestFirst | src/pages/badges/BadgeExplorer.tsx:51-53 | an unparsable key (NaN) compares equal; otherwise a badge sorts no later exactly when its key is no larger |
| BadgeExplorer.Comparator | src/pages/badges/BadgeExplorer.tsx:46-58 | newest and oldest are antisymmetric and oldest is the reverse of newest; alphabetical compares the names, a missing one as empty, with localeCompare; any other option answers 0 for every pair |
| BadgeExplorer.SortBadges | src/pages/badges/BadgeExplorer.tsx:46-59 | the sorted rows are a permutation of the filtered rows |
| BadgeExplorer.KeyComparatorsPreorder | src/pages/badges/BadgeExplorer.tsx:48-53 | when every id parses, the newest and oldest comparators are total preorders |
| BadgeExplorer.NewestSorted | src/pages/badges/BadgeExplorer.tsx:48-50 | with parsable ids, "newest" orders rows by descending id prefix |
| BadgeExplorer.OldestSorted | src/pages/badges/BadgeExplorer.tsx:51-53 | with parsable ids, "oldest" orders rows by ascending id prefix |
| BadgeExplorer.UnknownOptionKeepsOrder | src/pages/badges/BadgeExplorer.tsx:56-57 | an unknown sort option keeps the filtered order |

## Left out

- Relay queries, caching and query cancellation: award, definition and profile list events are input sequences. The per-issuer definition query loop (src/hooks/useBadges.ts:109-117) is replaced by one sequence of definitions, which the join filters by issuer and slug itself.
- Signing and publishing: the author, event id and timestamp are parameters. Promise resolution, cache invalidation and toasts are not modelled.
- The editor's re-initialisation from the loaded list (src/components/badges/ProfileBadgesManager.tsx:24-28): `Editor.constructor` takes the initial list as given.
- ProfileBadgesManager.Editor.MoveUp: the source's swap also changes the order of badge objects that the previous state array still references. The model keeps the list as a value, so this aliasing is not captured.
- ProfileBadgesManager.Editor.MoveDown: requires the badge to be one of the listed entries, as every accepted row's button passes it. The crash on an accepted badge missing from the list is not modelled. As for MoveUp, the source's swap (src/components/badges/ProfileBadgesManager.tsx:110-112) also changes badge objects that the previous state array still shares; both handlers go through `Editor.SwapAndSave`, which replaces the list as a value, so this aliasing is not captured.
- ProfileBadgesManager.MoveDownPositions: requires an accepted entry with the badge's id, as every accepted row's button ensures. With no such entry the source indexes the list at -1 and throws; that path is not modelled.
- UseBadges.UserAwardedBadges: returns the intended issuer groups, not the throwing reduce. Its contract relates the two: the reduce as written fails exactly when an issuer is named like an inherited object member, and otherwise gives the same groups (see Findings).
- ProfileBadgesManager.MoveDownLastIsNoOp: stated only when no earlier accepted entry shares the last entry's id. With a duplicate id, the lookup finds the earlier entry and a swap does happen.
- Concurrent handler calls and the pending-mutation flag that disables the buttons are not modelled.
- The file upload (its type check, its failure, and the upload service) is left out. Only its effect on the form state is modelled, by `AfterUpload`.
- Decoding `npub` keys: the source strips the `npub1` prefix without bech32 decoding, and so does the model.
- `localeCompare` is a comparator parameter of `BadgeExplorer.Comparator`, since its collation is locale data.
- Strings are sequences of Unicode characters. zod's length checks count UTF-16 code units, so lengths differ for characters outside the Basic Multilingual Plane.
- `toLowerCase` is modelled for ASCII letters only.
- `parseInt` is modelled as an optional sign followed by the leading run of digits, with an optional `0x` prefix in base 16. Skipping leading whitespace is not modelled.
- JavaScript numbers are modelled as unbounded integers. The rounding of integers beyond 2^53, in parsed kinds or orders, is not modelled.
- Rendering, routing, date formatting and the pages that only lay out badges are not modelled.

## Findings

| source | as written | input that shows it | evidently intended | confidence | as-written member | corrected member |
|---|---|---|---|---|---|---|
| src/hooks/useBadges.ts:100-106 | awards are grouped by issuer in a plain object literal, so an issuer named like an Object.prototype member reads the inherited value and `push` throws | any user receives an award whose `a` tag is `30009:constructor:x`, which anyone may publish; loading that user's badges then fails | group by the issuers actually present, for example in a prototype-free map | not executed | UseBadges.GroupByIssuerAsWrittenThrows | UseBadges.IssuerGroups |
| src/pages/badges/BadgeExplorer.tsx:33-43 | the search calls `toLowerCase` on the slug, which is undefined for a definition with an empty `d` value | a valid definition with tag `["d", ""]` and the search term `zzz`: the filter throws instead of returning no rows | treat a missing slug as not matching | not executed | BadgeExplorer.SearchThrowsOnEmptySlug | BadgeExplorer.FilterBadges |
| src/components/badges/ProfileBadgesManager.tsx:35 | accepting looks the entry up by definition id, so with two awards of one definition the first entry is always chosen | two awards of one definition, the first accepted: accepting the second re-accepts the first and leaves the second unaccepted | look the entry up by award event id | not executed | ProfileBadgesManager.AcceptMissesSecondAward | ProfileBadgesManager.AcceptClickedAcceptsIt |
