/**
 * The badge creation form: the validation schema of its three fields, the
 * image state an upload leaves, and the guards that decide whether a
 * submission turns into a definition.
 */
module BadgeCreationForm {
  import opened Wrappers
  import opened Strings
  import opened BadgeTypes
  import opened BadgeUtils
  import opened BadgeActions

  // ---------------------------------------------------------------------
  // The schema

  /** A character of the class `[a-z0-9_-]`. */
  predicate IsSlugChar(c: char) {
    'a' <= c <= 'z' || '0' <= c <= '9' || c == '_' || c == '-'
  }

  /** `/^[a-z0-9_-]+$/`. */
  predicate MatchesSlugPattern(s: string) {
    |s| >= 1 && forall i :: 0 <= i < |s| ==> IsSlugChar(s[i])
  }

  /** The id rules in schema order: 3 to 64 characters, the slug pattern, no space. */
  predicate IsValidId(id: string)
    ensures IsValidId(id) ==> ':' !in id && ' ' !in id
  {
    3 <= |id| <= 64 && MatchesSlugPattern(id) && !Includes(id, " ")
  }

  /** A name of 2 to 64 characters. */
  predicate IsValidName(name: string)
    ensures IsValidName(name) ==> Truthy(Some(name))
  {
    2 <= |name| <= 64
  }

  /** An optional description of at most 280 characters. */
  predicate IsValidDescription(description: Option<string>)
    ensures description.None? ==> IsValidDescription(description)
  {
    description.None? || |description.value| <= 280
  }

  /** The form's fields. */
  datatype FormValues = FormValues(id: string, name: string, description: Option<string>)

  /** `formSchema`: every field passes its rules. */
  predicate IsValidForm(values: FormValues)
    ensures IsValidForm(values) ==> ':' !in values.id && Truthy(Some(values.name))
  {
    IsValidId(values.id) && IsValidName(values.name) && IsValidDescription(values.description)
  }

  /** The no-space refinement is redundant: the pattern already excludes the space. */
  lemma NoSpaceRefinementRedundant(id: string)
    ensures MatchesSlugPattern(id) ==> !Includes(id, " ")
    ensures IsValidId(id) <==> 3 <= |id| <= 64 && forall i :: 0 <= i < |id| ==> IsSlugChar(id[i])
  {
    IncludesHead(id, " ");
  }

  // ---------------------------------------------------------------------
  // Upload and submission

  /** The uploaded image and its thumbnail; `None` until an upload succeeds. */
  datatype ImageState = ImageState(image: Option<string>, thumbnail: Option<string>)

  const NoImage: ImageState := ImageState(None, None)

  /** A successful upload sets both the image and the thumbnail to the returned url. */
  function AfterUpload(url: string): (r: ImageState)
    ensures r.image == Some(url) && r.thumbnail == r.image
  {
    ImageState(Some(url), Some(url))
  }

  /** What a submission does. */
  datatype Submission =
    | Invalid          // the schema rejects the fields; the handler is not called
    | NotLoggedIn
    | ImageRequired
    | Create(params: DefinitionParams)

  /**
   * Submitting: the schema first, then the user and image guards, then the
   * definition with the fields, the image and the thumbnail when it is
   * non-empty.
   */
  function Submit(values: FormValues, user: Option<string>, images: ImageState): (r: Submission)
    ensures !IsValidForm(values) ==> r == Invalid
    ensures IsValidForm(values) && user.None? ==> r == NotLoggedIn
    ensures IsValidForm(values) && user.Some? && !Truthy(images.image) ==> r == ImageRequired
    ensures r.Create? <==> IsValidForm(values) && user.Some? && Truthy(images.image)
    ensures r.Create? ==> && r.params.id == values.id && r.params.name == values.name
                          && r.params.description == values.description
                          && r.params.image == images.image
                          && r.params.thumbnail == (if Truthy(images.thumbnail) then images.thumbnail else None)
                          && r.params.imageWidth.None? && r.params.imageHeight.None?
                          && r.params.thumbnailWidth.None? && r.params.thumbnailHeight.None?
  {
    if !IsValidForm(values) then Invalid
    else if user.None? then NotLoggedIn
    else if !Truthy(images.image) then ImageRequired
    else
      Create(DefinitionParams(
        id := values.id,
        name := values.name,
        description := values.description,
        image := images.image,
        imageWidth := None,
        imageHeight := None,
        thumbnail := if Truthy(images.thumbnail) then images.thumbnail else None,
        thumbnailWidth := None,
        thumbnailHeight := None))
  }

  /** Before any upload, a submission never creates a definition. */
  lemma NoCreateWithoutImage(values: FormValues, user: Option<string>)
    ensures !Submit(values, user, NoImage).Create?
  {
  }

  /** After an upload, the thumbnail passed on is the image. */
  lemma UploadedThumbnailIsImage(values: FormValues, user: string, url: string)
    requires IsValidForm(values) && url != ""
    ensures var r := Submit(values, Some(user), AfterUpload(url));
            r.Create? && r.params.image == Some(url) && r.params.thumbnail == Some(url)
  {
  }

  /**
   * A created definition reads back as a badge with the form's id as its
   * slug, its name, and the uploaded url as both image and thumbnail.
   */
  lemma CreatedDefinitionReadsBack(values: FormValues, user: string, url: string, eventId: string, createdAt: int)
    requires IsValidForm(values) && url != ""
    ensures var params := Submit(values, Some(user), AfterUpload(url)).params;
            var e := Event(eventId, user, BadgeDefinitionKind, createdAt, DefinitionTags(params), "");
            && IsValidBadgeDefinition(e)
            && ProcessBadgeDefinition(e).Some?
            && ProcessBadgeDefinition(e).value.badgeId == values.id
            && ProcessBadgeDefinition(e).value.name == Some(values.name)
            && ProcessBadgeDefinition(e).value.image == Some(url)
            && ProcessBadgeDefinition(e).value.thumb == Some(url)
            && ProcessBadgeDefinition(e).value.issuerPubkey == user
  {
    var params := Submit(values, Some(user), AfterUpload(url)).params;
    DefinitionRoundTrip(params, user, eventId, createdAt);
  }
}
