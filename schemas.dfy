/** The form-validation schemas and constants of src/types/index.ts. Each zod
    schema becomes a parsing function from an already-typed input record (a
    TypeScript optional field is an `Option`) to either the parsed form, with
    defaults applied, or the list of issues zod reports. zod's `email()` and
    `uuid()` checks are not part of this model: they are the parameters `isEmail`
    and `isUuid`. */
module Schemas {
  import opened Wrappers
  import Utils
  import R2

  /** The issues the schemas can raise. */
  datatype Issue =
    | NameRequired
    | NameTooLong
    | DescriptionTooLong
    | InvalidMode
    | InvalidPermissions
    | InvalidEmail(path: string, index: nat)
    | FileTooLarge
    | UnsupportedFileType
    | InvalidGalleryId

  /** The custom messages the schemas attach. The mode, permission and address
      checks carry none, so zod's default message is reported for them. */
  function CustomMessage(issue: Issue): (m: Option<string>)
    ensures m.None? <==> issue.InvalidMode? || issue.InvalidPermissions? || issue.InvalidEmail?
  {
    match issue
    case NameRequired => Some("Gallery name is required")
    case NameTooLong => Some("Gallery name too long")
    case DescriptionTooLong => Some("Description too long")
    case FileTooLarge => Some("File size must be less than 50MB")
    case UnsupportedFileType => Some("Only JPEG and PNG files are supported")
    case InvalidGalleryId => Some("Invalid gallery ID")
    case _ => None
  }

  /** A custom message names one check: no two issues share one. */
  lemma CustomMessagesIdentify(a: Issue, b: Issue)
    requires CustomMessage(a).Some? && CustomMessage(a) == CustomMessage(b)
    ensures a == b
  {
  }

  // ---------------------------------------------------------------------------
  // constants
  // ---------------------------------------------------------------------------

  const SUPPORTED_IMAGE_TYPES: seq<string> := ["image/jpeg", "image/png"]
  const MAX_FILE_SIZE: nat := 50 * 1024 * 1024
  const MAX_FILES_PER_UPLOAD: nat := 20
  const THUMBNAIL_SIZE: nat := 400
  const PREVIEW_SIZE: nat := 1200
  const GALLERY_MODE_PRESENTATION: string := "presentation"
  const GALLERY_MODE_COLLABORATION: string := "collaboration"
  const SHARE_VIEW_ONLY: string := "view_only"
  const SHARE_VIEW_DOWNLOAD: string := "view_download"
  const SHARE_VIEW_DOWNLOAD_COMMENT: string := "view_download_comment"

  // ---------------------------------------------------------------------------
  // shared pieces
  // ---------------------------------------------------------------------------

  /** `z.array(z.string().email())` over `emails`, numbering from `from`: one
      issue per rejected address, in order. */
  function EmailIssues(path: string, emails: seq<string>, isEmail: string -> bool, from: nat): (r: seq<Issue>)
    ensures r == [] <==> forall k :: 0 <= k < |emails| ==> isEmail(emails[k])
    ensures forall issue :: issue in r ==>
      && issue.InvalidEmail? && issue.path == path
      && from <= issue.index < from + |emails|
      && !isEmail(emails[issue.index - from])
    decreases |emails|
  {
    if emails == [] then []
    else
      var rest := EmailIssues(path, emails[1..], isEmail, from + 1);
      assert forall k :: 1 <= k < |emails| ==> emails[1..][k - 1] == emails[k];
      (if isEmail(emails[0]) then [] else [InvalidEmail(path, from)]) + rest
  }

  /** A rejected address is reported, under its own index. */
  lemma {:induction false} EmailIssueReported(path: string, emails: seq<string>, isEmail: string -> bool, from: nat, k: nat)
    requires k < |emails| && !isEmail(emails[k])
    ensures InvalidEmail(path, from + k) in EmailIssues(path, emails, isEmail, from)
    decreases k
  {
    var rest := EmailIssues(path, emails[1..], isEmail, from + 1);
    var x := InvalidEmail(path, from + k);
    if k > 0 {
      assert emails[1..][k - 1] == emails[k];
      EmailIssueReported(path, emails[1..], isEmail, from + 1, k - 1);
      assert x in rest;
    }
    if isEmail(emails[0]) {
      assert EmailIssues(path, emails, isEmail, from) == rest;
    } else {
      assert EmailIssues(path, emails, isEmail, from) == [InvalidEmail(path, from)] + rest;
      assert k == 0 ==> ([InvalidEmail(path, from)] + rest)[0] == x;
    }
  }

  /** Every rejected address is reported, also after the issues of earlier fields. */
  lemma EmailIssuesComplete(earlier: seq<Issue>, path: string, emails: seq<string>, isEmail: string -> bool)
    ensures forall k :: 0 <= k < |emails| && !isEmail(emails[k]) ==>
      InvalidEmail(path, k) in earlier + EmailIssues(path, emails, isEmail, 0)
  {
    forall k | 0 <= k < |emails| && !isEmail(emails[k])
      ensures InvalidEmail(path, k) in earlier + EmailIssues(path, emails, isEmail, 0)
    {
      EmailIssueReported(path, emails, isEmail, 0, k);
    }
  }

  /** Issues that are all address issues with strictly increasing indices. */
  predicate IndicesIncrease(r: seq<Issue>)
  {
    forall i, j :: 0 <= i < j < |r| ==> r[i].InvalidEmail? && r[j].InvalidEmail? && r[i].index < r[j].index
  }

  lemma ConsIncreasing(x: Issue, rest: seq<Issue>)
    requires x.InvalidEmail? && IndicesIncrease(rest)
    requires forall y :: y in rest ==> y.InvalidEmail? && y.index > x.index
    ensures IndicesIncrease([x] + rest)
  {
    var r := [x] + rest;
    forall i, j | 0 <= i < j < |r|
      ensures r[i].InvalidEmail? && r[j].InvalidEmail? && r[i].index < r[j].index
    {
      assert r[j] == rest[j - 1] && rest[j - 1] in rest;
      if i > 0 {
        assert r[i] == rest[i - 1];
      }
    }
  }

  /** The issues come in address order, at most one per address. */
  lemma {:induction false} EmailIssuesOrdered(path: string, emails: seq<string>, isEmail: string -> bool, from: nat)
    ensures IndicesIncrease(EmailIssues(path, emails, isEmail, from))
    decreases |emails|
  {
    if emails != [] {
      var rest := EmailIssues(path, emails[1..], isEmail, from + 1);
      EmailIssuesOrdered(path, emails[1..], isEmail, from + 1);
      if !isEmail(emails[0]) {
        ConsIncreasing(InvalidEmail(path, from), rest);
        assert EmailIssues(path, emails, isEmail, from) == [InvalidEmail(path, from)] + rest;
      } else {
        assert EmailIssues(path, emails, isEmail, from) == rest;
      }
    }
  }
  // ---------------------------------------------------------------------------
  // createGallerySchema
  // ---------------------------------------------------------------------------

  datatype GalleryMode = Presentation | Collaboration

  /** `z.enum(['presentation', 'collaboration']).default('presentation')`. */
  function ParseMode(mode: Option<string>): (r: Option<GalleryMode>)
    ensures r == Some(Presentation) <==> mode.None? || mode == Some("presentation")
    ensures r == Some(Collaboration) <==> mode == Some("collaboration")
  {
    match mode
    case None => Some(Presentation)
    case Some(m) =>
      if m == GALLERY_MODE_PRESENTATION then Some(Presentation)
      else if m == GALLERY_MODE_COLLABORATION then Some(Collaboration)
      else None
  }

  datatype SettingsInput = SettingsInput(
    allowDownload: Option<bool>, allowComments: Option<bool>, allowRating: Option<bool>,
    allowColorMarking: Option<bool>, watermarkEnabled: Option<bool>,
    notificationEmails: Option<seq<string>>)

  datatype Settings = Settings(
    allowDownload: bool, allowComments: bool, allowRating: bool,
    allowColorMarking: bool, watermarkEnabled: bool, notificationEmails: seq<string>)

  /** `{}`, the default of the whole settings object. */
  const EMPTY_SETTINGS: SettingsInput := SettingsInput(None, None, None, None, None, None)

  /** The per-field defaults of the settings object. */
  function SettingsDefaults(s: SettingsInput): (r: Settings)
    ensures r.allowDownload == if s.allowDownload.Some? then s.allowDownload.value else true
    ensures r.allowComments == if s.allowComments.Some? then s.allowComments.value else false
    ensures r.allowRating == if s.allowRating.Some? then s.allowRating.value else false
    ensures r.allowColorMarking == if s.allowColorMarking.Some? then s.allowColorMarking.value else false
    ensures r.watermarkEnabled == if s.watermarkEnabled.Some? then s.watermarkEnabled.value else false
    ensures r.notificationEmails == if s.notificationEmails.Some? then s.notificationEmails.value else []
  {
    Settings(s.allowDownload.GetOr(true), s.allowComments.GetOr(false), s.allowRating.GetOr(false),
             s.allowColorMarking.GetOr(false), s.watermarkEnabled.GetOr(false),
             s.notificationEmails.GetOr([]))
  }

  datatype CreateGalleryInput = CreateGalleryInput(
    name: string, description: Option<string>, mode: Option<string>, settings: Option<SettingsInput>)

  datatype CreateGalleryForm = CreateGalleryForm(
    name: string, description: Option<string>, mode: GalleryMode, settings: Settings)

  predicate ValidGalleryName(name: string)
  {
    1 <= |name| <= 100
  }

  predicate ValidDescription(description: Option<string>)
  {
    description.None? || |description.value| <= 500
  }

  /** The issues of the `name`, `description` and `mode` fields. */
  function GalleryFieldIssues(input: CreateGalleryInput): (r: seq<Issue>)
    ensures r == [] <==> ValidGalleryName(input.name) && ValidDescription(input.description) && ParseMode(input.mode).Some?
    ensures NameRequired in r <==> |input.name| < 1
    ensures NameTooLong in r <==> |input.name| > 100
    ensures DescriptionTooLong in r <==> !ValidDescription(input.description)
    ensures InvalidMode in r <==> ParseMode(input.mode).None?
    ensures forall issue :: issue in r ==>
      issue.NameRequired? || issue.NameTooLong? || issue.DescriptionTooLong? || issue.InvalidMode?
  {
    (if |input.name| < 1 then [NameRequired] else [])
    + (if |input.name| > 100 then [NameTooLong] else [])
    + (if input.description.Some? && |input.description.value| > 500 then [DescriptionTooLong] else [])
    + (if ParseMode(input.mode).None? then [InvalidMode] else [])
  }

  /** `createGallerySchema.safeParse(input)`. */
  function CreateGallery(input: CreateGalleryInput, isEmail: string -> bool)
    : (r: Result<CreateGalleryForm, seq<Issue>>)
    ensures var settings := SettingsDefaults(input.settings.GetOr(EMPTY_SETTINGS));
      r.Success? <==>
        && ValidGalleryName(input.name)
        && ValidDescription(input.description)
        && ParseMode(input.mode).Some?
        && forall k :: 0 <= k < |settings.notificationEmails| ==> isEmail(settings.notificationEmails[k])
    ensures r.Success? ==>
      r.value == CreateGalleryForm(input.name, input.description, ParseMode(input.mode).value,
                                   SettingsDefaults(input.settings.GetOr(EMPTY_SETTINGS)))
    ensures r.Failure? ==>
      && (NameRequired in r.error <==> |input.name| < 1)
      && (NameTooLong in r.error <==> |input.name| > 100)
      && (DescriptionTooLong in r.error <==> !ValidDescription(input.description))
      && (InvalidMode in r.error <==> ParseMode(input.mode).None?)
    ensures var emails := SettingsDefaults(input.settings.GetOr(EMPTY_SETTINGS)).notificationEmails;
      r.Failure? ==> forall k :: 0 <= k < |emails| && !isEmail(emails[k]) ==>
        InvalidEmail("settings.notificationEmails", k) in r.error
    ensures var emails := SettingsDefaults(input.settings.GetOr(EMPTY_SETTINGS)).notificationEmails;
      r.Failure? ==> forall issue :: issue in r.error ==>
        || issue.NameRequired? || issue.NameTooLong? || issue.DescriptionTooLong? || issue.InvalidMode?
        || (&& issue.InvalidEmail? && issue.path == "settings.notificationEmails"
            && issue.index < |emails| && !isEmail(emails[issue.index]))
  {
    var settings := SettingsDefaults(input.settings.GetOr(EMPTY_SETTINGS));
    var fieldIssues := GalleryFieldIssues(input);
    var emailIssues := EmailIssues("settings.notificationEmails", settings.notificationEmails, isEmail, 0);
    var issues := fieldIssues + emailIssues;
    EmailIssuesComplete(fieldIssues, "settings.notificationEmails", settings.notificationEmails, isEmail);
    assert NameRequired !in emailIssues && NameTooLong !in emailIssues;
    assert DescriptionTooLong !in emailIssues && InvalidMode !in emailIssues;
    if issues == [] then
      Success(CreateGalleryForm(input.name, input.description, ParseMode(input.mode).value, settings))
    else Failure(issues)
  }

  /** A missing settings object and `{}` both give the documented defaults:
      downloads allowed, every other switch off, no notification addresses. */
  lemma GallerySettingsDefaults(name: string, isEmail: string -> bool)
    requires ValidGalleryName(name)
    ensures var r := CreateGallery(CreateGalleryInput(name, None, None, None), isEmail);
      && r.Success?
      && r.value.mode == Presentation
      && r.value.settings == Settings(true, false, false, false, false, [])
    ensures CreateGallery(CreateGalleryInput(name, None, None, None), isEmail)
         == CreateGallery(CreateGalleryInput(name, None, None, Some(EMPTY_SETTINGS)), isEmail)
  {
  }

  // ---------------------------------------------------------------------------
  // createShareLinkSchema
  // ---------------------------------------------------------------------------

  datatype SharePermission = ViewOnly | ViewDownload | ViewDownloadComment

  /** `z.enum([...]).default('view_only')`. */
  function ParsePermissions(p: Option<string>): (r: Option<SharePermission>)
    ensures r == Some(ViewOnly) <==> p.None? || p == Some("view_only")
    ensures r == Some(ViewDownload) <==> p == Some("view_download")
    ensures r == Some(ViewDownloadComment) <==> p == Some("view_download_comment")
  {
    match p
    case None => Some(ViewOnly)
    case Some(s) =>
      if s == SHARE_VIEW_ONLY then Some(ViewOnly)
      else if s == SHARE_VIEW_DOWNLOAD then Some(ViewDownload)
      else if s == SHARE_VIEW_DOWNLOAD_COMMENT then Some(ViewDownloadComment)
      else None
  }

  /** `expiresAt` is a date, kept as its time in milliseconds. */
  datatype ShareLinkInput = ShareLinkInput(
    password: Option<string>, expiresAt: Option<int>, permissions: Option<string>,
    notifyEmails: Option<seq<string>>)

  datatype ShareLinkForm = ShareLinkForm(
    password: Option<string>, expiresAt: Option<int>, permissions: SharePermission,
    notifyEmails: seq<string>)

  /** `createShareLinkSchema.safeParse(input)`. */
  function CreateShareLink(input: ShareLinkInput, isEmail: string -> bool)
    : (r: Result<ShareLinkForm, seq<Issue>>)
    ensures var emails := input.notifyEmails.GetOr([]);
      r.Success? <==>
        ParsePermissions(input.permissions).Some? && forall k :: 0 <= k < |emails| ==> isEmail(emails[k])
    ensures r.Success? ==>
      r.value == ShareLinkForm(input.password, input.expiresAt, ParsePermissions(input.permissions).value,
                               input.notifyEmails.GetOr([]))
    ensures r.Failure? ==> (InvalidPermissions in r.error <==> ParsePermissions(input.permissions).None?)
    ensures var emails := input.notifyEmails.GetOr([]);
      r.Failure? ==> forall k :: 0 <= k < |emails| && !isEmail(emails[k]) ==> InvalidEmail("notifyEmails", k) in r.error
    ensures var emails := input.notifyEmails.GetOr([]);
      r.Failure? ==> forall issue :: issue in r.error ==>
        || issue == InvalidPermissions
        || (&& issue.InvalidEmail? && issue.path == "notifyEmails"
            && issue.index < |emails| && !isEmail(emails[issue.index]))
  {
    var permissions := ParsePermissions(input.permissions);
    var emails := input.notifyEmails.GetOr([]);
    var permissionIssues := if permissions.None? then [InvalidPermissions] else [];
    var issues := permissionIssues + EmailIssues("notifyEmails", emails, isEmail, 0);
    EmailIssuesComplete(permissionIssues, "notifyEmails", emails, isEmail);
    if issues == [] then Success(ShareLinkForm(input.password, input.expiresAt, permissions.value, emails))
    else Failure(issues)
  }

  /** An empty share-link form is accepted as view-only with no addresses. */
  lemma ShareLinkDefaults(isEmail: string -> bool)
    ensures CreateShareLink(ShareLinkInput(None, None, None, None), isEmail)
         == Success(ShareLinkForm(None, None, ViewOnly, []))
  {
  }

  // ---------------------------------------------------------------------------
  // uploadImageSchema
  // ---------------------------------------------------------------------------

  /** The `File` fields the schema reads. */
  datatype FileInfo = FileInfo(size: nat, fileType: string)

  datatype UploadImageInput = UploadImageInput(file: FileInfo, galleryId: string)

  /** `uploadImageSchema.safeParse(input)`; both refinements of `file` are checked
      and reported. */
  function UploadImage(input: UploadImageInput, isUuid: string -> bool)
    : (r: Result<UploadImageInput, seq<Issue>>)
    ensures r.Success? <==>
      input.file.size <= 50 * 1024 * 1024
      && (input.file.fileType == "image/jpeg" || input.file.fileType == "image/png")
      && isUuid(input.galleryId)
    ensures r.Success? ==> r.value == input
    ensures r.Failure? ==>
      && (FileTooLarge in r.error <==> input.file.size > 52428800)
      && (UnsupportedFileType in r.error <==> input.file.fileType !in SUPPORTED_IMAGE_TYPES)
      && (InvalidGalleryId in r.error <==> !isUuid(input.galleryId))
    ensures r.Failure? ==> forall issue :: issue in r.error ==>
      issue == FileTooLarge || issue == UnsupportedFileType || issue == InvalidGalleryId
  {
    var issues :=
      (if input.file.size <= 50 * 1024 * 1024 then [] else [FileTooLarge])
      + (if input.file.fileType in ["image/jpeg", "image/png"] then [] else [UnsupportedFileType])
      + (if isUuid(input.galleryId) then [] else [InvalidGalleryId]);
    if issues == [] then Success(input) else Failure(issues)
  }

  /** The exported constants are the limits the checks use, and agree with the
      upload predicate of src/lib/utils.ts and the sizes of src/lib/cloudflare/r2.ts. */
  lemma ConstantsAgree(input: UploadImageInput, isUuid: string -> bool)
    ensures UploadImage(input, isUuid).Success? <==>
      input.file.size <= MAX_FILE_SIZE && input.file.fileType in SUPPORTED_IMAGE_TYPES && isUuid(input.galleryId)
    ensures UploadImage(input, isUuid).Success? ==> Utils.IsValidUploadType(input.file.fileType)
    ensures MAX_FILE_SIZE == R2.DEFAULT_MAX_SIZE
    ensures R2.ImageSizes(R2.THUMBNAIL) == R2.Dimensions(Some(THUMBNAIL_SIZE), Some(THUMBNAIL_SIZE))
    ensures R2.ImageSizes(R2.PREVIEW) == R2.Dimensions(Some(PREVIEW_SIZE), Some(PREVIEW_SIZE))
    ensures ParseMode(Some(GALLERY_MODE_PRESENTATION)) == Some(Presentation)
    ensures ParseMode(Some(GALLERY_MODE_COLLABORATION)) == Some(Collaboration)
    ensures ParsePermissions(Some(SHARE_VIEW_ONLY)) == Some(ViewOnly)
    ensures ParsePermissions(Some(SHARE_VIEW_DOWNLOAD)) == Some(ViewDownload)
    ensures ParsePermissions(Some(SHARE_VIEW_DOWNLOAD_COMMENT)) == Some(ViewDownloadComment)
  {
  }
}
