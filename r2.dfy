/** The asset locator of src/lib/cloudflare/r2.ts: storage-key derivation, size
    selection, public URLs and the records of the presigning operations. The
    network (the S3 client and its presigner) is abstract: `sign` stands for
    `getSignedUrl`, an uninterpreted function of the command and its expiry. */
module R2 {
  import opened Wrappers
  import opened Text
  import Utils

  // ---------------------------------------------------------------------------
  // derived keys
  // ---------------------------------------------------------------------------

  /** `split('.')`, `pop()` of the extension, `join('.')` of the rest, and the
      template `${nameWithoutExt}${suffix}.${extension}`. */
  function SuffixedKey(originalKey: string, suffix: string): (r: string)
    ensures var i := LastIndexOf(originalKey, '.');
      && (i >= 0 ==> r == originalKey[..i] + suffix + "." + originalKey[i + 1..])
      && (i < 0 ==> r == suffix + "." + originalKey)
  {
    var parts := Split(originalKey, '.');
    var extension := parts[|parts| - 1];
    var nameWithoutExt := Join(parts[..|parts| - 1], ".");
    PopAndJoin(originalKey);
    nameWithoutExt + suffix + "." + extension
  }

  /** What `pop()` and `join('.')` leave of a key split on `.`. */
  lemma PopAndJoin(k: string)
    ensures var parts := Split(k, '.'); var i := LastIndexOf(k, '.');
      && parts[|parts| - 1] == (if i >= 0 then k[i + 1..] else k)
      && Join(parts[..|parts| - 1], ".") == if i >= 0 then k[..i] else ""
  {
    SplitLast(k, '.');
  }

  /** `generateThumbnailKey(originalKey)`: `_thumb` goes right before the last
      `.`; a key without `.` becomes `_thumb.` followed by the whole key. */
  function ThumbnailKey(originalKey: string): (r: string)
    ensures var i := LastIndexOf(originalKey, '.');
      && (i >= 0 ==> r == originalKey[..i] + "_thumb" + "." + originalKey[i + 1..])
      && (i < 0 ==> r == "_thumb." + originalKey)
  {
    SuffixedKey(originalKey, "_thumb")
  }

  /** `generatePreviewKey(originalKey)`: the same rule with `_preview`. */
  function PreviewKey(originalKey: string): (r: string)
    ensures var i := LastIndexOf(originalKey, '.');
      && (i >= 0 ==> r == originalKey[..i] + "_preview" + "." + originalKey[i + 1..])
      && (i < 0 ==> r == "_preview." + originalKey)
  {
    SuffixedKey(originalKey, "_preview")
  }

  /** Derived keys are longer than the original, by 6 and 8 characters when the
      key has an extension (7 and 9 without), so the three keys of one image are
      pairwise distinct. */
  lemma DerivedKeysDistinct(key: string)
    ensures '.' in key ==> |ThumbnailKey(key)| == |key| + 6 && |PreviewKey(key)| == |key| + 8
    ensures '.' !in key ==> |ThumbnailKey(key)| == |key| + 7 && |PreviewKey(key)| == |key| + 9
    ensures ThumbnailKey(key) != key && PreviewKey(key) != key && ThumbnailKey(key) != PreviewKey(key)
  {
  }

  /** The derived keys keep the original extension (the text after the last `.`,
      or the whole key lowercased when it has none). */
  lemma DerivedKeysKeepExtension(key: string)
    ensures Utils.GetFileExtension(ThumbnailKey(key)) == Utils.GetFileExtension(key)
    ensures Utils.GetFileExtension(PreviewKey(key)) == Utils.GetFileExtension(key)
  {
    var i := LastIndexOf(key, '.');
    var ext := key[i + 1..];
    if i >= 0 {
      assert ThumbnailKey(key) == (key[..i] + "_thumb") + "." + ext;
      assert PreviewKey(key) == (key[..i] + "_preview") + "." + ext;
      Utils.ExtensionAfterLastDot(key[..i] + "_thumb", ext);
      Utils.ExtensionAfterLastDot(key[..i] + "_preview", ext);
    } else {
      assert ext == key;
      assert ThumbnailKey(key) == "_thumb" + "." + key;
      assert PreviewKey(key) == "_preview" + "." + key;
      Utils.ExtensionAfterLastDot("_thumb", key);
      Utils.ExtensionAfterLastDot("_preview", key);
    }
  }

  lemma ThumbnailKeyExample(k: string)
    requires k == "photo.jpg"
    ensures ThumbnailKey(k) == "photo_thumb.jpg"
  {
    assert k[5] == '.' && '.' !in k[6..];
    LastIndexOfAt(k, '.', 5);
    assert k[..5] == "photo" && k[6..] == "jpg";
  }

  /** Only the final extension is split off. */
  lemma PreviewKeyExample(k: string)
    requires k == "a.b.jpg"
    ensures PreviewKey(k) == "a.b_preview.jpg"
  {
    assert k[3] == '.' && '.' !in k[4..];
    LastIndexOfAt(k, '.', 3);
    assert k[..3] == "a.b" && k[4..] == "jpg";
  }

  // ---------------------------------------------------------------------------
  // size tiers
  // ---------------------------------------------------------------------------

  /** The keys of `IMAGE_SIZES`. */
  datatype SizeName = THUMBNAIL | PREVIEW | ORIGINAL

  datatype Dimensions = Dimensions(width: Option<nat>, height: Option<nat>)

  /** `IMAGE_SIZES`: bounding boxes per stored variant; the original has none (`null`). */
  function ImageSizes(name: SizeName): (d: Dimensions)
    ensures d.width.None? <==> name == ORIGINAL
    ensures d.width == d.height
    ensures d.width.Some? ==> d.width.value <= 1200
    ensures name == THUMBNAIL ==> d.width.Some? && d.width.value < 1200
  {
    match name
    case THUMBNAIL => Dimensions(Some(400), Some(400))
    case PREVIEW => Dimensions(Some(1200), Some(1200))
    case ORIGINAL => Dimensions(None, None)
  }

  /** `getImageSize(useCase)`; an unexpected use case falls to the default branch. */
  function GetImageSize(useCase: string): (r: SizeName)
    ensures useCase == "thumbnail" ==> r == THUMBNAIL
    ensures useCase == "gallery" ==> r == PREVIEW
    ensures useCase == "lightbox" ==> r == ORIGINAL
    ensures useCase !in ["thumbnail", "gallery", "lightbox"] ==> r == PREVIEW
  {
    match useCase
    case "thumbnail" => THUMBNAIL
    case "gallery" => PREVIEW
    case "lightbox" => ORIGINAL
    case _ => PREVIEW
  }

  /** Only the lightbox shows the original; every other use case shows a bounded
      variant no larger than the preview's 1200 pixels. */
  lemma ImageSizeBounded(useCase: string)
    ensures GetImageSize(useCase) == ORIGINAL <==> useCase == "lightbox"
    ensures useCase != "lightbox" ==>
      var d := ImageSizes(GetImageSize(useCase));
      d.width.Some? && d.width.value <= 1200 && d.height.Some? && d.height.value <= 1200
  {
  }

  // ---------------------------------------------------------------------------
  // presigned URLs
  // ---------------------------------------------------------------------------

  /** The S3 commands the presigner signs (the bucket name comes from the
      environment and is left implicit). */
  datatype Command =
    | GetObject(key: string)
    | PutObject(key: string, contentType: string, contentLength: nat,
                originalFilename: string, uploadedAt: string)

  /** `getSignedUrl(client, command, { expiresIn })`. */
  type Signer = (Command, int) -> string

  const DEFAULT_EXPIRES_IN: int := 3600
  const UPLOAD_EXPIRES_IN: int := 3600
  const DEFAULT_MAX_SIZE: nat := 50 * 1024 * 1024

  /** `generatePresignedDownloadUrl(key, expiresIn = 3600)`. */
  function PresignedDownloadUrl(sign: Signer, key: string, expiresIn: Option<int>): (url: string)
    ensures expiresIn.None? ==> url == sign(GetObject(key), 3600)
    ensures expiresIn.Some? ==> url == sign(GetObject(key), expiresIn.value)
  {
    sign(GetObject(key), expiresIn.GetOr(DEFAULT_EXPIRES_IN))
  }

  datatype SizeTier = Original | Preview | Thumbnail

  /** `getImageUrl(key, size = 'original', expiresIn = 3600)`: picks the stored
      variant for the tier, then presigns a download of it. */
  method GetImageUrl(sign: Signer, key: string, size: Option<SizeTier>, expiresIn: Option<int>)
    returns (url: string)
    ensures var e := expiresIn.GetOr(3600);
      match size.GetOr(Original)
      case Original => url == sign(GetObject(key), e)
      case Thumbnail => url == sign(GetObject(ThumbnailKey(key)), e)
      case Preview => url == sign(GetObject(PreviewKey(key)), e)
  {
    var tier := size.GetOr(Original);
    var imageKey := key;
    if tier == Thumbnail {
      imageKey := ThumbnailKey(key);
    } else if tier == Preview {
      imageKey := PreviewKey(key);
    }
    url := PresignedDownloadUrl(sign, imageKey, expiresIn);
  }

  /** The record `generatePresignedUploadUrl` resolves to. */
  datatype UploadTicket = UploadTicket(uploadUrl: string, key: string, fields: map<string, string>)

  /** `generatePresignedUploadUrl(filename, contentType, maxSizeInBytes = 50 MiB)`,
      with `Date.now()` as `nowMs` and `new Date().toISOString()` as `uploadedAt`. */
  function PresignedUploadUrl(sign: Signer, filename: string, contentType: string,
                              maxSizeInBytes: Option<nat>, nowMs: nat, uploadedAt: string)
    : (t: UploadTicket)
    ensures t.key == Utils.GenerateUniqueFilename(filename, nowMs)
    ensures t.fields.Keys == {"Content-Type", "Content-Length"}
    ensures t.fields["Content-Type"] == contentType
    ensures t.fields["Content-Length"] == NatToString(maxSizeInBytes.GetOr(52428800))
    ensures t.uploadUrl == sign(PutObject(t.key, contentType, maxSizeInBytes.GetOr(52428800),
                                          filename, uploadedAt), 3600)
  {
    var maxSize := maxSizeInBytes.GetOr(DEFAULT_MAX_SIZE);
    var key := Utils.GenerateUniqueFilename(filename, nowMs);
    var command := PutObject(key, contentType, maxSize, filename, uploadedAt);
    UploadTicket(sign(command, UPLOAD_EXPIRES_IN), key,
                 map["Content-Type" := contentType, "Content-Length" := NatToString(maxSize)])
  }

  /** The `Content-Length` field reads back as the size limit, the key keeps the
      file's extension, and two uploads of one file at different times get
      different keys. */
  lemma UploadTicketRoundTrip(sign: Signer, filename: string, contentType: string,
                             maxSizeInBytes: Option<nat>, nowMs: nat, later: nat, uploadedAt: string)
    requires nowMs != later
    ensures var t := PresignedUploadUrl(sign, filename, contentType, maxSizeInBytes, nowMs, uploadedAt);
      && ParseDigits(t.fields["Content-Length"]) == maxSizeInBytes.GetOr(52428800)
      && Utils.GetFileExtension(t.key) == Utils.GetFileExtension(filename)
      && t.key != PresignedUploadUrl(sign, filename, contentType, maxSizeInBytes, later, uploadedAt).key
  {
    ParseNatToString(maxSizeInBytes.GetOr(DEFAULT_MAX_SIZE));
    Utils.UniqueFilenameKeepsExtension(filename, nowMs);
    if Utils.GenerateUniqueFilename(filename, nowMs) == Utils.GenerateUniqueFilename(filename, later) {
      Utils.UniqueFilenameInjective(filename, nowMs, later);
    }
  }

  // ---------------------------------------------------------------------------
  // public URLs
  // ---------------------------------------------------------------------------

  const PRIVATE_ENDPOINT: string := "https://a9d607f4223071c884434e2efd48f485.r2.cloudflarestorage.com"
  const PUBLIC_ENDPOINT: string := "https://pub-a9d607f4223071c884434e2efd48f485.r2.dev"

  /** `getPublicUrl(key)`, with the configured endpoint as a parameter: the first
      occurrence of the account's storage endpoint becomes its public `r2.dev`
      endpoint, then `/` and the key follow. */
  function GetPublicUrl(endpoint: string, key: string): (url: string)
    ensures var i := IndexOf(endpoint, PRIVATE_ENDPOINT);
      && (i < 0 ==> url == endpoint + "/" + key)
      && (i >= 0 ==> url == endpoint[..i] + PUBLIC_ENDPOINT + endpoint[i + |PRIVATE_ENDPOINT|..] + "/" + key)
  {
    var publicEndpoint := ReplaceFirst(endpoint, PRIVATE_ENDPOINT, PUBLIC_ENDPOINT);
    publicEndpoint + "/" + key
  }

  /** The configured storage endpoint itself maps to the public endpoint; the key
      always ends the URL after a `/`. */
  lemma PublicUrlOfEndpoint(key: string)
    ensures GetPublicUrl(PRIVATE_ENDPOINT, key) == PUBLIC_ENDPOINT + "/" + key
  {
    assert OccursAt(PRIVATE_ENDPOINT, PRIVATE_ENDPOINT, 0);
    assert IndexOf(PRIVATE_ENDPOINT, PRIVATE_ENDPOINT) == 0;
    assert PRIVATE_ENDPOINT[..0] == "" && PRIVATE_ENDPOINT[|PRIVATE_ENDPOINT|..] == "";
  }

  lemma PublicUrlEndsWithKey(endpoint: string, key: string)
    ensures var url := GetPublicUrl(endpoint, key);
      |url| > |key| && url[|url| - |key|..] == key && url[|url| - |key| - 1] == '/'
  {
  }
}
