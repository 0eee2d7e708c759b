# frameport-app core, modelled in Dafny

Frameport is a photo-gallery web application: photographers upload images to a
Cloudflare R2 bucket (S3 API), group them into galleries and share them through
links. This project models its sequential logic and proves properties of it:

- **Asset locator** (`r2.dfy`, module `R2`): the rule that derives the thumbnail
  and preview storage keys from an original key (insert `_thumb` / `_preview`
  before the last `.`), the size-tier choice of `getImageUrl`, the use-case to
  size mapping, public URLs, and the records of the presigned upload and download
  operations. Signing (`getSignedUrl`) is an uninterpreted function parameter
  `sign` of the command and its expiry.
- **Helpers** (`utils.dfy`, module `Utils`): file extension and unique file names,
  the upload MIME-type predicates, initials, the string-hash avatar colour (with
  JavaScript's 32-bit `<<`), relative-date bucketing and the `throttle` gate (a
  class over its `lastTime` state).
- **Gallery viewer** (`gallery_viewer.dfy`, module `GalleryViewer`): one class
  `Viewer` holding the state of `Gallery`, `Modal` and `Carousel`
  (`modalOpen`, `selectedImageIndex`, `photoId`, `curIndex`, `direction`, the
  last-viewed slot and the images), with one method per event handler.
- **Validation schemas** (`schemas.dfy`, module `Schemas`): the zod schemas
  `createGallerySchema`, `createShareLinkSchema` and `uploadImageSchema` as
  parsing functions that apply defaults or return the issues, and the exported
  constants.
- `text.dfy` (module `Text`) holds the JavaScript string operations used above
  (`split`/`join` on one character, `lastIndexOf`, `indexOf`, `replace` of the
  first occurrence, `substring` with its clamping, ASCII case mapping, decimal
  rendering of integers with its inverse); `wrappers.dfy` holds `Option`/`Result`.

Inputs that the code reads from its environment are parameters: `Date.now()`
(`timestamp`, `nowMs`), `new Date().toISOString()` (`uploadedAt`), the date a
relative date is computed for (`dateMs`) and its `formatDate` rendering
(`formatted`), the R2 endpoint of `getPublicUrl` (`endpoint`), zod's `email()`
and `uuid()` checks (`isEmail`, `isUuid`) and the clock of `throttle` (`now`).
A TypeScript default parameter or optional field is an `Option`; `None` takes
the default.

Behaviour of the code worth noting, which the model follows:

- `generateUniqueFilename` keeps the case of the base name (only the extension is
  lowercased), so `My Photo.jpg` becomes `My_Photo_<ts>.jpg`, not `my_photo_…`
  (`Utils.UniqueFilenameBase`).
- The modal always starts at photo 0: `Gallery` records `selectedImageIndex` but
  does not pass it to `Modal` (`GalleryViewer.Viewer.OpenModal`). Opening a
  five-image grid at image 2 therefore shows photo 0, and two ArrowRight presses
  reach index 2 (`GalleryViewer.FiveImageWalk`).
- Closing the grid's modal does not write the last-viewed slot; only the
  Carousel's close does (`GalleryViewer.Viewer.ModalHandleClose`,
  `GalleryViewer.Viewer.CarouselCloseModal`).
- A last-viewed id of `0` is falsy in JavaScript, so no scroll happens for it
  (`GalleryViewer.Viewer.ScrollTarget`).
- ArrowLeft and ArrowRight set `direction` to -1 and 1; a `changePhotoId` to the
  current index sets -1, not "none".

## Model

| member | source | states |
|---|---|---|
| `R2.SuffixedKey` | src/lib/cloudflare/r2.ts:120-135 | split on `.`, pop the extension, join the rest: the suffix lands right before the last `.`; with no `.` the result is suffix + `.` + whole key |
| `R2.ThumbnailKey` | src/lib/cloudflare/r2.ts:120-125 | `_thumb` inserted right before the last `.`, everything else unchanged; a key without `.` gives `_thumb.` + key |
| `R2.PreviewKey` | src/lib/cloudflare/r2.ts:130-135 | the same rule with `_preview` |
| `R2.DerivedKeysDistinct` | src/lib/cloudflare/r2.ts:121-134 | derived keys are longer by exactly 6 / 8 (7 / 9 without `.`), so original, thumbnail and preview keys are pairwise distinct |
| `R2.DerivedKeysKeepExtension` | src/lib/cloudflare/r2.ts:121-134 | for every key, both derived keys have the same file extension as the original (for a key without `.`, the whole key lowercased) |
| `R2.ThumbnailKeyExample` | src/lib/cloudflare/r2.ts:120-125 | `photo.jpg` gives `photo_thumb.jpg` |
| `R2.PreviewKeyExample` | src/lib/cloudflare/r2.ts:130-135 | `a.b.jpg` gives `a.b_preview.jpg`: only the final extension is split off |
| `R2.ImageSizes` | src/lib/cloudflare/r2.ts:212-216 | only ORIGINAL has no bounds; every box is square, at most 1200, and the thumbnail box is smaller than 1200 |
| `R2.GetImageSize` | src/lib/cloudflare/r2.ts:221-231 | thumbnail gives THUMBNAIL, gallery gives PREVIEW, lightbox gives ORIGINAL, anything else gives PREVIEW |
| `R2.ImageSizeBounded` | src/lib/cloudflare/r2.ts:212-231 | only the lightbox use case gets the unbounded original; every other use case gets a box of at most 1200x1200 |
| `R2.PresignedDownloadUrl` | src/lib/cloudflare/r2.ts:57-67 | signs a GET of the key with the given expiry, 3600 seconds by default |
| `R2.GetImageUrl` | src/lib/cloudflare/r2.ts:140-154 | signs the key itself for `original` (the default), the thumbnail key for `thumbnail`, the preview key for `preview`; the expiry (default 3600) is passed through |
| `R2.PresignedUploadUrl` | src/lib/cloudflare/r2.ts:20-51 | key is the unique filename; fields hold exactly Content-Type and Content-Length (decimal of the limit, default 52428800); the URL signs that PUT for 3600 seconds |
| `R2.UploadTicketRoundTrip` | src/lib/cloudflare/r2.ts:20-51 | Content-Length reads back as the limit; the key keeps the file's extension; uploads at different times get different keys |
| `R2.GetPublicUrl` | src/lib/cloudflare/r2.ts:104-115 | the first occurrence of the storage endpoint is replaced by the public `r2.dev` endpoint (an endpoint without it is kept), then `/` and the key |
| `R2.PublicUrlOfEndpoint` | src/lib/cloudflare/r2.ts:109-114 | the configured storage endpoint maps to the public endpoint + `/` + key |
| `R2.PublicUrlEndsWithKey` | src/lib/cloudflare/r2.ts:114 | every public URL ends with `/` and the key |
| `Utils.IsValidImageType` | src/lib/utils.ts:36-47 | accepted iff the type is one of the seven listed (jpeg, png, webp, gif, bmp, tiff, svg+xml); every accepted type is an `image/` MIME type |
| `Utils.IsValidUploadType` | src/lib/utils.ts:52-55 | accepted iff `image/jpeg` or `image/png`; every accepted type is also a valid image type |
| `Utils.UploadTypes` | src/lib/utils.ts:36-55 | every upload type is an image type, not conversely: WebP and SVG are image types but not upload types |
| `Utils.GetFileExtension` | src/lib/utils.ts:60-62 | the text after the last `.` lowercased (the whole name without `.`; `""` for `""`); it never holds a `.` |
| `Utils.Sanitize` | src/lib/utils.ts:71 | same length; ASCII letters and digits kept with their case, every other character becomes `_` |
| `Utils.GenerateUniqueFilename` | src/lib/utils.ts:67-73 | sanitized text before the last `.` (empty without `.`, via `substring(0, -1)`), `_`, the timestamp, `.`, the extension |
| `Utils.UniqueFilenameKeepsExtension` | src/lib/utils.ts:67-73 | the unique name has the same extension as the original name |
| `Utils.UniqueFilenameWithoutDot` | src/lib/utils.ts:69-72 | a name without `.` gives `_<ts>.` + the name lowercased |
| `Utils.UniqueFilenameBase` | src/lib/utils.ts:70-72 | the name starts with the sanitized base (case kept) followed by `_` |
| `Utils.UniqueFilenameInjective` | src/lib/utils.ts:67-73 | one name at two different timestamps never gives the same file name |
| `Utils.GetInitials` | src/lib/utils.ts:236-243 | at most 2 characters, none a lowercase ASCII letter |
| `Utils.FirstCharsSplit` | src/lib/utils.ts:238-240 | the first characters of the space-separated words are the characters at the start or right after a space |
| `Utils.GetInitialsAreWordStarts` | src/lib/utils.ts:236-243 | the initials are the first two word-start characters, uppercased, in order |
| `Utils.ToInt32` | src/lib/utils.ts:258 | the 32-bit reduction of `<<`: a value in [-2^31, 2^31) congruent to the input mod 2^32 |
| `Utils.Hash` | src/lib/utils.ts:256-259 | the hash of `""` is 0, and each character moves it by less than 2^31 + 2^21, so its magnitude is at most that times the length |
| `Utils.ColorOf` | src/lib/utils.ts:248-262 | the colour is one of the 17 palette entries |
| `Utils.GenerateColorFromString` | src/lib/utils.ts:248-262 | the loop computes the left fold of `code + ((hash << 5) - hash)` and picks `palette[abs(hash) % 17]` |
| `Utils.ColorExamples` | src/lib/utils.ts:249-261 | the empty string gives `#ef4444`; `a` hashes to 97 and gives `#8b5cf6` |
| `Utils.ColorShape` | src/lib/utils.ts:249-254 | every colour is 7 characters long and starts with `#` |
| `Utils.Bucket` | src/lib/utils.ts:206-210 | Just now below 60 s (negative included), then whole minutes, hours, days in their ranges, then the absolute date from 2592000 s; the count lies in 1..59, 1..23, 1..29 and is the floor of the quotient |
| `Utils.BucketMonotonic` | src/lib/utils.ts:206-210 | a longer elapsed time never gives a more recent bucket or a smaller count |
| `Utils.FormatRelativeDate` | src/lib/utils.ts:201-212 | with s the floor of the millisecond difference by 1000: `Just now` below 60, `<s/60> minutes ago` below 3600, `<s/3600> hours ago` below 86400, `<s/86400> days ago` below 2592000, the formatted date from there on |
| `Utils.FutureIsJustNow` | src/lib/utils.ts:204-206 | a date in the future or less than a minute ago renders as `Just now` |
| `Utils.RelativeDateExample` | src/lib/utils.ts:204-207 | 7200000 ms gives `2 hours ago` |
| `Utils.RelativeDateMinutesExample` | src/lib/utils.ts:204-206 | 119999 ms gives `1 minutes ago` (no singular form) |
| `Utils.Throttle.constructor` | src/lib/utils.ts:139-143 | `lastTime` starts at 0, nothing invoked yet |
| `Utils.SpacedSnoc` | src/lib/utils.ts:146-148 | appending a call at least `wait` after the previous one keeps all recorded calls `wait` apart |
| `Utils.Throttle.Call` | src/lib/utils.ts:144-150 | `func` runs iff `now - lastTime >= wait`; only then `lastTime := now`; a suppressed call changes nothing; invocations stay at least `wait` apart |
| `Schemas.CustomMessage` | src/types/index.ts:258-291 | every issue carries the schema's own message except the mode, permission and address issues, which get zod's default |
| `Schemas.CustomMessagesIdentify` | src/types/index.ts:258-291 | no two issues carry the same custom message, so a reported message tells which check failed |
| `Schemas.EmailIssues` | src/types/index.ts:267 | no issue iff every address passes the email check; each issue is an address issue on the field's path and names a rejected address's index |
| `Schemas.EmailIssueReported` | src/types/index.ts:267 | a rejected address at position k is reported as an address issue with index k |
| `Schemas.EmailIssuesComplete` | src/types/index.ts:267 | every rejected address is reported, also after the issues of the fields before it |
| `Schemas.EmailIssuesOrdered` | src/types/index.ts:267 | the address issues come in strictly increasing index order, so at most one per address |
| `Schemas.ParseMode` | src/types/index.ts:260 | `presentation` or `collaboration`, defaulting to presentation; anything else is rejected |
| `Schemas.SettingsDefaults` | src/types/index.ts:261-268 | each of the six fields keeps its given value; a missing one takes its default (allowDownload true, the other four flags false, addresses `[]`) |
| `Schemas.GalleryFieldIssues` | src/types/index.ts:258-260 | name issue iff length outside 1..100, description issue iff over 500, mode issue iff not in the enum; no issue of any other kind |
| `Schemas.CreateGallery` | src/types/index.ts:257-269 | accepted iff name 1..100, description absent or at most 500, mode valid and all notification addresses valid; the result carries the defaults; each failing field is reported, every rejected notification address under its index; and every reported issue is real: a field issue, or an address issue on `settings.notificationEmails` naming a rejected address |
| `Schemas.GallerySettingsDefaults` | src/types/index.ts:260-268 | missing settings and `{}` both give allowDownload true, the other four flags false, no addresses, mode presentation |
| `Schemas.ParsePermissions` | src/types/index.ts:274 | one of the three permission values, defaulting to view_only |
| `Schemas.CreateShareLink` | src/types/index.ts:271-276 | accepted iff permissions valid and all notify addresses valid; notifyEmails defaults to `[]`; bad permissions and every rejected address are reported, and nothing else: each issue is the permission issue or an address issue on `notifyEmails` naming a rejected address |
| `Schemas.ShareLinkDefaults` | src/types/index.ts:274-275 | an empty form parses to view_only with no addresses |
| `Schemas.UploadImage` | src/types/index.ts:283-292 | accepted iff size at most 50·1024·1024, type JPEG or PNG and the gallery id a UUID; each failing check is reported, and nothing else: every issue is one of the three upload issues |
| `Schemas.ConstantsAgree` | src/types/index.ts:397-412 | MAX_FILE_SIZE and SUPPORTED_IMAGE_TYPES are the upload limits and match r2.ts's default and utils.ts's upload predicate; THUMBNAIL_SIZE/PREVIEW_SIZE match IMAGE_SIZES; all five mode and permission constants parse to their enum values |
| `GalleryViewer.PhotoElementIdShape` | src/components/gallery/Gallery.tsx:67 | `PhotoElementId`, the grid's element id and the string the scroll effect looks up, is `photo-` followed by the decimal id, readable back from position 6 |
| `GalleryViewer.PhotoElementIdInjective` | src/components/gallery/Gallery.tsx:67 | different photo ids give different `photo-<id>` element ids |
| `GalleryViewer.FindElement` | src/components/gallery/Gallery.tsx:24 | the lookup finds the first grid image whose element id is the target, or none when no image has it |
| `GalleryViewer.BackgroundSource` | src/components/gallery/Carousel.tsx:39 | the blur placeholder when present and non-empty, the image URL otherwise |
| `GalleryViewer.Viewer.constructor` | src/components/gallery/Gallery.tsx:17-19 | the grid starts with the modal closed and index 0; the last-viewed slot keeps its value |
| `GalleryViewer.Viewer.OpenModal` | src/components/gallery/Gallery.tsx:31-34 | sets `selectedImageIndex := i` and `modalOpen := true`; a newly mounted modal starts at photo 0 with direction 0 |
| `GalleryViewer.Viewer.ClickImage` | src/components/gallery/Gallery.tsx:40-105 | clicking image i of a non-empty grid opens the viewer (`ViewerShown`: the list is non-empty, past the early return, and `modalOpen` renders `<Modal>`) at photo 0 when it was closed; with no such image nothing changes; with an empty list no viewer is shown |
| `GalleryViewer.Viewer.CloseModal` | src/components/gallery/Gallery.tsx:36-38 | `modalOpen := false`; the selected index and last-viewed slot are unchanged |
| `GalleryViewer.Viewer.ScrollTarget` | src/components/gallery/Gallery.tsx:21-29 | a scroll target exists only when the last-viewed id is truthy and the modal is closed, and then whenever a grid image has that id; a query that changes nothing |
| `GalleryViewer.Viewer.ScrollFindsLastViewed` | src/components/gallery/Gallery.tsx:23-26 | the scrolled-to image is the first one whose id is the last-viewed id |
| `GalleryViewer.Viewer.ChangePhotoId` | src/components/gallery/Modal.tsx:33-43 | direction 1 iff the new index is larger than the old, else -1; `curIndex` and `photoId` both become the new value |
| `GalleryViewer.Viewer.ArrowRight` | src/components/gallery/Modal.tsx:45-49 | moves to index+1 with direction 1 only when index+1 < length; otherwise nothing changes; the index stays in range |
| `GalleryViewer.Viewer.ArrowLeft` | src/components/gallery/Modal.tsx:51-55 | moves to index-1 with direction -1 only when index > 0; otherwise nothing changes; the index stays in range |
| `GalleryViewer.Viewer.ModalHandleClose` | src/components/gallery/Modal.tsx:28-31 | calls Gallery's close: the modal closes and the last-viewed slot is untouched |
| `GalleryViewer.Viewer.CarouselCloseModal` | src/components/gallery/Carousel.tsx:19-22 | the last-viewed slot becomes the current photo's id; nothing else changes |
| `GalleryViewer.Viewer.CarouselEscape` | src/components/gallery/Carousel.tsx:28-30 | Escape has the effect of the Carousel's close |
| `GalleryViewer.Viewer.CarouselBackdropClick` | src/components/gallery/Carousel.tsx:34-36 | a backdrop click has the effect of the Carousel's close |
| `GalleryViewer.Viewer.CarouselChangePhotoId` | src/components/gallery/Carousel.tsx:24-26 | returns its argument and changes no state |
| `GalleryViewer.FiveImageWalk` | src/components/gallery/Gallery.tsx:31-105 | on five images: click image 2, ArrowRight five times, ArrowLeft once, close, click image 9: the modal ends closed at index 3 with direction -1, the selected index is still 2 and the last-viewed slot is untouched |
| `GalleryViewer.EmptyGallery` | src/components/gallery/Gallery.tsx:21-46 | on an empty list any click leaves the viewer hidden, and the scroll effect finds no target even with a last-viewed id |

## Left out

- All S3/R2 network operations (`deleteFile`, `uploadFile`, `deleteMultipleFiles`, `fileExists`, `getFileMetadata`, the client itself): foreign SDK I/O. `getSignedUrl` is only the parameter `sign`; the bucket name and credentials come from the environment and are not modelled.
- The Supabase client, the page and layout components, the sample data, the Database and props interfaces, `updatePhotographerSchema`, `MAX_FILES_PER_UPLOAD`'s use, `SUBSCRIPTION_TIERS`: configuration, markup or type declarations with no logic of the viewer, locator or upload path.
- `formatFileSize` (floating-point logarithms), `compressImage` (canvas), `debounce` and `sleep` (timers), `isTouchDevice` and `copyToClipboard` (browser APIs), `cn` (tailwind-merge), `isValidUrl` (the WHATWG URL parser), `formatDate` (locale formatting; its output is the parameter `formatted`), `generateRandomString` (`Math.random`).
- Framer Motion animation, the Next.js `router.push("/")` of both close handlers, the headlessui `Dialog`, `scrollIntoView` itself, `SharedModal` and the implementation of `useLastViewedPhoto` (modelled as one mutable slot). `SharedModal` may call `changePhotoId` with any value; the index bound is proved for the arrow keys only.
- Rendering of the grid other than element ids and the click wiring; the `images` prop is fixed for the life of the `Viewer`, and a missing list (`undefined`) is modelled as the empty list, which takes the same branch.
- Utils.GetInitials, Utils.GetFileExtension, Utils.GenerateUniqueFilename: case mapping covers ASCII letters only; JavaScript's full Unicode `toUpperCase`/`toLowerCase` (which can change lengths) is not modelled.
- Utils.GetInitials: a character above U+FFFF is one `char`, so `name[0]` here is the whole character; JavaScript's `name[0]` is its first surrogate code unit alone.
- Utils.Sanitize: a character above U+FFFF becomes one `_` here; the source's regular expression (no `u` flag) replaces each of its two code units, giving `__`.
- Utils.GenerateColorFromString: the running hash is an exact integer; JavaScript keeps it as a double, which is exact only while it stays below 2^53. By the bound of `Utils.Hash` that holds for strings of up to about four million characters; longer strings are not modelled.
- Utils.Hash, Utils.GenerateColorFromString: a character above U+FFFF is one `char` and adds its code point in one step; JavaScript's `charCodeAt` adds its two surrogate code units in two steps, so the hash (and the colour) of such a string can differ from the source's.
- Utils.FormatRelativeDate: the `Date` parsing of a string argument is not modelled; both instants are given in milliseconds.
- R2.PresignedUploadUrl: `maxSizeInBytes` is a natural number, so `toString()` of fractional or negative sizes is not modelled.
- Schemas: inputs are already typed records, so zod's type errors (a missing name, a non-boolean flag, a non-`File` upload, an invalid `Date`) and the exact wording of zod's default messages are not modelled.
- Schemas.CreateGallery: name and description lengths count a character above U+FFFF as one `char`, where zod's `.min`/`.max` count two code units; a name of 51 such characters is accepted here and rejected by the source. Every limit agrees with the source on text inside the Basic Multilingual Plane.
