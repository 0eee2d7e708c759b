/** The gallery viewer: the grid of src/components/gallery/Gallery.tsx, the
    full-screen viewer it opens (src/components/gallery/Modal.tsx) and the
    single-photo Carousel (src/components/gallery/Carousel.tsx), as one object.
    React state becomes fields; the `useLastViewedPhoto` hook is the mutable
    slot `lastViewed`. Rendering, animation, routing and scrolling are left out;
    which element the scroll effect would bring into view is a query. */
module GalleryViewer {
  import opened Wrappers
  import opened Text

  /** `ImageProps` of src/lib/gallery-types.ts (the optional metadata fields the
      viewer never reads are dropped). */
  datatype ImageProps = ImageProps(
    id: int, height: string, width: string, imageUrl: string, format: string,
    blurDataUrl: Option<string>, title: Option<string>)

  /** The DOM id of an image in the grid, `photo-${image.id}`; the scroll effect
      builds the same string from the last-viewed id. */
  function PhotoElementId(id: int): string
  {
    "photo-" + IntToString(id)
  }

  /** An element id is `photo-` followed by the decimal id, which can be read
      back from position 6 on. */
  lemma PhotoElementIdShape(id: int)
    ensures var e := PhotoElementId(id);
      |e| > 6 && e[..6] == "photo-" && e[6..] == IntToString(id)
  {
  }

  /** Different photos have different element ids. */
  lemma PhotoElementIdInjective(a: int, b: int)
    requires PhotoElementId(a) == PhotoElementId(b)
    ensures a == b
  {
    PhotoElementIdShape(a);
    PhotoElementIdShape(b);
    IntToStringInjective(a, b);
  }

  /** `document.getElementById(target)` over the grid: the first image, in
      document order, whose element id is `target`. */
  function FindElement(images: seq<ImageProps>, target: string): (k: Option<nat>)
    ensures k.Some? ==> k.value < |images| && PhotoElementId(images[k.value].id) == target
    ensures k.Some? ==> forall j :: 0 <= j < k.value ==> PhotoElementId(images[j].id) != target
    ensures k.None? ==> forall j :: 0 <= j < |images| ==> PhotoElementId(images[j].id) != target
    decreases |images|
  {
    if images == [] then None
    else if PhotoElementId(images[0].id) == target then Some(0)
    else
      var rest := FindElement(images[1..], target);
      assert forall j :: 1 <= j < |images| ==> images[1..][j - 1] == images[j];
      if rest.None? then
        None
      else
        assert images[rest.value + 1] == images[1..][rest.value];
        Some(rest.value + 1)
  }

  /** JavaScript truthiness of the last-viewed id: `undefined` and `0` are falsy. */
  predicate Truthy(v: Option<int>)
  {
    v.Some? && v.value != 0
  }

  /** The Carousel's background image, `currentPhoto.blurDataUrl || currentPhoto.image_url`. */
  function BackgroundSource(photo: ImageProps): (src: string)
    ensures photo.blurDataUrl.Some? && photo.blurDataUrl.value != "" ==> src == photo.blurDataUrl.value
    ensures photo.blurDataUrl.None? || photo.blurDataUrl.value == "" ==> src == photo.imageUrl
  {
    match photo.blurDataUrl
    case Some(url) => if url != "" then url else photo.imageUrl
    case None => photo.imageUrl
  }

  class Viewer {
    /** The gallery's images, as passed to `Gallery` (a missing list is `[]`). */
    const images: seq<ImageProps>
    /** Gallery state. */
    var modalOpen: bool
    var selectedImageIndex: int
    /** Modal state; meaningful while the modal is mounted. */
    var photoId: int
    var curIndex: int
    var direction: int
    /** The slot behind `useLastViewedPhoto`. */
    var lastViewed: Option<int>

    ghost predicate Valid()
      reads this
    {
      && (direction == -1 || direction == 0 || direction == 1)
      && curIndex == photoId
    }

    /** The viewer's index points into the image list. */
    ghost predicate InRange()
      reads this
    {
      0 <= curIndex < |images|
    }

    /** `Gallery` renders the grid only for a non-empty list, and `<Modal>` only
        inside it while `modalOpen`; the modal's key handlers exist exactly then. */
    predicate ViewerShown()
      reads this
    {
      |images| > 0 && modalOpen
    }

    /** Gallery mounts closed with `selectedImageIndex` 0; the last-viewed slot
        keeps whatever it held. */
    constructor (images: seq<ImageProps>, lastViewed: Option<int>)
      ensures Valid()
      ensures this.images == images && this.lastViewed == lastViewed
      ensures !modalOpen && selectedImageIndex == 0
      ensures photoId == 0 && curIndex == 0 && direction == 0
    {
      this.images := images;
      this.lastViewed := lastViewed;
      modalOpen := false;
      selectedImageIndex := 0;
      photoId, curIndex, direction := 0, 0, 0;
    }

    // -------------------------------------------------------------------------
    // Gallery
    // -------------------------------------------------------------------------

    /** `openModal(index)`. When the modal was closed it mounts afresh, and its
        state starts at photo 0 whatever `index` is: `Gallery` does not pass the
        selected index on. */
    method OpenModal(index: int)
      requires Valid()
      modifies this
      ensures Valid()
      ensures modalOpen && selectedImageIndex == index && lastViewed == old(lastViewed)
      ensures !old(modalOpen) ==> photoId == 0 && curIndex == 0 && direction == 0
      ensures old(modalOpen) ==> photoId == old(photoId) && curIndex == old(curIndex) && direction == old(direction)
      ensures |images| > 0 && (old(InRange()) || !old(modalOpen)) ==> InRange()
    {
      if !modalOpen {
        photoId, curIndex, direction := 0, 0, 0;
      }
      selectedImageIndex := index;
      modalOpen := true;
    }

    /** A click on the grid image at position `index`. The grid is rendered only
        for a non-empty list, so with no such image nothing happens. */
    method ClickImage(index: int)
      requires Valid()
      modifies this
      ensures Valid()
      ensures 0 <= index < |images| ==> modalOpen && selectedImageIndex == index && ViewerShown()
      ensures 0 <= index < |images| && !old(modalOpen) ==> photoId == 0 && curIndex == 0 && direction == 0
      ensures old(modalOpen) ==> photoId == old(photoId) && curIndex == old(curIndex) && direction == old(direction)
      ensures !(0 <= index < |images|) ==>
        modalOpen == old(modalOpen) && selectedImageIndex == old(selectedImageIndex)
        && photoId == old(photoId) && curIndex == old(curIndex) && direction == old(direction)
      ensures lastViewed == old(lastViewed)
      ensures |images| == 0 ==> !ViewerShown()
    {
      if 0 <= index < |images| {
        OpenModal(index);
      }
    }

    /** `closeModal()` of Gallery: hides the modal and nothing else. */
    method CloseModal()
      requires Valid()
      modifies this
      ensures Valid() && !modalOpen && !ViewerShown()
      ensures selectedImageIndex == old(selectedImageIndex) && lastViewed == old(lastViewed)
      ensures photoId == old(photoId) && curIndex == old(curIndex) && direction == old(direction)
    {
      modalOpen := false;
    }

    /** The scroll effect: while the modal is closed and the last-viewed id is
        truthy, the grid image whose element id is `photo-<last viewed>` (if the
        lookup finds one) is scrolled into view. A query: it changes nothing. */
    function ScrollTarget(): (k: Option<nat>)
      reads this
      ensures k.Some? ==> Truthy(lastViewed) && !modalOpen && k.value < |images|
      ensures k.Some? ==> PhotoElementId(images[k.value].id) == PhotoElementId(lastViewed.value)
      ensures Truthy(lastViewed) && !modalOpen && (exists j :: 0 <= j < |images| && images[j].id == lastViewed.value)
              ==> k.Some?
    {
      if Truthy(lastViewed) && !modalOpen then FindElement(images, PhotoElementId(lastViewed.value))
      else None
    }

    /** The element the scroll effect finds is the last-viewed photo itself,
        and the first one in the grid with that id. */
    lemma ScrollFindsLastViewed()
      ensures var k := ScrollTarget();
        k.Some? ==> (images[k.value].id == lastViewed.value
          && forall j :: 0 <= j < k.value ==> images[j].id != lastViewed.value)
    {
      var k := ScrollTarget();
      if k.Some? {
        PhotoElementIdInjective(images[k.value].id, lastViewed.value);
      }
    }

    // -------------------------------------------------------------------------
    // Modal
    // -------------------------------------------------------------------------

    /** Modal's `changePhotoId(newVal)`: the direction is 1 only for a move to a
        larger index and -1 for any other move, including to the same index; the
        index and the photo id both become `newVal`. */
    method ChangePhotoId(newVal: int)
      requires Valid() && ViewerShown()
      modifies this
      ensures Valid() && ViewerShown()
      ensures direction == if newVal > old(photoId) then 1 else -1
      ensures curIndex == newVal && photoId == newVal
      ensures modalOpen == old(modalOpen) && selectedImageIndex == old(selectedImageIndex)
      ensures lastViewed == old(lastViewed)
    {
      var index := photoId;
      if newVal > index {
        direction := 1;
      } else {
        direction := -1;
      }
      curIndex := newVal;
      photoId := newVal;
    }

    /** The ArrowRight key: moves to the next photo only when there is one and
        the modal is shown; otherwise nothing changes. */
    method ArrowRight()
      requires Valid()
      modifies this
      ensures Valid()
      ensures ViewerShown() == old(ViewerShown()) && lastViewed == old(lastViewed)
      ensures modalOpen == old(modalOpen) && selectedImageIndex == old(selectedImageIndex)
      ensures old(ViewerShown()) && old(photoId) + 1 < |images| ==>
        photoId == old(photoId) + 1 && curIndex == photoId && direction == 1
      ensures !(old(ViewerShown()) && old(photoId) + 1 < |images|) ==>
        photoId == old(photoId) && curIndex == old(curIndex) && direction == old(direction)
      ensures old(InRange()) ==> InRange()
    {
      if ViewerShown() && photoId + 1 < |images| {
        ChangePhotoId(photoId + 1);
      }
    }

    /** The ArrowLeft key: moves to the previous photo only when the index is
        above 0 and the modal is shown; otherwise nothing changes. */
    method ArrowLeft()
      requires Valid()
      modifies this
      ensures Valid()
      ensures ViewerShown() == old(ViewerShown()) && lastViewed == old(lastViewed)
      ensures modalOpen == old(modalOpen) && selectedImageIndex == old(selectedImageIndex)
      ensures old(ViewerShown()) && old(photoId) > 0 ==>
        photoId == old(photoId) - 1 && curIndex == photoId && direction == -1
      ensures !(old(ViewerShown()) && old(photoId) > 0) ==>
        photoId == old(photoId) && curIndex == old(curIndex) && direction == old(direction)
      ensures old(InRange()) ==> InRange()
    {
      if ViewerShown() && photoId > 0 {
        ChangePhotoId(photoId - 1);
      }
    }

    /** Modal's `handleClose()` (dialog close or backdrop click): it calls the
        `onClose` that Gallery passes, its `closeModal`, and leaves the
        last-viewed slot alone. */
    method ModalHandleClose()
      requires Valid()
      modifies this
      ensures Valid() && !modalOpen && !ViewerShown()
      ensures selectedImageIndex == old(selectedImageIndex) && lastViewed == old(lastViewed)
      ensures photoId == old(photoId) && curIndex == old(curIndex) && direction == old(direction)
    {
      CloseModal();
    }

    // -------------------------------------------------------------------------
    // Carousel
    // -------------------------------------------------------------------------

    /** Carousel's `closeModal()`: records `currentPhoto` as last viewed (the
        route change back to the grid is left out). */
    method CarouselCloseModal(currentPhoto: ImageProps)
      requires Valid()
      modifies this
      ensures Valid() && lastViewed == Some(currentPhoto.id)
      ensures modalOpen == old(modalOpen) && selectedImageIndex == old(selectedImageIndex)
      ensures photoId == old(photoId) && curIndex == old(curIndex) && direction == old(direction)
    {
      lastViewed := Some(currentPhoto.id);
    }

    /** The Escape key on a Carousel: its `closeModal()`. */
    method CarouselEscape(currentPhoto: ImageProps)
      requires Valid()
      modifies this
      ensures Valid() && lastViewed == Some(currentPhoto.id)
      ensures modalOpen == old(modalOpen) && selectedImageIndex == old(selectedImageIndex)
      ensures photoId == old(photoId) && curIndex == old(curIndex) && direction == old(direction)
    {
      CarouselCloseModal(currentPhoto);
    }

    /** A click on the Carousel's backdrop button: its `closeModal()`. */
    method CarouselBackdropClick(currentPhoto: ImageProps)
      requires Valid()
      modifies this
      ensures Valid() && lastViewed == Some(currentPhoto.id)
      ensures modalOpen == old(modalOpen) && selectedImageIndex == old(selectedImageIndex)
      ensures photoId == old(photoId) && curIndex == old(curIndex) && direction == old(direction)
    {
      CarouselCloseModal(currentPhoto);
    }

    /** Carousel's `changePhotoId(newVal)` hands the value back and touches no state. */
    method CarouselChangePhotoId(newVal: int) returns (r: int)
      ensures r == newVal
    {
      r := newVal;
    }
  }

  /** A walk through a five-image grid: opening the grid at image 2 shows
      photo 0, two ArrowRight presses reach index 2 moving forward, the walk
      stops at the last photo, and closing the modal leaves the last-viewed slot
      as it was. */
  method FiveImageWalk(images: seq<ImageProps>) returns (v: Viewer)
    requires |images| == 5
    ensures v.images == images && !v.modalOpen && !v.ViewerShown()
    ensures v.selectedImageIndex == 2 && v.curIndex == 3 && v.photoId == 3 && v.direction == -1
    ensures v.lastViewed == None
  {
    v := new Viewer(images, None);
    v.ClickImage(2);
    assert v.ViewerShown() && v.curIndex == 0 && v.selectedImageIndex == 2;
    v.ArrowRight();
    v.ArrowRight();
    assert v.curIndex == 2 && v.direction == 1;
    v.ArrowRight();
    v.ArrowRight();
    v.ArrowRight();
    assert v.curIndex == 4;
    v.ArrowLeft();
    assert v.curIndex == 3 && v.direction == -1;
    v.ModalHandleClose();
    assert v.lastViewed == None && !v.ViewerShown();
    v.ClickImage(9);
    assert !v.modalOpen;
  }

  /** With an empty list nothing can be opened, and the scroll effect finds
      nothing to bring into view. */
  method EmptyGallery(i: int) returns (v: Viewer)
    ensures v.images == [] && !v.modalOpen && !v.ViewerShown()
    ensures v.lastViewed == Some(3) && v.ScrollTarget() == None
  {
    v := new Viewer([], Some(3));
    v.ClickImage(i);
    assert !v.ViewerShown() && !v.modalOpen;
    assert v.ScrollTarget() == None;
  }
}
