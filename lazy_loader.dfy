/**
 * `LazyLoader` (script.js): images whose real source waits in a `data-src`
 * attribute until they come into view.
 */
module Lazy {
  import opened Wrappers

  /**
   * An `<img>`: its `src`, its `data-src` attribute (`None` once removed)
   * and whether it has class `loaded`.
   */
  datatype Image = Image(src: string, dataSrc: Option<string>, loaded: bool)

  /** The image still has a non-empty deferred source to load. */
  predicate Pending(img: Image)
  {
    img.dataSrc.Some? && img.dataSrc.value != ""
  }

  /**
   * `loadImage`: a pending image takes its deferred source, loses the
   * `data-src` attribute and is marked loaded; any other image is left alone.
   */
  function LoadImage(img: Image): (r: Image)
    ensures Pending(img) ==> r.src == img.dataSrc.value && r.dataSrc == None && r.loaded
    ensures !Pending(img) ==> r == img
    ensures !Pending(r)
  {
    match img.dataSrc
    case Some(s) =>
      if s != "" then Image(s, None, true) else img
    case None => img
  }

  /** Loading an image a second time does nothing. */
  lemma LoadImageOnce(img: Image)
    ensures LoadImage(LoadImage(img)) == LoadImage(img)
  {
  }

  /** `loadImage` applied to every image. */
  function LoadAll(imgs: seq<Image>): (r: seq<Image>)
    ensures |r| == |imgs|
    ensures forall i :: 0 <= i < |imgs| ==> r[i] == LoadImage(imgs[i])
  {
    seq(|imgs|, i requires 0 <= i < |imgs| => LoadImage(imgs[i]))
  }

  /** After `loadAllImages` nothing is pending, so running it again changes nothing. */
  lemma LoadAllOnce(imgs: seq<Image>)
    ensures forall i :: 0 <= i < |imgs| ==> !Pending(LoadAll(imgs)[i])
    ensures LoadAll(LoadAll(imgs)) == LoadAll(imgs)
  {
  }

  /** The indices of `n` images. */
  function Indices(n: nat): (r: set<nat>)
    ensures forall i: nat :: i in r <==> i < n
  {
    if n == 0 then {} else Indices(n - 1) + {n - 1}
  }

  class LazyLoader {
    /** The page's `img[data-src]` elements. */
    const images: array<Image>
    /** The images the intersection observer still watches. */
    var observing: set<nat>

    ghost predicate Valid()
      reads this
    {
      forall i :: i in observing ==> i < images.Length
    }

    /**
     * With an intersection observer every image is watched; without one,
     * every image is loaded at once.
     */
    constructor (imgs: seq<Image>, observerAvailable: bool)
      ensures Valid() && fresh(images)
      ensures observerAvailable ==> images[..] == imgs && observing == Indices(|imgs|)
      ensures !observerAvailable ==> images[..] == LoadAll(imgs) && observing == {}
    {
      images := new Image[|imgs|](i requires 0 <= i < |imgs| => imgs[i]);
      observing := if observerAvailable then Indices(|imgs|) else {};
      new;
      if !observerAvailable {
        LoadAllImages();
      }
    }

    /** `loadImage` on image `i`. */
    method LoadImageAt(i: nat)
      requires i < images.Length
      modifies images
      ensures images[..] == old(images[..])[i := LoadImage(old(images[i]))]
    {
      var img := images[i];
      match img.dataSrc {
        case Some(s) =>
          if s != "" {
            images[i] := Image(s, None, true);
          }
        case None =>
      }
    }

    /** `loadAllImages`. */
    method LoadAllImages()
      modifies images
      ensures images[..] == LoadAll(old(images[..]))
    {
      var j := 0;
      while j < images.Length
        invariant 0 <= j <= images.Length
        invariant forall m :: 0 <= m < images.Length ==>
                    images[m] == (if m < j then LoadImage(old(images[m])) else old(images[m]))
      {
        LoadImageAt(j);
        j := j + 1;
      }
    }

    /**
     * The observer reports image `i` intersecting the viewport: a watched
     * image is loaded and no longer watched; otherwise nothing happens.
     */
    method OnIntersect(i: nat)
      requires Valid() && i < images.Length
      modifies this`observing, images
      ensures Valid()
      ensures i in old(observing) ==>
                images[..] == old(images[..])[i := LoadImage(old(images[i]))] && observing == old(observing) - {i}
      ensures i !in old(observing) ==> images[..] == old(images[..]) && observing == old(observing)
    {
      if i in observing {
        LoadImageAt(i);
        observing := observing - {i};
      }
    }
  }
}
