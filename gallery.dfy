/**
 * The photo gallery page of js/gallery.js: the caption and caption id each
 * gallery item gets, the list populateGallery builds, and the lightbox with
 * its keyboard navigation.
 *
 * DOM elements become values: a gallery item records what createGalleryItem
 * puts into it, a button what openLightbox reads from it. The lightbox is a
 * class, because openLightbox and closeLightbox change its attributes and the
 * script's `lastTrigger` in place.
 */
module Gallery {
  import opened Wrappers
  import opened GithubGallery

  /** The text between the title and the display date. */
  const CaptionSeparator: string := " — "

  /** JavaScript truthiness of a string that may be null: present and non-empty. */
  predicate Truthy(s: Option<string>)
  {
    s.Some? && s.value != ""
  }

  /**
   * The data-caption of an item: it starts with the title, and it is longer
   * than the title exactly when the display date is truthy, in which case
   * the separator and the display date follow.
   */
  function Caption(photo: Photo): (c: string)
    ensures |c| >= |photo.title| && c[..|photo.title|] == photo.title
    ensures |c| > |photo.title| <==> Truthy(photo.dateDisplay)
    ensures Truthy(photo.dateDisplay) ==> c[|photo.title|..] == CaptionSeparator + photo.dateDisplay.value
  {
    var caption := photo.title;
    if Truthy(photo.dateDisplay) then caption + CaptionSeparator + photo.dateDisplay.value else caption
  }

  // ---------------------------------------------------------------------------
  // Caption ids

  function DigitChar(d: nat): char
    requires d < 10
  {
    ('0' as int + d) as char
  }

  /** The decimal numeral of n, as a template literal writes it: no leading zero except for 0 itself. */
  function Decimal(n: nat): (s: string)
    ensures |s| >= 1 && forall i :: 0 <= i < |s| ==> '0' <= s[i] <= '9'
    ensures n >= 1 ==> s[0] != '0'
    ensures n == 0 ==> s == "0"
  {
    if n < 10 then [DigitChar(n)] else Decimal(n / 10) + [DigitChar(n % 10)]
  }

  /** The value of a string of decimal digits. */
  function DecimalValue(s: string): nat
    requires forall i :: 0 <= i < |s| ==> '0' <= s[i] <= '9'
  {
    if |s| == 0 then 0 else DecimalValue(s[..|s| - 1]) * 10 + (s[|s| - 1] as int - '0' as int)
  }

  /** Reading a numeral back gives the number. */
  lemma {:induction false} DecimalRoundTrip(n: nat)
    ensures DecimalValue(Decimal(n)) == n
  {
    if n >= 10 {
      DecimalRoundTrip(n / 10);
      var s := Decimal(n);
      assert s[..|s| - 1] == Decimal(n / 10);
    }
  }

  /** `cap-${index + 1}`: the id of the item's figcaption, which its button points to. */
  function CaptionId(index: nat): (id: string)
    ensures |id| > 4 && id[..4] == "cap-"
    ensures id[4..] == Decimal(index + 1)
  {
    "cap-" + Decimal(index + 1)
  }

  /** Different items get different caption ids. */
  lemma CaptionIdInjective(i: nat, j: nat)
    requires i != j
    ensures CaptionId(i) != CaptionId(j)
  {
    DecimalInjective(i + 1, j + 1);
  }

  /** Different numbers have different numerals. */
  lemma DecimalInjective(m: nat, n: nat)
    requires m != n
    ensures Decimal(m) != Decimal(n)
  {
    DecimalRoundTrip(m);
    DecimalRoundTrip(n);
  }

  // ---------------------------------------------------------------------------
  // Gallery items

  /** A `<time>` element: its datetime attribute and its text. */
  datatype TimeElement = TimeElement(dateTime: string, text: string)

  /** What createGalleryItem puts into a list item. */
  datatype GalleryItem = GalleryItem(
    full: string,          // the button's data-full
    caption: string,       // the button's data-caption
    describedBy: string,   // the button's aria-describedby
    captionId: string,     // the figcaption's id
    heading: string,       // the figcaption's <strong> text
    time: Option<TimeElement>)

  /**
   * createGalleryItem: the button is described by the figcaption's id, the
   * item's caption id, and a `<time>` follows the title exactly when both
   * the date and the display date are truthy.
   */
  function CreateGalleryItem(photo: Photo, index: nat): (item: GalleryItem)
    ensures item.describedBy == item.captionId == CaptionId(index)
    ensures item.full == photo.fullImage && item.caption == Caption(photo) && item.heading == photo.title
    ensures item.time.Some? <==> Truthy(photo.date) && Truthy(photo.dateDisplay)
    ensures item.time.Some? ==> item.time.value == TimeElement(photo.date.value, photo.dateDisplay.value)
  {
    var capId := CaptionId(index);
    var time := if Truthy(photo.date) && Truthy(photo.dateDisplay)
      then Some(TimeElement(photo.date.value, photo.dateDisplay.value)) else None;
    GalleryItem(photo.fullImage, Caption(photo), capId, capId, photo.title, time)
  }

  /** The `.gallery` list. */
  class GalleryView {
    var items: seq<GalleryItem>

    constructor ()
      ensures items == []
    {
      items := [];
    }

    /**
     * populateGallery: the old items are dropped and there is one item per
     * photo, in the photos' order, each with its own caption id.
     */
    method PopulateGallery(photos: seq<Photo>)
      modifies this
      ensures |items| == |photos|
      ensures forall i :: 0 <= i < |photos| ==> items[i] == CreateGalleryItem(photos[i], i)
      ensures forall i, j :: 0 <= i < j < |items| ==> items[i].captionId != items[j].captionId
    {
      items := [];
      var index := 0;
      while index < |photos|
        invariant 0 <= index <= |photos| && |items| == index
        invariant forall i :: 0 <= i < index ==> items[i] == CreateGalleryItem(photos[i], i)
      {
        items := items + [CreateGalleryItem(photos[index], index)];
        index := index + 1;
      }
      forall i, j | 0 <= i < j < |items|
        ensures items[i].captionId != items[j].captionId
      {
        CaptionIdInjective(i, j);
      }
    }
  }

  // ---------------------------------------------------------------------------
  // Lightbox navigation

  /** The quotient of JavaScript's division of a by n, truncated toward zero. */
  function TruncatedQuotient(a: int, n: nat): int
    requires n > 0
  {
    if a >= 0 then a / n else -((-a) / n)
  }

  /**
   * JavaScript's `%` on a positive divisor: what is left of the dividend
   * after taking away n times the truncated quotient, so it lies strictly
   * between -n and n and takes the sign of the dividend.
   */
  function JsRemainder(a: int, n: nat): (r: int)
    requires n > 0
    ensures a == n * TruncatedQuotient(a, n) + r
    ensures a >= 0 ==> 0 <= r < n
    ensures a < 0 ==> -(n as int) < r <= 0
  {
    if a >= 0 then a % n else -((-a) % n)
  }

  /** From -n up to 2n, the remainder is the dividend shifted by at most one n. */
  lemma RemainderNearRange(a: int, n: nat)
    requires n > 0 && -(n as int) <= a < 2 * n
    ensures JsRemainder(a, n) == if a == -(n as int) then 0 else if a < n then a else a - n
  {
    if a >= n {
      RemainderIs(a, n, 1, a - n);
    } else if a >= 0 {
      RemainderIs(a, n, 0, a);
    } else if a == -(n as int) {
      RemainderIs(-a, n, 1, 0);
    } else {
      RemainderIs(-a, n, 0, -a);
    }
  }

  /** Euclidean division is unique: a quotient and remainder in range are the ones `%` gives. */
  lemma RemainderIs(a: int, n: nat, q: int, r: int)
    requires n > 0 && 0 <= r < n && a == n * q + r
    ensures a % n == r
  {
    var d := q - a / n;
    assert n * d == a % n - r;
    if d > 0 {
      MultipleAtLeast(n, d);
    } else if d < 0 {
      MultipleAtLeast(n, -d);
    }
  }

  /** A positive multiple of n is at least n. */
  lemma {:induction false} MultipleAtLeast(n: nat, d: int)
    requires d >= 1
    ensures n * d >= n
  {
    if d > 1 {
      MultipleAtLeast(n, d - 1);
      assert n * d == n * (d - 1) + n;
    }
  }

  /**
   * ArrowRight: `(currentIndex + 1) % buttons.length`. From a button it is
   * the next one, wrapping to the first; from -1 (no current button) it is 0.
   */
  function NextIndex(current: int, n: nat): (next: int)
    requires n > 0 && -1 <= current < n
    ensures 0 <= next < n
    ensures current < n - 1 ==> next == current + 1
    ensures current == n - 1 ==> next == 0
  {
    RemainderNearRange(current + 1, n);
    JsRemainder(current + 1, n)
  }

  /**
   * ArrowLeft: `(currentIndex - 1 + buttons.length) % buttons.length`. From
   * a button it is the previous one, wrapping to the last; from -1 (no
   * current button) it is the second to last, or 0 for a single button.
   */
  function PrevIndex(current: int, n: nat): (prev: int)
    requires n > 0 && -1 <= current < n
    ensures 0 <= prev < n
    ensures 0 < current ==> prev == current - 1
    ensures current == 0 ==> prev == n - 1
    ensures current == -1 ==> prev == (if n == 1 then 0 else n - 2)
  {
    RemainderNearRange(current - 1 + n, n);
    JsRemainder(current - 1 + n, n)
  }

  /** ArrowLeft then ArrowRight, or the reverse, comes back to the same button. */
  lemma ArrowsAreInverse(current: int, n: nat)
    requires n > 0 && 0 <= current < n
    ensures NextIndex(PrevIndex(current, n), n) == current
    ensures PrevIndex(NextIndex(current, n), n) == current
  {
  }

  /** A gallery button, as openLightbox reads it: data-full, data-caption and its image's alt. */
  datatype Button = Button(id: nat, full: string, caption: Option<string>, imageAlt: Option<string>)

  /** `buttons.indexOf(lastTrigger)`: the first position holding it, or -1. */
  function IndexOf(buttons: seq<Button>, trigger: Option<Button>): (i: int)
    ensures -1 <= i < |buttons|
    ensures i >= 0 ==> trigger.Some? && buttons[i] == trigger.value
    ensures i >= 0 ==> forall j :: 0 <= j < i ==> buttons[j] != trigger.value
    ensures i == -1 ==> trigger.None? || trigger.value !in buttons
  {
    if trigger.None? || |buttons| == 0 then -1
    else if buttons[0] == trigger.value then 0
    else
      var i := IndexOf(buttons[1..], trigger);
      if i == -1 then -1 else i + 1
  }

  /** The distinct buttons of a gallery: no button occurs twice. */
  predicate Distinct(buttons: seq<Button>)
  {
    forall i, j :: 0 <= i < j < |buttons| ==> buttons[i] != buttons[j]
  }

  /** Among distinct buttons, indexOf finds each button at its own position. */
  lemma IndexOfPosition(buttons: seq<Button>, k: nat)
    requires Distinct(buttons) && k < |buttons|
    ensures IndexOf(buttons, Some(buttons[k])) == k
  {
  }

  /** The caption text shown when the lightbox image fails to load. */
  const ImageFailedNotice := "Image failed to load."

  /** `value || ''`. */
  function OrEmpty(s: Option<string>): string
  {
    if s.Some? then s.value else ""
  }

  /** The lightbox overlay: its aria-hidden state, image, caption text, and the script's `lastTrigger`. */
  class Lightbox {
    var hidden: bool
    var imageSrc: string
    var imageAlt: string
    var meta: string
    var lastTrigger: Option<Button>

    /** While the lightbox is shown, a button opened it. */
    ghost predicate Valid()
      reads this
    {
      !hidden ==> lastTrigger.Some?
    }

    /** The page starts with the lightbox hidden and empty. */
    constructor ()
      ensures Valid() && hidden && lastTrigger.None?
      ensures imageSrc == "" && imageAlt == "" && meta == ""
    {
      hidden := true;
      imageSrc := "";
      imageAlt := "";
      meta := "";
      lastTrigger := None;
    }

    /** openLightbox: remember the trigger, show its image and caption, show the lightbox. */
    method OpenLightbox(trigger: Button)
      modifies this
      ensures Valid() && !hidden && lastTrigger == Some(trigger)
      ensures imageSrc == trigger.full && imageAlt == OrEmpty(trigger.imageAlt) && meta == OrEmpty(trigger.caption)
    {
      var src := trigger.full;
      var caption := OrEmpty(trigger.caption);
      lastTrigger := Some(trigger);
      imageSrc := src;
      imageAlt := OrEmpty(trigger.imageAlt);
      meta := caption;
      hidden := false;
    }

    /** closeLightbox: hide it, empty the image and the caption, forget the trigger. */
    method CloseLightbox()
      modifies this
      ensures Valid() && hidden && lastTrigger.None?
      ensures imageSrc == "" && meta == "" && imageAlt == old(imageAlt)
    {
      hidden := true;
      imageSrc := "";
      meta := "";
      lastTrigger := None;
    }

    /**
     * The document keydown handler. While hidden nothing happens; Escape
     * closes; the arrows open the previous or next button, wrapping around.
     * With no buttons the arrow handler throws before changing anything.
     */
    method KeyDown(key: string, buttons: seq<Button>)
      requires Valid()
      modifies this
      ensures Valid()
      ensures old(hidden) ==>
        (hidden && lastTrigger == old(lastTrigger) && imageSrc == old(imageSrc) && imageAlt == old(imageAlt) && meta == old(meta))
      ensures !old(hidden) && key == "Escape" ==>
        (hidden && lastTrigger.None? && imageSrc == "" && meta == "" && imageAlt == old(imageAlt))
      ensures !old(hidden) && (key == "ArrowLeft" || key == "ArrowRight") && |buttons| > 0 ==>
        var current := IndexOf(buttons, old(lastTrigger));
        var next := if key == "ArrowLeft" then PrevIndex(current, |buttons|) else NextIndex(current, |buttons|);
        !hidden && lastTrigger == Some(buttons[next]) && imageSrc == buttons[next].full
        && imageAlt == OrEmpty(buttons[next].imageAlt) && meta == OrEmpty(buttons[next].caption)
      ensures !old(hidden) && (key == "ArrowLeft" || key == "ArrowRight") && |buttons| == 0 ==>
        !hidden && lastTrigger == old(lastTrigger) && imageSrc == old(imageSrc) && imageAlt == old(imageAlt) && meta == old(meta)
      ensures !old(hidden) && key != "Escape" && key != "ArrowLeft" && key != "ArrowRight" ==>
        (!hidden && lastTrigger == old(lastTrigger) && imageSrc == old(imageSrc) && imageAlt == old(imageAlt) && meta == old(meta))
    {
      if hidden {
        return;
      }
      if key == "Escape" {
        CloseLightbox();
      }
      if key == "ArrowLeft" || key == "ArrowRight" {
        if |buttons| == 0 {
          return;
        }
        var currentIndex := IndexOf(buttons, lastTrigger);
        var nextIndex := if key == "ArrowLeft" then PrevIndex(currentIndex, |buttons|) else NextIndex(currentIndex, |buttons|);
        OpenLightbox(buttons[nextIndex]);
      }
    }

    /**
     * The gallery's click handler and its Enter/Space keydown handler: an
     * event inside a gallery button opens the lightbox on that button;
     * anything else leaves everything as it was.
     */
    method ActivateButton(key: Option<string>, target: Option<Button>)
      modifies this
      ensures target.Some? && (key.None? || key == Some("Enter") || key == Some(" ")) ==>
        Valid() && !hidden && lastTrigger == target && imageSrc == target.value.full
        && imageAlt == OrEmpty(target.value.imageAlt) && meta == OrEmpty(target.value.caption)
      ensures !(target.Some? && (key.None? || key == Some("Enter") || key == Some(" "))) ==>
        (hidden == old(hidden) && lastTrigger == old(lastTrigger) && imageSrc == old(imageSrc)
        && imageAlt == old(imageAlt) && meta == old(meta))
    {
      if target.None? {
        return;
      }
      if key.None? || key == Some("Enter") || key == Some(" ") {
        OpenLightbox(target.value);
      }
    }

    /** A click on the overlay itself, not on its content, closes the lightbox. */
    method OverlayClick(onOverlay: bool)
      modifies this
      ensures onOverlay ==>
        (Valid() && hidden && lastTrigger.None? && imageSrc == "" && meta == "" && imageAlt == old(imageAlt))
      ensures !onOverlay ==>
        (hidden == old(hidden) && lastTrigger == old(lastTrigger) && imageSrc == old(imageSrc)
        && imageAlt == old(imageAlt) && meta == old(meta))
    {
      if onOverlay {
        CloseLightbox();
      }
    }

    /** The image's error handler replaces the caption text with a notice. */
    method ImageFailed()
      modifies this
      ensures meta == ImageFailedNotice
      ensures hidden == old(hidden) && lastTrigger == old(lastTrigger) && imageSrc == old(imageSrc) && imageAlt == old(imageAlt)
    {
      meta := ImageFailedNotice;
    }
  }
}
