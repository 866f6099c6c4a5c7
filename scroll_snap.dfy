/**
 * The scroll-snap controller of js/scrollSnap.js.
 *
 * The script keeps module state (the cached section list, the active section,
 * a scroll lock and the record of the animation in flight) and mutates it from
 * the scroll and resize handlers and from the animation frames it schedules.
 * That state is the class SnapController below. Everything the script reads
 * from the browser (bounding rectangles, the page offset, the viewport height)
 * is a parameter; what it writes to the browser (window.scrollTo and the body's
 * colour class) is a field.
 */
module ScrollSnap {
  import opened Wrappers

  /** An element matched by `.snappable`; `hasHeader` says whether it contains a `header`. */
  datatype Element = Element(id: nat, hasHeader: bool)

  /**
   * One entry of the cached section list. It is a class because the script
   * compares sections by identity (`===`) and builds new objects on every
   * cacheSections; `index` is the element's position among all snappable
   * elements.
   */
  class Section {
    const element: Element
    const index: nat

    constructor (element: Element, index: nat)
      ensures this.element == element && this.index == index
    {
      this.element := element;
      this.index := index;
    }
  }

  /** What a section entry records, as a value. */
  datatype SectionEntry = SectionEntry(element: Element, index: nat)

  /** The `scrollAction` record of an animation in flight. */
  datatype ScrollAction = ScrollAction(currentY: real, targetY: real, target: Section)

  /** The easing factor of easedScroll. */
  const EasingFactor: real := 0.15

  /** How far below the current offset a section's top may lie and still be active at start-up. */
  const InitMargin: real := 100.0

  /** The body classes animateSection cycles through. */
  const ColorClasses: seq<string> := ["blue", "yellow", "green", "bluegreen"]

  function Abs(x: real): real
  {
    if x < 0.0 then -x else x
  }

  /** The pixels one animation frame covers when the target is at least 1px away. */
  function StepSize(absDiff: real): (s: real)
    requires absDiff >= 1.0
    ensures 1.0 <= s <= absDiff
    ensures s >= absDiff * EasingFactor
  {
    if absDiff * EasingFactor > 1.0 then absDiff * EasingFactor else 1.0
  }

  /** What one call of easedScroll does with the position: land on the target, or move toward it. */
  datatype Frame = Landed(y: real) | Moved(y: real)

  /**
   * One animation frame: under 1px from the target it lands exactly on it;
   * otherwise it moves toward the target without passing it, and the
   * distance left shrinks by at least 1px.
   */
  function NextFrame(currentY: real, targetY: real): (f: Frame)
    ensures f.Landed? <==> Abs(targetY - currentY) < 1.0
    ensures f.Landed? ==> f.y == targetY
    ensures f.Moved? ==> (currentY < f.y <= targetY) || (targetY <= f.y < currentY)
    ensures f.Moved? ==> Abs(targetY - f.y) <= Abs(targetY - currentY) - 1.0
  {
    var diff := targetY - currentY;
    var absDiff := Abs(diff);
    if absDiff < 1.0 then
      Landed(targetY)
    else
      var stepSize := StepSize(absDiff);
      Moved(currentY + (if diff > 0.0 then stepSize else -stepSize))
  }

  /** Far from the target a frame removes 15% of the distance; near it, exactly 1px. */
  lemma FrameRate(currentY: real, targetY: real)
    requires Abs(targetY - currentY) >= 1.0
    ensures NextFrame(currentY, targetY).Moved?
    ensures Abs(targetY - currentY) * EasingFactor >= 1.0 ==>
      Abs(targetY - NextFrame(currentY, targetY).y) == (1.0 - EasingFactor) * Abs(targetY - currentY)
    ensures Abs(targetY - currentY) * EasingFactor <= 1.0 ==>
      Abs(targetY - NextFrame(currentY, targetY).y) == Abs(targetY - currentY) - 1.0
  {
  }

  /**
   * The number of frames an animation from currentY to targetY runs,
   * counting the landing frame: at most one more than the whole pixels
   * between them, so every animation ends.
   */
  function FramesToLand(currentY: real, targetY: real): (n: nat)
    ensures 1 <= n <= Abs(targetY - currentY).Floor + 1
    decreases Abs(targetY - currentY).Floor
  {
    match NextFrame(currentY, targetY)
    case Landed(_) => 1
    case Moved(y) => 1 + FramesToLand(y, targetY)
  }

  /**
   * isHeaderInViewport: the header's viewport-relative top lies in the upper
   * half of the viewport, edges included; never when the top is above the
   * viewport or the viewport has negative height.
   */
  predicate InHeaderBand(headerTop: real, viewportHeight: real)
    ensures InHeaderBand(headerTop, viewportHeight) <==> 0.0 <= headerTop && 2.0 * headerTop <= viewportHeight
    ensures viewportHeight < 0.0 ==> !InHeaderBand(headerTop, viewportHeight)
  {
    headerTop >= 0.0 && headerTop <= viewportHeight * 0.5
  }

  /**
   * The section scrollHandler activates: the first, in list order, that is
   * not the active one and whose header top lies in the band; None when
   * there is none.
   */
  function FirstCandidate(sections: seq<Section>, active: Section?, headerTops: seq<real>, viewportHeight: real): (r: Option<nat>)
    requires |headerTops| == |sections|
    ensures r.Some? ==> r.value < |sections| && sections[r.value] != active && InHeaderBand(headerTops[r.value], viewportHeight)
    ensures r.Some? ==> forall j :: 0 <= j < r.value ==> sections[j] == active || !InHeaderBand(headerTops[j], viewportHeight)
    ensures r.None? ==> forall j :: 0 <= j < |sections| ==> sections[j] == active || !InHeaderBand(headerTops[j], viewportHeight)
  {
    if |sections| == 0 then None
    else if sections[0] != active && InHeaderBand(headerTops[0], viewportHeight) then Some(0)
    else
      match FirstCandidate(sections[1..], active, headerTops[1..], viewportHeight)
      case None => None
      case Some(k) => Some(k + 1)
  }

  /** FirstCandidate is the one position that qualifies with none qualifying before it. */
  lemma FirstCandidateIs(sections: seq<Section>, active: Section?, headerTops: seq<real>, viewportHeight: real, k: nat)
    requires |headerTops| == |sections|
    requires k < |sections| && sections[k] != active && InHeaderBand(headerTops[k], viewportHeight)
    requires forall j :: 0 <= j < k ==> sections[j] == active || !InHeaderBand(headerTops[j], viewportHeight)
    ensures FirstCandidate(sections, active, headerTops, viewportHeight) == Some(k)
  {
  }

  /** FirstCandidate is None when no position qualifies. */
  lemma FirstCandidateNone(sections: seq<Section>, active: Section?, headerTops: seq<real>, viewportHeight: real)
    requires |headerTops| == |sections|
    requires forall j :: 0 <= j < |sections| ==> sections[j] == active || !InHeaderBand(headerTops[j], viewportHeight)
    ensures FirstCandidate(sections, active, headerTops, viewportHeight) == None
  {
  }

  /**
   * The section init activates: the last one, in list order, whose document
   * top is at most 100px below the current offset; None when there is none.
   */
  function LastReached(tops: seq<real>, scrollY: real): (r: Option<nat>)
    ensures r.Some? ==> r.value < |tops| && scrollY >= tops[r.value] - InitMargin
    ensures r.Some? ==> forall j :: r.value < j < |tops| ==> scrollY < tops[j] - InitMargin
    ensures r.None? ==> forall j :: 0 <= j < |tops| ==> scrollY < tops[j] - InitMargin
  {
    if |tops| == 0 then None
    else if scrollY >= tops[|tops| - 1] - InitMargin then Some(|tops| - 1)
    else LastReached(tops[..|tops| - 1], scrollY)
  }

  /** LastReached is the one position that is reached with nothing reached after it. */
  lemma LastReachedIs(tops: seq<real>, scrollY: real, k: nat)
    requires k < |tops| && scrollY >= tops[k] - InitMargin
    requires forall j :: k < j < |tops| ==> scrollY < tops[j] - InitMargin
    ensures LastReached(tops, scrollY) == Some(k)
  {
  }

  /** LastReached is None when no position is reached. */
  lemma LastReachedNone(tops: seq<real>, scrollY: real)
    requires forall j :: 0 <= j < |tops| ==> scrollY < tops[j] - InitMargin
    ensures LastReached(tops, scrollY) == None
  {
  }

  /**
   * The entries cacheSections builds: the elements that have a header, in
   * document order, each with its position among all snappable elements.
   */
  function SnappableEntries(elements: seq<Element>): (r: seq<SectionEntry>)
    ensures |r| <= |elements|
    ensures forall j :: 0 <= j < |r| ==> r[j].index < |elements| && elements[r[j].index] == r[j].element && r[j].element.hasHeader
    ensures forall j, k :: 0 <= j < k < |r| ==> r[j].index < r[k].index
    ensures forall i :: 0 <= i < |elements| && elements[i].hasHeader ==> SectionEntry(elements[i], i) in r
  {
    if |elements| == 0 then []
    else
      var last := |elements| - 1;
      var front := SnappableEntries(elements[..last]);
      var r := if elements[last].hasHeader then front + [SectionEntry(elements[last], last)] else front;
      assert forall i :: 0 <= i < last && elements[i].hasHeader ==> elements[..last][i].hasHeader;
      assert forall j :: 0 <= j < |front| ==> r[j] == front[j];
      r
  }

  /** Appending a section appends its entry. */
  lemma EntriesAppend(sections: seq<Section>, section: Section)
    ensures Entries(sections + [section]) == Entries(sections) + [SectionEntry(section.element, section.index)]
  {
  }

  /** Extending the elements by one adds an entry exactly when the new one has a header. */
  lemma SnappableEntriesExtend(elements: seq<Element>, i: nat)
    requires i < |elements|
    ensures SnappableEntries(elements[..i + 1]) ==
      SnappableEntries(elements[..i]) + (if elements[i].hasHeader then [SectionEntry(elements[i], i)] else [])
  {
    assert elements[..i + 1][..i] == elements[..i];
  }

  /** The section list built so far holds the snappable entries of the first i elements. */
  ghost predicate BuiltFrom(built: seq<Section>, elements: seq<Element>, i: nat)
    requires i <= |elements|
  {
    Entries(built) == SnappableEntries(elements[..i])
  }

  /** Looking at element i adds one section for it exactly when it has a header. */
  lemma BuiltFromStep(built: seq<Section>, elements: seq<Element>, i: nat, added: seq<Section>)
    requires i < |elements| && BuiltFrom(built, elements, i)
    requires added == [] <==> !elements[i].hasHeader
    requires |added| <= 1
    requires elements[i].hasHeader ==> added[0].element == elements[i] && added[0].index == i
    ensures BuiltFrom(built + added, elements, i + 1)
  {
    SnappableEntriesExtend(elements, i);
    if added == [] {
      assert built + added == built;
    } else {
      assert added == [added[0]];
      EntriesAppend(built, added[0]);
    }
  }

  /** One new section object per snappable element, in document order. */
  method NewSections(elements: seq<Element>) returns (built: seq<Section>)
    ensures Entries(built) == SnappableEntries(elements)
    ensures forall s :: s in built ==> fresh(s)
  {
    built := [];
    var i := 0;
    while i < |elements|
      invariant 0 <= i <= |elements|
      invariant BuiltFrom(built, elements, i)
      invariant forall s :: s in built ==> fresh(s)
    {
      var element := elements[i];
      if element.hasHeader {
        var section := new Section(element, i);
        BuiltFromStep(built, elements, i, [section]);
        built := built + [section];
      } else {
        BuiltFromStep(built, elements, i, []);
      }
      i := i + 1;
    }
    assert elements[..i] == elements;
  }

  /** The value view of a section list. */
  function Entries(sections: seq<Section>): (r: seq<SectionEntry>)
    ensures |r| == |sections|
    ensures forall j :: 0 <= j < |r| ==> r[j] == SectionEntry(sections[j].element, sections[j].index)
  {
    seq(|sections|, j requires 0 <= j < |sections| => SectionEntry(sections[j].element, sections[j].index))
  }

  /** The document tops of the given entries, read from per-element tops. */
  function EntryTops(entries: seq<SectionEntry>, docTops: seq<real>): (r: seq<real>)
    requires forall j :: 0 <= j < |entries| ==> entries[j].index < |docTops|
    ensures |r| == |entries|
    ensures forall j :: 0 <= j < |r| ==> r[j] == docTops[entries[j].index]
  {
    seq(|entries|, j requires 0 <= j < |entries| => docTops[entries[j].index])
  }

  /** The colour classes as a set. */
  function ColorSet(): set<string>
  {
    set c | c in ColorClasses
  }

  /**
   * The body classes after animateSection: every colour class removed, then
   * the one for the section's index (modulo four) added when there is a
   * section; other classes are kept, and at most one colour class remains.
   */
  function Recolor(classes: set<string>, sectionIndex: Option<nat>): (r: set<string>)
    ensures forall c :: c !in ColorSet() ==> (c in r <==> c in classes)
    ensures sectionIndex.None? ==> r * ColorSet() == {}
    ensures sectionIndex.Some? ==> r * ColorSet() == {ColorClasses[sectionIndex.value % |ColorClasses|]}
    ensures |r * ColorSet()| <= 1
  {
    var cleared := classes - ColorSet();
    if sectionIndex.Some? then cleared + {ColorClasses[sectionIndex.value % |ColorClasses|]} else cleared
  }

  /** The module state of the script: `obj`, `scrollAction`, and what it last wrote to the page. */
  class SnapController {
    /** obj.sections */
    var sections: seq<Section>
    /** obj.activeSection */
    var active: Section?
    /** obj.scrollLock */
    var scrollLock: bool
    /** scrollAction: None when it is the empty object */
    var action: Option<ScrollAction>
    /** The offset last passed to window.scrollTo (the offset read at start-up before any). */
    var windowY: real
    /** The classes on the body element. */
    var bodyClasses: set<string>

    /** The lock is held exactly while an animation record exists. */
    ghost predicate Valid()
      reads this
    {
      scrollLock <==> action.Some?
    }

    /**
     * The script's start-up: empty state, then init(). `docTops` holds the
     * document top (rect.top + scrollTop) of every snappable element.
     */
    constructor Init(elements: seq<Element>, scrollY: real, docTops: seq<real>, classes: set<string>)
      requires |docTops| == |elements|
      ensures Valid() && !scrollLock && action.None? && windowY == scrollY
      ensures Entries(sections) == SnappableEntries(elements)
      ensures forall s :: s in sections ==> fresh(s)
      ensures match LastReached(EntryTops(SnappableEntries(elements), docTops), scrollY)
        case None => active == null && bodyClasses == classes
        case Some(k) => active == sections[k] && bodyClasses == Recolor(classes, Some(sections[k].index))
    {
      sections := [];
      active := null;
      scrollLock := false;
      action := None;
      windowY := scrollY;
      bodyClasses := classes;
      new;
      CacheSections(elements);
      ghost var entries := SnappableEntries(elements);
      assert forall j :: 0 <= j < |sections| ==> Entries(sections)[j] == entries[j];
      assert forall j :: 0 <= j < |sections| ==> sections[j].index == entries[j].index < |docTops|;
      var cached := sections;
      var tops := seq(|cached|, j requires 0 <= j < |cached| => docTops[cached[j].index]);
      assert tops == EntryTops(entries, docTops);
      ActivateInitial(tops, scrollY);
    }

    /**
     * The scan of init(): from the last section upward, activate and recolour
     * for the first whose document top (`tops`, in list order) is at most
     * 100px below the offset, that is for the LastReached section; with none
     * nothing changes.
     */
    method ActivateInitial(tops: seq<real>, scrollY: real)
      requires |tops| == |sections|
      modifies this
      ensures sections == old(sections) && scrollLock == old(scrollLock) && action == old(action)
      ensures windowY == old(windowY)
      ensures match LastReached(tops, scrollY)
        case None => active == old(active) && bodyClasses == old(bodyClasses)
        case Some(k) => active == sections[k] && bodyClasses == Recolor(old(bodyClasses), Some(sections[k].index))
    {
      var i := |sections| - 1;
      while i >= 0
        invariant -1 <= i < |sections|
        invariant active == old(active) && bodyClasses == old(bodyClasses)
        invariant sections == old(sections) && scrollLock == old(scrollLock) && action == old(action)
        invariant windowY == old(windowY)
        invariant forall j :: i < j < |sections| ==> scrollY < tops[j] - InitMargin
      {
        if scrollY >= tops[i] - InitMargin {
          LastReachedIs(tops, scrollY, i);
          active := sections[i];
          AnimateSection(active);
          return;
        }
        i := i - 1;
      }
      LastReachedNone(tops, scrollY);
    }

    /** cacheSections: rebuild the section list wholesale from the snappable elements. */
    method CacheSections(elements: seq<Element>)
      modifies this
      ensures Entries(sections) == SnappableEntries(elements)
      ensures forall s :: s in sections ==> fresh(s)
      ensures active == old(active) && scrollLock == old(scrollLock) && action == old(action)
      ensures windowY == old(windowY) && bodyClasses == old(bodyClasses)
    {
      sections := NewSections(elements);
    }

    /**
     * window.scrollSnapRecalculate: only the section list is rebuilt. The
     * active section keeps pointing at its old object, which is in no new
     * list, so the next scroll event may select that section again.
     */
    method Recalculate(elements: seq<Element>)
      requires Valid()
      modifies this
      ensures Valid()
      ensures Entries(sections) == SnappableEntries(elements)
      ensures active == old(active) && scrollLock == old(scrollLock) && action == old(action)
      ensures windowY == old(windowY) && bodyClasses == old(bodyClasses)
      ensures active != null ==> active !in sections
    {
      CacheSections(elements);
    }

    /** resizeHandler: the same rebuild as Recalculate. */
    method ResizeHandler(elements: seq<Element>)
      requires Valid()
      modifies this
      ensures Valid()
      ensures Entries(sections) == SnappableEntries(elements)
      ensures active == old(active) && scrollLock == old(scrollLock) && action == old(action)
      ensures windowY == old(windowY) && bodyClasses == old(bodyClasses)
      ensures active != null ==> active !in sections
    {
      CacheSections(elements);
    }

    /**
     * snapToSection: a no-op while locked; otherwise take the lock and record
     * the current offset, the section's document top and the section.
     * `elementTop` is the section element's viewport-relative top.
     */
    method SnapToSection(section: Section, elementTop: real, scrollY: real)
      requires Valid()
      modifies this
      ensures Valid()
      ensures old(scrollLock) ==> scrollLock && action == old(action)
      ensures !old(scrollLock) ==> scrollLock && action == Some(ScrollAction(scrollY, elementTop + scrollY, section))
      ensures sections == old(sections) && active == old(active)
      ensures windowY == old(windowY) && bodyClasses == old(bodyClasses)
    {
      if scrollLock {
        return;
      }
      scrollLock := true;
      var targetY := elementTop + scrollY;
      action := Some(ScrollAction(scrollY, targetY, section));
    }

    /**
     * easedScroll: one animation frame. Landing writes the exact target,
     * activates the target section, clears the record and releases the lock;
     * otherwise the page and the record move to the frame's new offset.
     */
    method Step()
      requires Valid() && scrollLock
      modifies this
      ensures Valid()
      ensures sections == old(sections) && bodyClasses == old(bodyClasses)
      ensures match NextFrame(old(action).value.currentY, old(action).value.targetY)
        case Landed(y) =>
          windowY == y && active == old(action).value.target && action.None? && !scrollLock
        case Moved(y) =>
          windowY == y && active == old(active) && scrollLock && action == Some(old(action).value.(currentY := y))
    {
      var currentY := action.value.currentY;
      var targetY := action.value.targetY;
      var diff := targetY - currentY;
      var absDiff := Abs(diff);
      if absDiff < 1.0 {
        windowY := targetY;
        active := action.value.target;
        action := None;
        scrollLock := false;
        return;
      }
      var stepSize := StepSize(absDiff);
      var newY := currentY + (if diff > 0.0 then stepSize else -stepSize);
      windowY := newY;
      action := Some(action.value.(currentY := newY));
    }

    /**
     * The browser running the frames requestAnimationFrame schedules until
     * the animation stops: it stops after FramesToLand frames, on the exact
     * target, with the target section active and the lock released.
     */
    method RunAnimation() returns (frames: nat)
      requires Valid() && scrollLock
      modifies this
      ensures Valid() && !scrollLock && action.None?
      ensures frames == FramesToLand(old(action).value.currentY, old(action).value.targetY)
      ensures windowY == old(action).value.targetY && active == old(action).value.target
      ensures sections == old(sections) && bodyClasses == old(bodyClasses)
    {
      ghost var start := action.value;
      frames := 0;
      while scrollLock
        invariant Valid()
        invariant sections == old(sections) && bodyClasses == old(bodyClasses)
        invariant scrollLock ==> action.value.targetY == start.targetY && action.value.target == start.target
        invariant scrollLock ==> frames + FramesToLand(action.value.currentY, start.targetY) == FramesToLand(start.currentY, start.targetY)
        invariant !scrollLock ==> frames == FramesToLand(start.currentY, start.targetY)
        invariant !scrollLock ==> windowY == start.targetY && active == start.target
        decreases if scrollLock then Abs(start.targetY - action.value.currentY).Floor + 1 else 0
      {
        Step();
        frames := frames + 1;
      }
    }

    /** animateSection: leave only the section's colour class on the body. */
    method AnimateSection(section: Section?)
      modifies this
      ensures bodyClasses == Recolor(old(bodyClasses), if section != null then Some(section.index) else None)
      ensures sections == old(sections) && active == old(active) && scrollLock == old(scrollLock)
      ensures action == old(action) && windowY == old(windowY)
    {
      var cleared := bodyClasses - ColorSet();
      if section != null {
        var colorIndex := section.index % |ColorClasses|;
        bodyClasses := cleared + {ColorClasses[colorIndex]};
      } else {
        bodyClasses := cleared;
      }
    }

    /**
     * scrollHandler: nothing while locked; otherwise activate, snap to and
     * recolour for the FirstCandidate section, if any. `headerTops` and
     * `elementTops` are the viewport-relative tops of each section's header
     * and element, in list order.
     */
    method ScrollHandler(headerTops: seq<real>, elementTops: seq<real>, scrollY: real, viewportHeight: real)
      requires Valid()
      requires |headerTops| == |sections| && |elementTops| == |sections|
      modifies this
      ensures Valid() && sections == old(sections)
      ensures old(scrollLock) ==>
        active == old(active) && scrollLock && action == old(action) && windowY == old(windowY) && bodyClasses == old(bodyClasses)
      ensures !old(scrollLock) ==> windowY == old(windowY)
      ensures !old(scrollLock) ==> match FirstCandidate(sections, old(active), headerTops, viewportHeight)
        case None =>
          active == old(active) && !scrollLock && action.None? && bodyClasses == old(bodyClasses)
        case Some(k) =>
          active == sections[k] && scrollLock
          && action == Some(ScrollAction(scrollY, elementTops[k] + scrollY, sections[k]))
          && bodyClasses == Recolor(old(bodyClasses), Some(sections[k].index))
    {
      if scrollLock {
        return;
      }
      var i := 0;
      while i < |sections|
        invariant 0 <= i <= |sections|
        invariant active == old(active) && !scrollLock && action.None?
        invariant windowY == old(windowY) && bodyClasses == old(bodyClasses) && sections == old(sections)
        invariant forall j :: 0 <= j < i ==> sections[j] == active || !InHeaderBand(headerTops[j], viewportHeight)
      {
        var section := sections[i];
        if active == section {
          i := i + 1;
          continue;
        }
        if InHeaderBand(headerTops[i], viewportHeight) {
          FirstCandidateIs(sections, active, headerTops, viewportHeight, i);
          active := section;
          SnapToSection(section, elementTops[i], scrollY);
          AnimateSection(section);
          break;
        }
        i := i + 1;
      }
      if i == |sections| {
        FirstCandidateNone(sections, active, headerTops, viewportHeight);
      }
    }
  }
}
