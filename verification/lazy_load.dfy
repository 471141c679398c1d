/**
 * `LazyLoad`: images get their real `src` only once they are near the
 * viewport, and carousel images are loaded one per timer tick. Timers,
 * scroll events and element geometry are explicit inputs; the page state is
 * a value that each step maps to its successor.
 */
module LazyLoad {
  import opened Wrappers
  import opened Iteration
  import Seqs

  /** `getBoundingClientRect()`, relative to the viewport. */
  datatype Rect = Rect(top: int, bottom: int)

  /** `window.scrollY` and `window.innerHeight`. */
  datatype Viewport = Viewport(scrollY: int, innerHeight: int)

  /**
   * An image handled by lazy loading: its `src`, its `data-optimus-lazy-url`
   * (absent when the attribute is missing), whether it carries
   * `data-optimus-loaded="true"`, and where it sits.
   */
  datatype LazyImage = LazyImage(src: string, lazyUrl: Option<string>, loaded: bool, rect: Rect)

  /** A carousel: its `data-optimus-interval` (in milliseconds) if present, and its images. */
  datatype Carousel = Carousel(interval: Option<int>, images: seq<LazyImage>)

  /** `ILazyLoadCarouselInterval`: the carousel's position and the id `setInterval` returned. */
  datatype IntervalEntry = IntervalEntry(key: nat, uuid: nat)

  /** A running `setInterval`: which carousel it advances and its period. */
  datatype Timer = Timer(carousel: nat, period: int)

  /**
   * The page: the lazy images, the carousels, the recorded interval list,
   * the timers still running (by id), the next id `setInterval` will hand
   * out, and how many scroll listeners are attached.
   */
  datatype LazyState = LazyState(
    images: seq<LazyImage>,
    carousels: seq<Carousel>,
    intervals: seq<IntervalEntry>,
    timers: map<nat, Timer>,
    nextTimer: nat,
    scrollListeners: nat)

  /** What `execute` leaves behind, and whether it stopped on a thrown `TypeError`. */
  datatype Run = Run(state: LazyState, threw: bool)

  const InitialMargin: int := 300
  const ScrollMargin: int := 100

  /** The margin of a pass: wider on the first pass than on scroll passes. */
  function Margin(initialLoad: bool): (m: int)
    ensures initialLoad ==> m == InitialMargin
    ensures !initialLoad ==> m == ScrollMargin
  {
    if initialLoad then 300 else 100
  }

  /**
   * The visibility test of `loadImagesNearOrInView`, in page coordinates:
   * the image overlaps the window widened by `margin` above and below.
   */
  function NearOrInView(vp: Viewport, margin: int, rect: Rect): (near: bool)
    ensures near <==> -margin < rect.bottom && rect.top < vp.innerHeight + margin
  {
    var topEdge := vp.scrollY - margin;
    var bottomEdge := vp.innerHeight + vp.scrollY + margin;
    topEdge < rect.bottom + vp.scrollY && rect.top + vp.scrollY < bottomEdge
  }

  /** Both sides carry the scroll offset, so the decision does not depend on it. */
  lemma WindowIgnoresScroll(vp: Viewport, margin: int, rect: Rect, scrollY: int)
    ensures NearOrInView(vp, margin, rect) == NearOrInView(vp.(scrollY := scrollY), margin, rect)
  {
  }

  /** `addLoadedPropertiesToImage`: `src` becomes the lazy URL (`"null"` when it is missing) and the image is marked loaded. */
  function Load(img: LazyImage): (r: LazyImage)
    ensures r.loaded
    ensures r.lazyUrl == img.lazyUrl && r.rect == img.rect
    ensures img.lazyUrl.Some? ==> r.src == img.lazyUrl.value
    ensures img.lazyUrl.None? ==> r.src == "null"
  {
    LazyImage(if img.lazyUrl.Some? then img.lazyUrl.value else "null", img.lazyUrl, true, img.rect)
  }

  /** `loadImagesNearOrInView`: every image in the window is loaded, every other image is left as it was. */
  function LoadNearOrInView(images: seq<LazyImage>, vp: Viewport, initialLoad: bool): (r: seq<LazyImage>)
    ensures |r| == |images|
    ensures forall i :: 0 <= i < |r| ==> r[i].loaded == (images[i].loaded || NearOrInView(vp, Margin(initialLoad), images[i].rect))
    ensures forall i :: 0 <= i < |r| && NearOrInView(vp, Margin(initialLoad), images[i].rect) ==> r[i] == Load(images[i])
    ensures forall i :: 0 <= i < |r| && !NearOrInView(vp, Margin(initialLoad), images[i].rect) ==> r[i] == images[i]
  {
    if |images| == 0 then []
    else
      var head := if NearOrInView(vp, Margin(initialLoad), images[0].rect) then Load(images[0]) else images[0];
      [head] + LoadNearOrInView(images[1..], vp, initialLoad)
  }

  /**
   * `loadImagesBeingScrolledInView`: only images not yet loaded are
   * considered, with the scroll margin; with none left nothing happens.
   */
  function ScrollPass(images: seq<LazyImage>, vp: Viewport): (r: seq<LazyImage>)
    ensures |r| == |images|
    ensures forall i :: 0 <= i < |r| ==> r[i] == ScrollVisit(images[i], vp)
    ensures (forall i :: 0 <= i < |images| ==> images[i].loaded) ==> r == images
  {
    if |images| == 0 then []
    else [ScrollVisit(images[0], vp)] + ScrollPass(images[1..], vp)
  }

  /** What a scroll pass does to one image: a loaded image is skipped, a waiting one in the window is loaded. */
  function ScrollVisit(img: LazyImage, vp: Viewport): (r: LazyImage)
    ensures img.loaded ==> r == img
    ensures r.loaded == (img.loaded || NearOrInView(vp, ScrollMargin, img.rect))
    ensures !img.loaded && NearOrInView(vp, ScrollMargin, img.rect) ==> r == Load(img)
    ensures !NearOrInView(vp, ScrollMargin, img.rect) ==> r == img
  {
    if !img.loaded && NearOrInView(vp, Margin(false), img.rect) then Load(img) else img
  }

  /** A second scroll pass over the same viewport loads nothing more. */
  lemma {:induction false} ScrollPassIdempotent(images: seq<LazyImage>, vp: Viewport)
    ensures ScrollPass(ScrollPass(images, vp), vp) == ScrollPass(images, vp)
  {
    var once := ScrollPass(images, vp);
    var twice := ScrollPass(once, vp);
    forall i | 0 <= i < |images|
      ensures twice[i] == once[i]
    {
      if !once[i].loaded {
        assert !NearOrInView(vp, ScrollMargin, images[i].rect);
      }
    }
  }

  /**
   * A window 768 pixels high at the top of the page: with the wide first
   * margin, images ending at 350 or 500 or starting at 800 are loaded and one
   * starting at 2000 is not.
   */
  lemma FirstPassOnTallWindow(urls: seq<string>)
    requires |urls| == 4
    ensures var images := [
              LazyImage("", Some(urls[0]), false, Rect(-500, 350)),
              LazyImage("", Some(urls[1]), false, Rect(350, 500)),
              LazyImage("", Some(urls[2]), false, Rect(800, 1000)),
              LazyImage("", Some(urls[3]), false, Rect(2000, 2500))];
            var r := LoadNearOrInView(images, Viewport(0, 768), true);
            r[0].src == urls[0] && r[1].src == urls[1] && r[2].src == urls[2] && r[3] == images[3]
  {
  }

  /** `data-optimus-loaded` is never taken away: neither kind of pass unloads an image. */
  lemma PassesNeverUnload(images: seq<LazyImage>, vp: Viewport, initialLoad: bool)
    ensures forall i :: 0 <= i < |images| && images[i].loaded ==>
              LoadNearOrInView(images, vp, initialLoad)[i].loaded && ScrollPass(images, vp)[i].loaded
  {
  }

  /** Every image of a carousel loaded, as a carousel without an interval is. */
  function LoadAll(images: seq<LazyImage>): (r: seq<LazyImage>)
    ensures |r| == |images|
    ensures forall i :: 0 <= i < |r| ==> r[i] == Load(images[i])
  {
    if |images| == 0 then [] else [Load(images[0])] + LoadAll(images[1..])
  }

  /** `carousel.querySelector('img:not([data-optimus-loaded="true"])')`. */
  function FirstUnloaded(images: seq<LazyImage>): (r: Option<nat>)
    ensures r.None? <==> forall i :: 0 <= i < |images| ==> images[i].loaded
    ensures r.Some? ==> r.value < |images| && !images[r.value].loaded
    ensures r.Some? ==> forall i :: 0 <= i < r.value ==> images[i].loaded
  {
    if |images| == 0 then None
    else if !images[0].loaded then Some(0)
    else match FirstUnloaded(images[1..])
      case None => None
      case Some(i) => Some(i + 1)
  }

  /** How many images are still waiting. */
  function CountUnloaded(images: seq<LazyImage>): nat {
    if |images| == 0 then 0 else (if images[0].loaded then 0 else 1) + CountUnloaded(images[1..])
  }

  /** Loading an image that was waiting leaves one fewer waiting. */
  lemma {:induction false} LoadingReducesCount(images: seq<LazyImage>, i: nat)
    requires i < |images| && !images[i].loaded
    ensures CountUnloaded(images[i := Load(images[i])]) == CountUnloaded(images) - 1
  {
    if i > 0 {
      LoadingReducesCount(images[1..], i - 1);
      assert images[i := Load(images[i])][1..] == images[1..][i - 1 := Load(images[i])];
    }
  }

  /** No image waiting means a count of zero, and conversely. */
  lemma {:induction false} CountZeroIffAllLoaded(images: seq<LazyImage>)
    ensures CountUnloaded(images) == 0 <==> forall i :: 0 <= i < |images| ==> images[i].loaded
  {
    if |images| > 0 {
      CountZeroIffAllLoaded(images[1..]);
      if CountUnloaded(images) == 0 {
        forall i | 0 <= i < |images| ensures images[i].loaded {
          if i > 0 {
            assert images[i] == images[1..][i - 1];
          }
        }
      }
    }
  }

  /** The first recorded interval entry with the given key (`_carouselIntervals.find`). */
  function FindEntry(intervals: seq<IntervalEntry>, key: nat): (r: Option<nat>)
    ensures r.None? <==> forall j :: 0 <= j < |intervals| ==> intervals[j].key != key
    ensures r.Some? ==> r.value < |intervals| && intervals[r.value].key == key
    ensures r.Some? ==> forall j :: 0 <= j < r.value ==> intervals[j].key != key
  {
    if |intervals| == 0 then None
    else if intervals[0].key == key then Some(0)
    else match FindEntry(intervals[1..], key)
      case None => None
      case Some(j) => Some(j + 1)
  }

  /**
   * The bookkeeping stays in step: every running timer belongs to an
   * existing carousel and is recorded under that carousel's key, every
   * recorded entry names a running timer of its carousel, no key is recorded
   * twice, and all ids are below the next id.
   */
  predicate Consistent(st: LazyState) {
    && (forall u :: u in st.timers ==>
          u < st.nextTimer && st.timers[u].carousel < |st.carousels|
          && IntervalEntry(st.timers[u].carousel, u) in st.intervals)
    && (forall e :: e in st.intervals ==> e.uuid in st.timers && st.timers[e.uuid].carousel == e.key)
    && (forall e1, e2 :: e1 in st.intervals && e2 in st.intervals && e1.key == e2.key ==> e1 == e2)
  }

  /** Keep the entries whose key differs from `key`. */
  function WithoutKey(intervals: seq<IntervalEntry>, key: nat): (r: seq<IntervalEntry>)
    ensures forall e :: e in r <==> e in intervals && e.key != key
  {
    if |intervals| == 0 then []
    else
      var rest := WithoutKey(intervals[1..], key);
      assert forall e :: e in intervals <==> e == intervals[0] || e in intervals[1..];
      if intervals[0].key == key then rest else [intervals[0]] + rest
  }

  /** The entries with another key, as `filter(interval => interval.key !== index)` keeps them. */
  function OtherKey(key: nat): IntervalEntry -> bool {
    (e: IntervalEntry) => e.key != key
  }

  /** Dropping a key is `filter`: the remaining entries keep their order and their repetitions. */
  lemma {:induction false} WithoutKeyIsFilter(intervals: seq<IntervalEntry>, key: nat)
    ensures WithoutKey(intervals, key) == Seqs.Filter(intervals, OtherKey(key))
  {
    if |intervals| > 0 {
      WithoutKeyIsFilter(intervals[1..], key);
    }
  }

  /**
   * One tick of the timer `uuid`: load the first image of its carousel that
   * is still waiting; when there is none, clear the interval recorded under
   * the carousel's key and drop that entry. Reading the entry when none is
   * recorded is the `TypeError` the source would throw.
   */
  function Fire(st: LazyState, uuid: nat): (r: Result<LazyState, string>)
    requires uuid in st.timers && st.timers[uuid].carousel < |st.carousels|
    ensures r.Success? ==> |r.value.carousels| == |st.carousels| && r.value.images == st.images
    ensures r.Success? ==> r.value.nextTimer == st.nextTimer && r.value.scrollListeners == st.scrollListeners
  {
    var c := st.timers[uuid].carousel;
    var carousel := st.carousels[c];
    match FirstUnloaded(carousel.images)
    case Some(i) =>
      var images := carousel.images[i := Load(carousel.images[i])];
      Success(st.(carousels := st.carousels[c := carousel.(images := images)]))
    case None =>
      match FindEntry(st.intervals, c)
      case None => Failure("TypeError: cannot read property 'uuid' of undefined")
      case Some(j) =>
        var entry := st.intervals[j];
        Success(st.(timers := st.timers - {entry.uuid}, intervals := WithoutKey(st.intervals, c)))
  }

  /**
   * What a tick changes: with an image waiting, exactly the first waiting
   * image of its own carousel is loaded; with none, one timer recorded under
   * the carousel's key is cleared and that key's entries are dropped. Other
   * carousels are never touched.
   */
  lemma FireEffect(st: LazyState, uuid: nat)
    requires uuid in st.timers && st.timers[uuid].carousel < |st.carousels|
    ensures var r := Fire(st, uuid);
            r.Success? ==> forall k :: 0 <= k < |st.carousels| && k != st.timers[uuid].carousel ==> r.value.carousels[k] == st.carousels[k]
    ensures var r := Fire(st, uuid);
            var c := st.timers[uuid].carousel;
            var images := st.carousels[c].images;
            FirstUnloaded(images).Some? ==>
              && r.Success?
              && r.value.carousels[c].images == images[FirstUnloaded(images).value := Load(images[FirstUnloaded(images).value])]
              && r.value.timers == st.timers && r.value.intervals == st.intervals
    ensures var r := Fire(st, uuid);
            var c := st.timers[uuid].carousel;
            FirstUnloaded(st.carousels[c].images).None? && r.Success? ==>
              && r.value.carousels == st.carousels
              && r.value.intervals == WithoutKey(st.intervals, c)
              && exists e :: e in st.intervals && e.key == c && r.value.timers == st.timers - {e.uuid}
  {
    var c := st.timers[uuid].carousel;
    if FirstUnloaded(st.carousels[c].images).None? && FindEntry(st.intervals, c).Some? {
      var e := st.intervals[FindEntry(st.intervals, c).value];
      assert e in st.intervals && e.key == c;
    }
  }

  /** In a consistent state a tick never fails, stays consistent, and clears its own timer when it clears one. */
  lemma FirePreservesConsistent(st: LazyState, uuid: nat)
    requires Consistent(st) && uuid in st.timers
    ensures Fire(st, uuid).Success?
    ensures Consistent(Fire(st, uuid).value)
    ensures FirstUnloaded(st.carousels[st.timers[uuid].carousel].images).None? ==>
              Fire(st, uuid).value.timers == st.timers - {uuid}
    ensures FirstUnloaded(st.carousels[st.timers[uuid].carousel].images).Some? ==> uuid in Fire(st, uuid).value.timers
  {
    var c := st.timers[uuid].carousel;
    FireEffect(st, uuid);
    if FirstUnloaded(st.carousels[c].images).None? {
      assert IntervalEntry(c, uuid) in st.intervals;
      var j := FindEntry(st.intervals, c).value;
      assert st.intervals[j] in st.intervals;
      assert st.intervals[j] == IntervalEntry(c, uuid);
      var r := Fire(st, uuid).value;
      forall u | u in r.timers
        ensures IntervalEntry(r.timers[u].carousel, u) in r.intervals
      {
        assert IntervalEntry(st.timers[u].carousel, u) in st.intervals;
      }
    }
  }

  /**
   * One firing of timer `uuid`. A cleared timer no longer fires; a firing
   * that throws leaves the state as it was, and the interval keeps firing.
   */
  function Tick(st: LazyState, uuid: nat): (r: LazyState)
    ensures uuid !in st.timers ==> r == st
  {
    if uuid !in st.timers || st.timers[uuid].carousel >= |st.carousels| then st
    else match Fire(st, uuid)
      case Failure(_) => st
      case Success(next) => next
  }

  /** Timer `uuid`'s firing as a step function. */
  function TickOf(uuid: nat): LazyState -> LazyState {
    st => Tick(st, uuid)
  }

  /** The state after `n` firings of timer `uuid`. */
  function Ticks(st: LazyState, uuid: nat, n: nat): LazyState {
    Iterate(TickOf(uuid), st, n)
  }

  /** One firing keeps the bookkeeping consistent. */
  lemma TickPreservesConsistent(st: LazyState, uuid: nat)
    requires Consistent(st)
    ensures Consistent(Tick(st, uuid))
  {
    if uuid in st.timers {
      FirePreservesConsistent(st, uuid);
    }
  }

  /** Any number of firings keeps the bookkeeping consistent. */
  lemma TicksPreserveConsistent(st: LazyState, uuid: nat, n: nat)
    requires Consistent(st)
    ensures Consistent(Ticks(st, uuid, n))
  {
    forall x | Consistent(x) ensures Consistent(Tick(x, uuid)) {
      TickPreservesConsistent(x, uuid);
    }
    Keeps(TickOf(uuid), Consistent, st, n);
  }

  /** Every image of carousel `c` has loaded. */
  predicate AllLoaded(st: LazyState, c: nat)
    requires c < |st.carousels|
  {
    forall i :: 0 <= i < |st.carousels[c].images| ==> st.carousels[c].images[i].loaded
  }

  /** Timer `uuid` is running for carousel `c` in a consistent state. */
  predicate Running(st: LazyState, uuid: nat, c: nat) {
    Consistent(st) && uuid in st.timers && st.timers[uuid].carousel == c
  }

  /** How many images of carousel `c` are still waiting; none when there is no such carousel. */
  function Waiting(st: LazyState, c: nat): nat {
    if c < |st.carousels| then CountUnloaded(st.carousels[c].images) else 0
  }

  /** The timer of carousel `c` is gone and every image of `c` has loaded. */
  predicate CarouselFinished(st: LazyState, uuid: nat, c: nat) {
    uuid !in st.timers && c < |st.carousels| && AllLoaded(st, c)
  }

  /**
   * One firing of the timer of carousel `c`: with an image waiting it loads
   * one and keeps the timer; with none it clears the timer, all images
   * having loaded.
   */
  lemma TickAdvances(st: LazyState, uuid: nat, c: nat)
    requires Running(st, uuid, c)
    ensures var after := Tick(st, uuid);
            && (Waiting(st, c) > 0 ==> Running(after, uuid, c) && Waiting(after, c) == Waiting(st, c) - 1)
            && (Waiting(st, c) == 0 ==> CarouselFinished(after, uuid, c))
  {
    var images := st.carousels[c].images;
    FirePreservesConsistent(st, uuid);
    FireEffect(st, uuid);
    CountZeroIffAllLoaded(images);
    if FirstUnloaded(images).Some? {
      LoadingReducesCount(images, FirstUnloaded(images).value);
    }
  }

  /** Once cleared, a timer's firings change nothing, so its carousel stays fully loaded. */
  lemma ClearedTimerIdles(st: LazyState, uuid: nat, c: nat)
    requires CarouselFinished(st, uuid, c)
    ensures CarouselFinished(Tick(st, uuid), uuid, c)
  {
  }

  /**
   * Given one more tick than it has images waiting, the timer of carousel
   * `c` loads every one of its images and then clears itself.
   */
  lemma TicksLoadWholeCarousel(st: LazyState, uuid: nat, c: nat, n: nat)
    requires Running(st, uuid, c)
    requires n > Waiting(st, c)
    ensures CarouselFinished(Ticks(st, uuid, n), uuid, c)
  {
    forall x | Running(x, uuid, c)
      ensures Waiting(x, c) > 0 ==> Running(Tick(x, uuid), uuid, c) && Waiting(Tick(x, uuid), c) < Waiting(x, c)
      ensures Waiting(x, c) == 0 ==> CarouselFinished(Tick(x, uuid), uuid, c)
    {
      TickAdvances(x, uuid, c);
    }
    forall x | CarouselFinished(x, uuid, c) ensures CarouselFinished(Tick(x, uuid), uuid, c) {
      ClearedTimerIdles(x, uuid, c);
    }
    Countdown(TickOf(uuid), x => Running(x, uuid, c), x => Waiting(x, c), x => CarouselFinished(x, uuid, c), st, n);
  }

  lemma CarouselTicksEarly(first: LazyImage, rest: seq<LazyImage>)
    ensures var st := LazyState([], [Carousel(Some(5000), [first] + rest)], [], map[], 0, 0);
            var r := SetUpCarousels(st, 0);
            !r.threw && r.state.timers == map[0 := Timer(0, 4000)] && r.state.intervals == [IntervalEntry(0, 0)]
            && r.state.carousels[0].images[0] == Load(first)
  {
    var st := LazyState([], [Carousel(Some(5000), [first] + rest)], [], map[], 0, 0);
    assert SetUpCarousels(st, 0) == SetUpCarousels(SetUpStep(st, 0), 1);
  }

  /** `_carouselIntervals.forEach(clearInterval)` followed by `_carouselIntervals = []`. */
  function ClearIntervals(st: LazyState): (r: LazyState)
    ensures r.intervals == []
    ensures forall e :: e in st.intervals ==> e.uuid !in r.timers
    ensures forall u :: u in r.timers ==> u in st.timers && r.timers[u] == st.timers[u]
    ensures Consistent(st) ==> r.timers == map[]
    ensures r.images == st.images && r.carousels == st.carousels && r.nextTimer == st.nextTimer
  {
    var cleared := set e | e in st.intervals :: e.uuid;
    st.(timers := st.timers - cleared, intervals := [])
  }

  /** Carousel `k` as `carousels` leaves it, judged against the carousel `original` it started from. */
  ghost predicate CarouselStarted(st: LazyState, k: nat, original: Carousel)
    requires k < |st.carousels|
  {
    var images := st.carousels[k].images;
    && |images| == |original.images|
    && match original.interval
       case Some(t) =>
         && |images| > 0
         && images[0] == Load(original.images[0])
         && (forall i :: 1 <= i < |images| ==> images[i] == original.images[i])
         && exists u :: u < st.nextTimer && u in st.timers && st.timers[u] == Timer(k, t - 1000) && IntervalEntry(k, u) in st.intervals
       case None => images == LoadAll(original.images)
  }

  /** Whether carousel `k` would make `carousels` throw: an interval but no image to load first. */
  predicate Throws(c: Carousel) {
    c.interval.Some? && |c.images| == 0
  }

  /**
   * `carousels` from position `k` on: a carousel with an interval loads its
   * first image and starts a timer with period interval − 1000 recorded
   * under its position; one without loads all of its images. A carousel with
   * an interval and no images throws and ends the loop.
   */
  function SetUpCarousels(st: LazyState, k: nat): (r: Run)
    requires k <= |st.carousels|
    ensures |r.state.carousels| == |st.carousels| && r.state.images == st.images
    ensures r.state.scrollListeners == st.scrollListeners
    ensures forall j :: 0 <= j < k ==> r.state.carousels[j] == st.carousels[j]
    ensures r.threw <==> exists j :: k <= j < |st.carousels| && Throws(st.carousels[j])
    decreases |st.carousels| - k
  {
    if k == |st.carousels| then Run(st, false)
    else if Throws(st.carousels[k]) then Run(st, true)
    else
      var next := SetUpStep(st, k);
      assert forall j :: k < j < |st.carousels| ==> next.carousels[j] == st.carousels[j];
      SetUpCarousels(next, k + 1)
  }

  /** `b` keeps every timer below `a`'s next id and every recorded entry of `a`. */
  ghost predicate Grows(a: LazyState, b: LazyState) {
    && a.nextTimer <= b.nextTimer
    && (forall u :: u in a.timers && u < a.nextTimer ==> u in b.timers && b.timers[u] == a.timers[u])
    && (forall e :: e in a.intervals ==> e in b.intervals)
  }

  /** Starting carousels only adds timers and entries. */
  lemma {:induction false} SetUpGrows(st: LazyState, k: nat)
    requires k <= |st.carousels|
    ensures Grows(st, SetUpCarousels(st, k).state)
    decreases |st.carousels| - k
  {
    if k < |st.carousels| && !Throws(st.carousels[k]) {
      SetUpGrows(SetUpStep(st, k), k + 1);
    }
  }

  /** Unless the loop throws, every carousel from `k` on is started as its attributes ask. */
  lemma {:induction false} SetUpStartsCarousels(st: LazyState, k: nat)
    requires k <= |st.carousels|
    ensures var r := SetUpCarousels(st, k);
            !r.threw ==> forall j :: k <= j < |st.carousels| ==> CarouselStarted(r.state, j, st.carousels[j])
    decreases |st.carousels| - k
  {
    if k < |st.carousels| && !Throws(st.carousels[k]) {
      var next := SetUpStep(st, k);
      var r := SetUpCarousels(next, k + 1);
      SetUpCarouselsStep(st, k, next);
      SetUpStartsCarousels(next, k + 1);
      SetUpGrows(next, k + 1);
      StartedSurvivesGrowth(next, r.state, k, st.carousels[k]);
      assert forall j :: k < j < |st.carousels| ==> next.carousels[j] == st.carousels[j];
    }
  }

  /** A started carousel stays started while the state only grows and the carousel itself is untouched. */
  lemma StartedSurvivesGrowth(a: LazyState, b: LazyState, k: nat, original: Carousel)
    requires k < |a.carousels| && k < |b.carousels| && b.carousels[k] == a.carousels[k]
    requires CarouselStarted(a, k, original) && Grows(a, b)
    ensures CarouselStarted(b, k, original)
  {
    if original.interval.Some? {
      var t := original.interval.value;
      var u :| u < a.nextTimer && u in a.timers && a.timers[u] == Timer(k, t - 1000) && IntervalEntry(k, u) in a.intervals;
      assert u < b.nextTimer && u in b.timers && b.timers[u] == Timer(k, t - 1000) && IntervalEntry(k, u) in b.intervals;
    }
  }

  /**
   * Starting the carousels keeps the bookkeeping consistent, and every
   * timer it starts has an id not handed out before.
   */
  lemma {:induction false} SetUpKeepsConsistent(st: LazyState, k: nat)
    requires k <= |st.carousels|
    requires Consistent(st) && forall e :: e in st.intervals ==> e.key < k
    ensures Consistent(SetUpCarousels(st, k).state)
    ensures forall u :: u in SetUpCarousels(st, k).state.timers && u !in st.timers ==> st.nextTimer <= u
    decreases |st.carousels| - k
  {
    if k < |st.carousels| && !Throws(st.carousels[k]) {
      SetUpStepConsistent(st, k);
      SetUpKeepsConsistent(SetUpStep(st, k), k + 1);
    }
  }

  /** One step of `carousels` starts its carousel and only adds to the bookkeeping. */
  lemma SetUpCarouselsStep(st: LazyState, k: nat, next: LazyState)
    requires k < |st.carousels| && !Throws(st.carousels[k])
    requires next == SetUpStep(st, k)
    ensures CarouselStarted(next, k, st.carousels[k])
    ensures Grows(st, next)
  {
    var c := st.carousels[k];
    if c.interval.Some? {
      assert next.timers[st.nextTimer] == Timer(k, c.interval.value - 1000);
      assert IntervalEntry(k, st.nextTimer) in next.intervals;
    }
  }

  /** One step of `carousels` keeps the bookkeeping consistent when no entry is recorded under its key or later. */
  lemma SetUpStepConsistent(st: LazyState, k: nat)
    requires k < |st.carousels| && !Throws(st.carousels[k])
    requires Consistent(st) && forall e :: e in st.intervals ==> e.key < k
    ensures Consistent(SetUpStep(st, k))
    ensures forall e :: e in SetUpStep(st, k).intervals ==> e.key < k + 1
  {
    var next := SetUpStep(st, k);
    if st.carousels[k].interval.Some? {
      assert next.timers[st.nextTimer] == Timer(k, st.carousels[k].interval.value - 1000);
      assert IntervalEntry(k, st.nextTimer) in next.intervals;
    }
  }

  /** One step of `carousels`, for a carousel that does not throw. */
  function SetUpStep(st: LazyState, k: nat): (next: LazyState)
    requires k < |st.carousels| && !Throws(st.carousels[k])
    ensures |next.carousels| == |st.carousels|
    ensures forall j :: 0 <= j < |st.carousels| && j != k ==> next.carousels[j] == st.carousels[j]
    ensures next.images == st.images && next.scrollListeners == st.scrollListeners
    ensures next.nextTimer == if st.carousels[k].interval.Some? then st.nextTimer + 1 else st.nextTimer
  {
    var c := st.carousels[k];
    match c.interval
    case Some(t) =>
      st.(
        carousels := st.carousels[k := c.(images := c.images[0 := Load(c.images[0])])],
        timers := st.timers[st.nextTimer := Timer(k, t - 1000)],
        intervals := st.intervals + [IntervalEntry(k, st.nextTimer)],
        nextTimer := st.nextTimer + 1)
    case None =>
      st.(carousels := st.carousels[k := c.(images := LoadAll(c.images))])
  }

  /**
   * `execute`: clear the carousel timers, run the first pass over the lazy
   * images with the wide margin, attach the scroll listener, and start the
   * carousels. Here the listener attached by an earlier `execute` is
   * replaced, so exactly one remains.
   */
  function Execute(st: LazyState, vp: Viewport): (r: Run)
    ensures r.state.scrollListeners == 1
    ensures r.state.images == LoadNearOrInView(st.images, vp, true)
    ensures |r.state.carousels| == |st.carousels|
    ensures Consistent(st) ==> forall e :: e in st.intervals ==> e.uuid !in r.state.timers
    ensures r.threw <==> exists j :: 0 <= j < |st.carousels| && Throws(st.carousels[j])
    ensures !r.threw ==> forall j :: 0 <= j < |st.carousels| ==> CarouselStarted(r.state, j, st.carousels[j])
    ensures Consistent(st) ==> Consistent(r.state)
  {
    var cleared := ClearIntervals(st).(images := LoadNearOrInView(st.images, vp, true), scrollListeners := 1);
    SetUpStartsCarousels(cleared, 0);
    if Consistent(st) then
      SetUpKeepsConsistent(cleared, 0);
      SetUpCarousels(cleared, 0)
    else SetUpCarousels(cleared, 0)
  }

  /**
   * `execute` as written: `removeEventListener` is handed a fresh arrow
   * function, which was never attached, so it removes nothing and every call
   * adds one more scroll listener.
   */
  function ExecuteAsWritten(st: LazyState, vp: Viewport): (r: Run)
    ensures r.state.scrollListeners == st.scrollListeners + 1
    ensures r.state.images == LoadNearOrInView(st.images, vp, true)
    ensures r.threw <==> exists j :: 0 <= j < |st.carousels| && Throws(st.carousels[j])
  {
    var cleared := ClearIntervals(st);
    SetUpCarousels(cleared.(images := LoadNearOrInView(st.images, vp, true), scrollListeners := st.scrollListeners + 1), 0)
  }

  /** Starting the carousels never reads or changes the scroll-listener count. */
  lemma {:induction false} SetUpIgnoresListeners(st: LazyState, k: nat, listeners: nat)
    requires k <= |st.carousels|
    ensures var r := SetUpCarousels(st, k);
            SetUpCarousels(st.(scrollListeners := listeners), k) == Run(r.state.(scrollListeners := listeners), r.threw)
    decreases |st.carousels| - k
  {
    if k < |st.carousels| && !Throws(st.carousels[k]) {
      assert SetUpStep(st.(scrollListeners := listeners), k) == SetUpStep(st, k).(scrollListeners := listeners);
      SetUpIgnoresListeners(SetUpStep(st, k), k + 1, listeners);
    }
  }

  /**
   * `execute` as written does everything the corrected `execute` does —
   * the same timers stopped, the same first pass, the same carousels
   * started, the same throw — and differs only in leaving one more scroll
   * listener than there was.
   */
  lemma ExecuteAsWrittenOnlyAddsListener(st: LazyState, vp: Viewport)
    ensures ExecuteAsWritten(st, vp).threw == Execute(st, vp).threw
    ensures ExecuteAsWritten(st, vp).state == Execute(st, vp).state.(scrollListeners := st.scrollListeners + 1)
  {
    var cleared := ClearIntervals(st).(images := LoadNearOrInView(st.images, vp, true), scrollListeners := 1);
    SetUpIgnoresListeners(cleared, 0, st.scrollListeners + 1);
  }

  /** Calling `execute` twice, as a single-page application does on navigation, leaves two scroll listeners. */
  lemma ScrollListenersAccumulate(st: LazyState, vp1: Viewport, vp2: Viewport)
    requires st.scrollListeners == 0
    ensures ExecuteAsWritten(ExecuteAsWritten(st, vp1).state, vp2).state.scrollListeners == 2
  {
  }

  /** With the listener replaced, any number of `execute` calls leaves exactly one. */
  lemma ScrollListenerRegisteredOnce(st: LazyState, vp1: Viewport, vp2: Viewport)
    ensures Execute(Execute(st, vp1).state, vp2).state.scrollListeners == 1
  {
  }

  /** The carousel timers of an earlier `execute` are all stopped by the next one; only the new ones run. */
  lemma ReExecuteStopsOldTimers(st: LazyState, vp1: Viewport, vp2: Viewport)
    requires Consistent(st)
    ensures var first := Execute(st, vp1).state;
            var second := Execute(first, vp2).state;
            forall u :: u in first.timers ==> u !in second.timers
  {
    var first := Execute(st, vp1).state;
    forall u | u in first.timers ensures IntervalEntry(first.timers[u].carousel, u) in first.intervals {
    }
  }
}
