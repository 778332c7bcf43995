/**
 * Resizing an image down to a target size: `resize`.
 *
 * The resizer works out how many vertical and horizontal seams to remove,
 * removes them in pairs (one vertical, then one horizontal) while both kinds
 * remain, then removes the rest of whichever kind is left. After every carve
 * it reports progress to an optional callback, and stops with the current
 * image as soon as the callback answers `false`.
 *
 * `Schedule` is the order of carves, `After` the image a plan of carves
 * produces and `Run` the image the resizer returns, callback included.
 */
module Resizing {
  import opened Grid
  import opened Carving

  datatype Option<T> = None | Some(value: T)

  /** An image as the resizer passes it around: RGBA bytes and dimensions. */
  datatype Image = Image(data: seq<Byte>, width: nat, height: nat)

  /** What the resizer reports after each carve. */
  datatype Progress = Progress(data: seq<Byte>, width: nat, height: nat, seamsRemoved: nat, totalSeams: int)

  /** The direction of one carve: a vertical seam narrows, a horizontal one shortens. */
  datatype Dir = Vertical | Horizontal

  predicate Valid(img: Image)
  {
    IsPixelBuffer(img.data, img.width, img.height)
  }

  // ---------------------------------------------------------------------------
  // The plan of carves

  /**
   * The carves for `v` vertical and `hz` horizontal seams, in the resizer's
   * order; a count that is not positive asks for no seam of that kind.
   */
  function Schedule(v: int, hz: int): (plan: seq<Dir>)
    decreases if v > 0 then v else 0
  {
    if v > 0 && hz > 0 then [Vertical, Horizontal] + Schedule(v - 1, hz - 1)
    else if v > 0 then seq(v, _ => Vertical)
    else if hz > 0 then seq(hz, _ => Horizontal)
    else []
  }

  /** How many carves of `plan` go in direction `d`. */
  function Count(plan: seq<Dir>, d: Dir): (n: nat)
    ensures n <= |plan|
  {
    if plan == [] then 0 else (if plan[0] == d then 1 else 0) + Count(plan[1..], d)
  }

  function Max0(x: int): nat
  {
    if x > 0 then x else 0
  }

  /** The schedule asks for exactly the positive part of each count. */
  lemma {:induction false} ScheduleCounts(v: int, hz: int)
    ensures Count(Schedule(v, hz), Vertical) == Max0(v)
    ensures Count(Schedule(v, hz), Horizontal) == Max0(hz)
    ensures |Schedule(v, hz)| == Max0(v) + Max0(hz)
    decreases if v > 0 then v else 0
  {
    var plan := Schedule(v, hz);
    if v > 0 && hz > 0 {
      ScheduleCounts(v - 1, hz - 1);
      assert plan[1..][1..] == Schedule(v - 1, hz - 1);
    } else if v > 0 {
      RunCount(v, Vertical, Horizontal);
    } else if hz > 0 {
      RunCount(hz, Horizontal, Vertical);
    }
  }

  /** A run of `n` carves in direction `d` counts `n` of `d` and none of `e`. */
  lemma {:induction false} RunCount(n: nat, d: Dir, e: Dir)
    requires d != e
    ensures Count(seq(n, _ => d), d) == n && Count(seq(n, _ => d), e) == 0
  {
    if n > 0 {
      RunCount(n - 1, d, e);
      assert seq(n, _ => d)[1..] == seq(n - 1, _ => d);
    }
  }

  /**
   * Carve `i` of the order: while both kinds remain, a vertical carve at
   * every even position and a horizontal one at every odd position; then
   * only the kind with more seams left.
   */
  function Ordered(v: int, hz: int, i: nat): Dir
  {
    var pairs := if v < hz then Max0(v) else Max0(hz);
    if i < 2 * pairs then (if i % 2 == 0 then Vertical else Horizontal)
    else if v > hz then Vertical else Horizontal
  }

  /** The schedule follows `Ordered` carve by carve. */
  lemma {:induction false} ScheduleOrder(v: int, hz: int)
    ensures forall i :: 0 <= i < |Schedule(v, hz)| ==> Schedule(v, hz)[i] == Ordered(v, hz, i)
    decreases if v > 0 then v else 0
  {
    if v > 0 && hz > 0 {
      ScheduleOrder(v - 1, hz - 1);
      var plan, rest := Schedule(v, hz), Schedule(v - 1, hz - 1);
      assert plan == [Vertical, Horizontal] + rest;
      forall i | 0 <= i < |plan|
        ensures plan[i] == Ordered(v, hz, i)
      {
        if i >= 2 {
          assert plan[i] == rest[i - 2] == Ordered(v - 1, hz - 1, i - 2);
          assert (i - 2) % 2 == i % 2;
        }
      }
    }
  }

  // ---------------------------------------------------------------------------
  // Carrying out a plan

  /** Every carve of `plan`, starting from a `width` x `height` image, sees at least 2 x 2 pixels. */
  predicate Fits(width: nat, height: nat, plan: seq<Dir>)
    decreases |plan|
  {
    plan == [] ||
    (width >= 2 && height >= 2 &&
     if plan[0] == Vertical then Fits(width - 1, height, plan[1..]) else Fits(width, height - 1, plan[1..]))
  }

  /** An image the carvers accept. */
  predicate CanCarve(img: Image)
  {
    Valid(img) && img.width >= 2 && img.height >= 2
  }

  /**
   * One carve: the image `carveVerticalSeam` or `carveHorizontalSeam`
   * returns. The resizer only carves images that `CanCarve`; any other image
   * is left as it is.
   */
  function Carve(img: Image, d: Dir): Image
  {
    if !CanCarve(img) then img
    else if d == Vertical then Image(CarvedVertically(img.data, img.width, img.height), img.width - 1, img.height)
    else Image(CarvedHorizontally(img.data, img.width, img.height), img.width, img.height - 1)
  }

  /** A carve yields a valid image one pixel narrower (vertical) or shorter (horizontal). */
  lemma CarveShrinks(img: Image, d: Dir)
    requires CanCarve(img)
    ensures Valid(Carve(img, d))
    ensures d == Vertical ==> Carve(img, d).width == img.width - 1 && Carve(img, d).height == img.height
    ensures d == Horizontal ==> Carve(img, d).width == img.width && Carve(img, d).height == img.height - 1
  {
    var next := Carve(img, d);
    if d == Vertical {
      var newWidth := img.width - 1;
      assert next == Image(CarvedVertically(img.data, img.width, img.height), newWidth, img.height);
      CarvedVerticallyKeepsRows(img.data, img.width, img.height, next.data, newWidth);
    } else {
      var newHeight := img.height - 1;
      assert next == Image(CarvedHorizontally(img.data, img.width, img.height), img.width, newHeight);
      CarvedHorizontallyKeepsColumns(img.data, img.width, img.height, next.data, newHeight);
    }
  }

  /**
   * A plan that fits starts on an image of at least 2 x 2 pixels, and the
   * rest of it fits from the size its first carve leaves.
   */
  lemma FitsStep(width: nat, height: nat, plan: seq<Dir>, width': nat, height': nat)
    requires Fits(width, height, plan) && plan != []
    requires plan[0] == Vertical ==> width' == width - 1 && height' == height
    requires plan[0] == Horizontal ==> width' == width && height' == height - 1
    ensures width >= 2 && height >= 2 && Fits(width', height', plan[1..])
  {
  }

  /**
   * A way of making one carve. The resizer's is `Carve`; the facts about
   * plans, runs and traces below hold for any of them.
   */
  type Carver = (Image, Dir) -> Image

  /** The image after every carve of `plan`, in order. */
  function After(carve: Carver, img: Image, plan: seq<Dir>): Image
    decreases |plan|
  {
    if plan == [] then img else After(carve, carve(img, plan[0]), plan[1..])
  }

  /** A plan that fits leaves a valid image, one pixel narrower per vertical carve and one shorter per horizontal one. */
  lemma {:induction false} AfterShrinks(img: Image, plan: seq<Dir>)
    requires Valid(img) && Fits(img.width, img.height, plan)
    ensures Valid(After(Carve, img, plan))
    ensures After(Carve, img, plan).width + Count(plan, Vertical) == img.width
    ensures After(Carve, img, plan).height + Count(plan, Horizontal) == img.height
    decreases |plan|
  {
    if plan != [] {
      var next := Carve(img, plan[0]);
      CarveShrinks(img, plan[0]);
      FitsStep(img.width, img.height, plan, next.width, next.height);
      AfterShrinks(next, plan[1..]);
      assert After(Carve, img, plan) == After(Carve, next, plan[1..]);
    }
  }

  /** A plan that fits has every prefix fitting. */
  lemma {:induction false} FitsPrefix(width: nat, height: nat, plan: seq<Dir>, k: nat)
    requires Fits(width, height, plan) && k <= |plan|
    ensures Fits(width, height, plan[..k])
    decreases k
  {
    if k > 0 {
      assert plan[..k][1..] == plan[1..][..k - 1];
      if plan[0] == Vertical {
        FitsPrefix(width - 1, height, plan[1..], k - 1);
      } else {
        FitsPrefix(width, height - 1, plan[1..], k - 1);
      }
    }
  }

  /** The first `j` carves of a plan are its first carve, then `j - 1` more from the image that carve leaves. */
  lemma AfterPrefixStep(carve: Carver, img: Image, plan: seq<Dir>, j: nat)
    requires 1 <= j <= |plan|
    ensures After(carve, img, plan[..j]) == After(carve, carve(img, plan[0]), plan[1..][..j - 1])
  {
    assert plan[..j][0] == plan[0] && plan[..j][1..] == plan[1..][..j - 1];
  }

  // ---------------------------------------------------------------------------
  // When the resizer can carry out its schedule

  /**
   * The sizes for which every carve the resizer makes sees at least 2 x 2
   * pixels, with `v` vertical and `hz` horizontal seams to remove.
   */
  predicate CanResize(width: nat, height: nat, targetWidth: int, targetHeight: int)
  {
    var v, hz := width - targetWidth, height - targetHeight;
    (v > 0 ==> targetWidth >= 1 && height >= 2) &&
    (hz > 0 ==> targetHeight >= 1 && width >= 2) &&
    (v > 0 && hz > 0 && v <= hz ==> targetWidth >= 2) &&
    (v > 0 && hz > 0 && v > hz ==> targetHeight >= 2)
  }

  /** `n` carves in one direction fit exactly when the other side has at least 2 pixels and this side keeps at least 1. */
  lemma {:induction false} RunFits(width: nat, height: nat, n: nat, d: Dir)
    ensures Fits(width, height, seq(n, _ => d)) <==>
            n == 0 || (d == Vertical && height >= 2 && width >= n + 1)
                   || (d == Horizontal && width >= 2 && height >= n + 1)
  {
    if n > 0 {
      assert seq(n, _ => d)[1..] == seq(n - 1, _ => d);
      if d == Vertical {
        if width >= 1 {
          RunFits(width - 1, height, n - 1, d);
        }
      } else {
        if height >= 1 {
          RunFits(width, height - 1, n - 1, d);
        }
      }
    }
  }

  /** The resizer's schedule fits the image exactly when `CanResize` holds. */
  lemma {:induction false} ScheduleFits(width: nat, height: nat, targetWidth: int, targetHeight: int)
    ensures Fits(width, height, Schedule(width - targetWidth, height - targetHeight))
            <==> CanResize(width, height, targetWidth, targetHeight)
    decreases width
  {
    var v, hz := width - targetWidth, height - targetHeight;
    var plan := Schedule(v, hz);
    if v > 0 && hz > 0 {
      assert plan[1..][1..] == Schedule(v - 1, hz - 1);
      if width >= 3 && height >= 2 {
        ScheduleFits(width - 1, height - 1, targetWidth, targetHeight);
      }
    } else if v > 0 {
      RunFits(width, height, v, Vertical);
    } else if hz > 0 {
      RunFits(width, height, hz, Horizontal);
    }
  }

  /** Carrying out the whole schedule leaves the target size, or the original size on a side that was not larger. */
  lemma ScheduleReachesTarget(data: seq<Byte>, width: nat, height: nat, targetWidth: int, targetHeight: int)
    requires IsPixelBuffer(data, width, height) && CanResize(width, height, targetWidth, targetHeight)
    ensures var out := After(Carve, Image(data, width, height), Schedule(width - targetWidth, height - targetHeight));
      Valid(out) &&
      out.width == (if targetWidth < width then targetWidth else width) &&
      out.height == (if targetHeight < height then targetHeight else height)
  {
    var img, v, hz := Image(data, width, height), width - targetWidth, height - targetHeight;
    var plan := Schedule(v, hz);
    ScheduleFits(width, height, targetWidth, targetHeight);
    ScheduleCounts(v, hz);
    AfterShrinks(img, plan);
    assert Count(plan, Vertical) == Max0(v) && Count(plan, Horizontal) == Max0(hz);
  }

  // ---------------------------------------------------------------------------
  // The progress callback

  /** The callback, when there is one, asks to stop on `report`. */
  predicate Refuses(onProgress: Option<Progress -> bool>, report: Progress)
  {
    onProgress.Some? && !onProgress.value(report)
  }

  function Report(img: Image, seamsRemoved: nat, totalSeams: int): Progress
  {
    Progress(img.data, img.width, img.height, seamsRemoved, totalSeams)
  }

  /**
   * What the resizer returns for `plan` from `img`, `done` carves having
   * been made before: each carve is reported, numbered from `done + 1`, and
   * the first refused report ends the run with the image it carries.
   */
  function Run(carve: Carver, img: Image, plan: seq<Dir>, done: nat, totalSeams: int,
               onProgress: Option<Progress -> bool>): Image
    decreases |plan|
  {
    if plan == [] then img
    else
      var next := carve(img, plan[0]);
      if Refuses(onProgress, Report(next, done + 1, totalSeams)) then next
      else Run(carve, next, plan[1..], done + 1, totalSeams, onProgress)
  }

  /** How many carves of `plan` a run makes: up to the first refused report, or all of them. */
  function Made(carve: Carver, img: Image, plan: seq<Dir>, done: nat, totalSeams: int,
                onProgress: Option<Progress -> bool>): (k: nat)
    ensures k <= |plan| && (plan != [] ==> k >= 1)
    decreases |plan|
  {
    if plan == [] then 0
    else
      var next := carve(img, plan[0]);
      if Refuses(onProgress, Report(next, done + 1, totalSeams)) then 1
      else 1 + Made(carve, next, plan[1..], done + 1, totalSeams, onProgress)
  }

  /** A run returns the image after the carves it makes. */
  lemma {:induction false} RunIsAfterMade(carve: Carver, img: Image, plan: seq<Dir>, done: nat, totalSeams: int,
                                          onProgress: Option<Progress -> bool>)
    ensures Run(carve, img, plan, done, totalSeams, onProgress)
            == After(carve, img, plan[..Made(carve, img, plan, done, totalSeams, onProgress)])
    decreases |plan|
  {
    if plan != [] {
      var next := carve(img, plan[0]);
      var k := Made(carve, img, plan, done, totalSeams, onProgress);
      AfterPrefixStep(carve, img, plan, k);
      if Refuses(onProgress, Report(next, done + 1, totalSeams)) {
        assert plan[1..][..0] == [];
      } else {
        RunIsAfterMade(carve, next, plan[1..], done + 1, totalSeams, onProgress);
      }
    }
  }

  /** A run that stops short of the whole plan stops because the report of its last carve was refused. */
  lemma {:induction false} RunStopsOnRefusal(carve: Carver, img: Image, plan: seq<Dir>, done: nat, totalSeams: int,
                                             onProgress: Option<Progress -> bool>)
    ensures var k := Made(carve, img, plan, done, totalSeams, onProgress);
      k < |plan| ==> Refuses(onProgress, Report(After(carve, img, plan[..k]), done + k, totalSeams))
    decreases |plan|
  {
    if plan != [] {
      var next := carve(img, plan[0]);
      var k := Made(carve, img, plan, done, totalSeams, onProgress);
      AfterPrefixStep(carve, img, plan, k);
      if Refuses(onProgress, Report(next, done + 1, totalSeams)) {
        assert plan[1..][..0] == [];
      } else {
        assert k == 1 + Made(carve, next, plan[1..], done + 1, totalSeams, onProgress);
        RunStopsOnRefusal(carve, next, plan[1..], done + 1, totalSeams, onProgress);
      }
    }
  }

  /** Every report before the last one a run makes was accepted. */
  lemma {:induction false} RunAcceptsEarlierReports(carve: Carver, img: Image, plan: seq<Dir>, done: nat, totalSeams: int,
                                                    onProgress: Option<Progress -> bool>, j: nat)
    requires 1 <= j < Made(carve, img, plan, done, totalSeams, onProgress)
    ensures !Refuses(onProgress, Report(After(carve, img, plan[..j]), done + j, totalSeams))
    decreases |plan|
  {
    var next := carve(img, plan[0]);
    AfterPrefixStep(carve, img, plan, j);
    if j == 1 {
      assert plan[1..][..0] == [];
    } else {
      RunAcceptsEarlierReports(carve, next, plan[1..], done + 1, totalSeams, onProgress, j - 1);
    }
  }

  /** Without a callback, or with one that accepts every report, the run carries out the whole plan. */
  lemma {:induction false} RunWithoutStop(carve: Carver, img: Image, plan: seq<Dir>, done: nat, totalSeams: int,
                                          onProgress: Option<Progress -> bool>)
    requires onProgress.Some? ==> forall p :: onProgress.value(p)
    ensures Run(carve, img, plan, done, totalSeams, onProgress) == After(carve, img, plan)
    decreases |plan|
  {
    if plan != [] {
      RunWithoutStop(carve, carve(img, plan[0]), plan[1..], done + 1, totalSeams, onProgress);
    }
  }

  // ---------------------------------------------------------------------------
  // The resizer

  /** One vertical carve, by `carveVerticalSeam`. */
  method CarveVertical(img: Image) returns (next: Image)
    requires CanCarve(img)
    ensures next == Carve(img, Vertical)
    ensures Valid(next) && next.width == img.width - 1 && next.height == img.height
  {
    var output, newWidth := CarveVerticalSeam(img.data, img.width, img.height);
    next := Image(output, newWidth, img.height);
  }

  /** One horizontal carve, by `carveHorizontalSeam`. */
  method CarveHorizontal(img: Image) returns (next: Image)
    requires CanCarve(img)
    ensures next == Carve(img, Horizontal)
    ensures Valid(next) && next.width == img.width && next.height == img.height - 1
  {
    var output, newHeight := CarveHorizontalSeam(img.data, img.width, img.height);
    next := Image(output, img.width, newHeight);
  }

  /** Entry `j + 1` of `trace` is entry `j` after carve `j` of `plan`. */
  ghost predicate CarvedAt(carve: Carver, trace: seq<Image>, plan: seq<Dir>, j: nat)
    requires j + 1 < |trace| && j < |plan|
  {
    trace[j + 1] == carve(trace[j], plan[j])
  }

  /** `trace` holds the image before each carve of a prefix of `plan`, and the image after the last one. */
  ghost predicate Carried(carve: Carver, trace: seq<Image>, plan: seq<Dir>)
  {
    1 <= |trace| <= |plan| + 1 &&
    forall j: nat :: j < |trace| - 1 ==> CarvedAt(carve, trace, plan, j)
  }

  /**
   * The reports of the carves in `trace`, numbered from `done + 1`: all but
   * the last were accepted, and the trace stops short of the plan only
   * because the last was refused.
   */
  ghost predicate Reported(trace: seq<Image>, plan: seq<Dir>, done: nat, totalSeams: int,
                           onProgress: Option<Progress -> bool>)
    requires |trace| >= 1
  {
    (forall j :: 1 <= j < |trace| - 1 ==> !Refuses(onProgress, Report(trace[j], done + j, totalSeams))) &&
    (|trace| - 1 < |plan| ==>
       |trace| >= 2 && Refuses(onProgress, Report(trace[|trace| - 1], done + |trace| - 1, totalSeams)))
  }

  /** A trace carried and reported that way ends in the image `Run` returns. */
  lemma {:induction false} TraceIsRun(carve: Carver, trace: seq<Image>, plan: seq<Dir>, done: nat, totalSeams: int,
                                      onProgress: Option<Progress -> bool>)
    requires Carried(carve, trace, plan) && Reported(trace, plan, done, totalSeams, onProgress)
    ensures trace[|trace| - 1] == Run(carve, trace[0], plan, done, totalSeams, onProgress)
    decreases |trace|
  {
    if |trace| > 1 {
      assert CarvedAt(carve, trace, plan, 0);
      if !Refuses(onProgress, Report(trace[1], done + 1, totalSeams)) {
        var trace', plan' := trace[1..], plan[1..];
        assert Carried(carve, trace', plan') by {
          forall j: nat | j < |trace'| - 1
            ensures CarvedAt(carve, trace', plan', j)
          {
            assert CarvedAt(carve, trace, plan, j + 1);
          }
        }
        assert Reported(trace', plan', done + 1, totalSeams, onProgress) by {
          forall j | 1 <= j < |trace'| - 1
            ensures !Refuses(onProgress, Report(trace'[j], done + 1 + j, totalSeams))
          {
            assert !Refuses(onProgress, Report(trace[j + 1], done + (j + 1), totalSeams));
          }
        }
        TraceIsRun(carve, trace', plan', done + 1, totalSeams, onProgress);
      }
    }
  }

  /** A trace carried so far extends by the next carve of the plan. */
  lemma CarriedExtends(carve: Carver, trace: seq<Image>, plan: seq<Dir>, next: Image)
    requires Carried(carve, trace, plan) && |trace| <= |plan|
    requires next == carve(trace[|trace| - 1], plan[|trace| - 1])
    ensures Carried(carve, trace + [next], plan)
  {
    var trace' := trace + [next];
    forall j: nat | j < |trace'| - 1
      ensures CarvedAt(carve, trace', plan, j)
    {
      if j < |trace| - 1 {
        assert CarvedAt(carve, trace, plan, j);
        assert trace'[j + 1] == trace[j + 1] && trace'[j] == trace[j];
      }
    }
  }

  /** Calls the callback, when there is one, with `report`; `stop` tells whether it answered `false`. */
  method Notify(onProgress: Option<Progress -> bool>, report: Progress) returns (stop: bool)
    ensures stop == Refuses(onProgress, report)
  {
    stop := false;
    if onProgress.Some? {
      var cont := onProgress.value(report);
      stop := !cont;
    }
  }

  /** The reports in `trace` so far, numbered from 1, were all accepted. */
  ghost predicate AllAccepted(trace: seq<Image>, totalSeams: int, onProgress: Option<Progress -> bool>)
  {
    forall j :: 1 <= j < |trace| ==> !Refuses(onProgress, Report(trace[j], j, totalSeams))
  }

  /** A trace whose last report, and no earlier one, was refused is reported as `resize` does it. */
  lemma ReportedOnRefusal(trace: seq<Image>, last: Image, plan: seq<Dir>, totalSeams: int,
                          onProgress: Option<Progress -> bool>)
    requires |trace| >= 1 && AllAccepted(trace, totalSeams, onProgress)
    requires Refuses(onProgress, Report(last, |trace|, totalSeams))
    ensures Reported(trace + [last], plan, 0, totalSeams, onProgress)
  {
    var trace' := trace + [last];
    forall j | 1 <= j < |trace'| - 1
      ensures !Refuses(onProgress, Report(trace'[j], 0 + j, totalSeams))
    {
      assert trace'[j] == trace[j];
    }
  }

  /** An accepted report of the next image keeps every report of the trace accepted. */
  lemma AcceptedExtends(trace: seq<Image>, last: Image, totalSeams: int, onProgress: Option<Progress -> bool>)
    requires |trace| >= 1 && AllAccepted(trace, totalSeams, onProgress)
    requires !Refuses(onProgress, Report(last, |trace|, totalSeams))
    ensures AllAccepted(trace + [last], totalSeams, onProgress)
  {
    var trace' := trace + [last];
    forall j | 1 <= j < |trace'|
      ensures !Refuses(onProgress, Report(trace'[j], j, totalSeams))
    {
      if j < |trace| {
        assert trace'[j] == trace[j];
      }
    }
  }

  /** A trace of the whole plan whose reports were all accepted is reported as `resize` does it. */
  lemma ReportedWhole(trace: seq<Image>, plan: seq<Dir>, totalSeams: int, onProgress: Option<Progress -> bool>)
    requires |trace| == |plan| + 1 && AllAccepted(trace, totalSeams, onProgress)
    ensures Reported(trace, plan, 0, totalSeams, onProgress)
  {
    forall j | 1 <= j < |trace| - 1
      ensures !Refuses(onProgress, Report(trace[j], 0 + j, totalSeams))
    {
    }
  }

  /**
   * What `resize` returns from `data`: the last image of a trace that
   * carries out a prefix of the schedule, reported as it goes and stopped
   * only by a refused report.
   */
  ghost predicate Resized(data: seq<Byte>, width: nat, height: nat, targetWidth: int, targetHeight: int,
                          onProgress: Option<Progress -> bool>, trace: seq<Image>, result: Image)
  {
    var plan := Schedule(width - targetWidth, height - targetHeight);
    Carried(Carve, trace, plan) && trace[0] == Image(data, width, height) && result == trace[|trace| - 1] &&
    Reported(trace, plan, 0, (width - targetWidth) + (height - targetHeight), onProgress)
  }

  lemma ResizedByParts(data: seq<Byte>, width: nat, height: nat, targetWidth: int, targetHeight: int,
                       onProgress: Option<Progress -> bool>, trace: seq<Image>, result: Image,
                       plan: seq<Dir>, totalSeams: int)
    requires plan == Schedule(width - targetWidth, height - targetHeight)
    requires totalSeams == (width - targetWidth) + (height - targetHeight)
    requires Carried(Carve, trace, plan) && trace[0] == Image(data, width, height) && result == trace[|trace| - 1]
    requires Reported(trace, plan, 0, totalSeams, onProgress)
    ensures Resized(data, width, height, targetWidth, targetHeight, onProgress, trace, result)
  {
  }

  /** What `Resize` returns is the run of the schedule from the input image. */
  lemma ResizedIsRun(data: seq<Byte>, width: nat, height: nat, targetWidth: int, targetHeight: int,
                     onProgress: Option<Progress -> bool>, trace: seq<Image>, result: Image)
    requires Resized(data, width, height, targetWidth, targetHeight, onProgress, trace, result)
    ensures result == Run(Carve, Image(data, width, height), Schedule(width - targetWidth, height - targetHeight), 0,
                          (width - targetWidth) + (height - targetHeight), onProgress)
  {
    TraceIsRun(Carve, trace, Schedule(width - targetWidth, height - targetHeight), 0,
               (width - targetWidth) + (height - targetHeight), onProgress);
  }

  /**
   * Without a callback, or with one that accepts every report, `Resize`
   * carries out the whole schedule and reaches the target size (a side
   * already no larger than its target is kept).
   */
  lemma ResizedWithoutStop(data: seq<Byte>, width: nat, height: nat, targetWidth: int, targetHeight: int,
                           onProgress: Option<Progress -> bool>, trace: seq<Image>, result: Image)
    requires IsPixelBuffer(data, width, height) && CanResize(width, height, targetWidth, targetHeight)
    requires onProgress.Some? ==> forall p :: onProgress.value(p)
    requires Resized(data, width, height, targetWidth, targetHeight, onProgress, trace, result)
    ensures result == After(Carve, Image(data, width, height), Schedule(width - targetWidth, height - targetHeight))
    ensures result.width == (if targetWidth < width then targetWidth else width)
    ensures result.height == (if targetHeight < height then targetHeight else height)
  {
    ResizedIsRun(data, width, height, targetWidth, targetHeight, onProgress, trace, result);
    RunReachesTarget(data, width, height, targetWidth, targetHeight, onProgress);
  }

  /**
   * When neither side is larger than its target, `Resize` makes no carve and
   * no report, and returns the input image.
   */
  lemma ResizedUnchanged(data: seq<Byte>, width: nat, height: nat, targetWidth: int, targetHeight: int,
                         onProgress: Option<Progress -> bool>, trace: seq<Image>, result: Image)
    requires width <= targetWidth && height <= targetHeight
    requires Resized(data, width, height, targetWidth, targetHeight, onProgress, trace, result)
    ensures |trace| == 1 && result == Image(data, width, height)
  {
    assert Schedule(width - targetWidth, height - targetHeight) == [];
  }

  /** A run of the whole schedule that no report stops reaches the target size. */
  lemma RunReachesTarget(data: seq<Byte>, width: nat, height: nat, targetWidth: int, targetHeight: int,
                         onProgress: Option<Progress -> bool>)
    requires IsPixelBuffer(data, width, height) && CanResize(width, height, targetWidth, targetHeight)
    requires onProgress.Some? ==> forall p :: onProgress.value(p)
    ensures var img, plan := Image(data, width, height), Schedule(width - targetWidth, height - targetHeight);
      var out := Run(Carve, img, plan, 0, (width - targetWidth) + (height - targetHeight), onProgress);
      out == After(Carve, img, plan) && Valid(out) &&
      out.width == (if targetWidth < width then targetWidth else width) &&
      out.height == (if targetHeight < height then targetHeight else height)
  {
    var img, plan := Image(data, width, height), Schedule(width - targetWidth, height - targetHeight);
    RunWithoutStop(Carve, img, plan, 0, (width - targetWidth) + (height - targetHeight), onProgress);
    ScheduleReachesTarget(data, width, height, targetWidth, targetHeight);
  }

  /**
   * One carve of `resize` and its report: carve `current` in direction `d`,
   * record the result in the trace and report it as carve number
   * `seamsRemoved + 1`; `stop` tells whether the callback answered `false`.
   */
  method CarveAndReport(current: Image, d: Dir, seamsRemoved: nat, totalSeams: int,
                        onProgress: Option<Progress -> bool>, ghost plan: seq<Dir>, ghost trace: seq<Image>)
    returns (next: Image, stop: bool, ghost trace': seq<Image>)
    requires CanCarve(current)
    requires Carried(Carve, trace, plan) && |trace| == seamsRemoved + 1 && current == trace[seamsRemoved]
    requires seamsRemoved < |plan| && plan[seamsRemoved] == d
    requires AllAccepted(trace, totalSeams, onProgress)
    ensures Valid(next)
    ensures d == Vertical ==> next.width == current.width - 1 && next.height == current.height
    ensures d == Horizontal ==> next.width == current.width && next.height == current.height - 1
    ensures trace' == trace + [next] && Carried(Carve, trace', plan)
    ensures stop == Refuses(onProgress, Report(next, seamsRemoved + 1, totalSeams))
    ensures stop ==> Reported(trace', plan, 0, totalSeams, onProgress)
    ensures !stop ==> AllAccepted(trace', totalSeams, onProgress)
  {
    assert trace[|trace| - 1] == current && plan[|trace| - 1] == d;
    if d == Vertical {
      next := CarveVertical(current);
    } else {
      next := CarveHorizontal(current);
    }
    assert next == Carve(current, d);
    CarriedExtends(Carve, trace, plan, next);
    trace' := trace + [next];
    stop := Notify(onProgress, Report(next, seamsRemoved + 1, totalSeams));
    if stop {
      ReportedOnRefusal(trace, next, plan, totalSeams, onProgress);
    } else {
      AcceptedExtends(trace, next, totalSeams, onProgress);
    }
  }

  /**
   * The resizer's state after `seamsRemoved` carves of `plan`: `current` is
   * the last image of `trace`, which carries out those carves, and every
   * report so far was accepted.
   */
  ghost predicate Progressing(current: Image, trace: seq<Image>, plan: seq<Dir>, seamsRemoved: nat,
                              totalSeams: int, onProgress: Option<Progress -> bool>)
  {
    Valid(current) && Carried(Carve, trace, plan) && |trace| == seamsRemoved + 1 && current == trace[seamsRemoved] &&
    AllAccepted(trace, totalSeams, onProgress)
  }

  /**
   * The first loop of `resize`: while both kinds of seam remain, one
   * vertical carve then one horizontal carve, each reported. `stop` tells
   * whether a report was refused, which ends `resize` with `current`.
   */
  method RemovePairs(current: Image, vertSeams: int, horSeams: int, seamsRemoved: nat, totalSeams: int,
                     targetWidth: int, targetHeight: int, onProgress: Option<Progress -> bool>,
                     ghost plan: seq<Dir>, ghost trace: seq<Image>)
    returns (current': Image, vertSeams': int, horSeams': int, seamsRemoved': nat, stop: bool,
             ghost trace': seq<Image>)
    requires Progressing(current, trace, plan, seamsRemoved, totalSeams, onProgress)
    requires CanResize(current.width, current.height, targetWidth, targetHeight)
    requires current.width - targetWidth == vertSeams && current.height - targetHeight == horSeams
    requires seamsRemoved <= |plan| && plan[seamsRemoved..] == Schedule(vertSeams, horSeams)
    ensures |trace'| >= 1 && trace'[0] == trace[0] && current' == trace'[|trace'| - 1]
    ensures stop ==> Valid(current') && Carried(Carve, trace', plan) && Reported(trace', plan, 0, totalSeams, onProgress)
    ensures stop ==> |trace'| == seamsRemoved' + 1 && Refuses(onProgress, Report(current', seamsRemoved', totalSeams))
    ensures !stop ==>
              Progressing(current', trace', plan, seamsRemoved', totalSeams, onProgress) &&
              !(vertSeams' > 0 && horSeams' > 0) &&
              CanResize(current'.width, current'.height, targetWidth, targetHeight) &&
              current'.width - targetWidth == vertSeams' && current'.height - targetHeight == horSeams' &&
              seamsRemoved' <= |plan| && plan[seamsRemoved'..] == Schedule(vertSeams', horSeams')
  {
    current', vertSeams', horSeams', seamsRemoved', stop, trace' := current, vertSeams, horSeams, seamsRemoved, false, trace;
    while vertSeams' > 0 && horSeams' > 0
      invariant Progressing(current', trace', plan, seamsRemoved', totalSeams, onProgress)
      invariant CanResize(current'.width, current'.height, targetWidth, targetHeight)
      invariant current'.width - targetWidth == vertSeams' && current'.height - targetHeight == horSeams'
      invariant seamsRemoved' <= |plan| && plan[seamsRemoved'..] == Schedule(vertSeams', horSeams')
      invariant trace'[0] == trace[0] && !stop
      decreases vertSeams'
    {
      ghost var rest := Schedule(vertSeams', horSeams');
      assert rest[0] == Vertical && rest[1] == Horizontal && rest[2..] == Schedule(vertSeams' - 1, horSeams' - 1);
      assert plan[seamsRemoved'] == rest[0] && plan[seamsRemoved' + 1] == rest[1];
      current', stop, trace' := CarveAndReport(current', Vertical, seamsRemoved', totalSeams, onProgress, plan, trace');
      vertSeams' := vertSeams' - 1;
      seamsRemoved' := seamsRemoved' + 1;
      if stop {
        return;
      }

      current', stop, trace' := CarveAndReport(current', Horizontal, seamsRemoved', totalSeams, onProgress, plan, trace');
      horSeams' := horSeams' - 1;
      seamsRemoved' := seamsRemoved' + 1;
      if stop {
        return;
      }
      assert plan[seamsRemoved'..] == rest[2..];
    }
  }

  /**
   * The second loop of `resize`: the seams of whichever kind is left, each
   * carve reported, until the plan is done or a report is refused.
   */
  method RemoveRest(current: Image, vertSeams: int, horSeams: int, seamsRemoved: nat, totalSeams: int,
                    targetWidth: int, targetHeight: int, onProgress: Option<Progress -> bool>,
                    ghost plan: seq<Dir>, ghost trace: seq<Image>)
    returns (current': Image, ghost trace': seq<Image>)
    requires Progressing(current, trace, plan, seamsRemoved, totalSeams, onProgress)
    requires !(vertSeams > 0 && horSeams > 0)
    requires CanResize(current.width, current.height, targetWidth, targetHeight)
    requires current.width - targetWidth == vertSeams && current.height - targetHeight == horSeams
    requires seamsRemoved <= |plan| && plan[seamsRemoved..] == Schedule(vertSeams, horSeams)
    ensures |trace'| >= 1 && trace'[0] == trace[0] && current' == trace'[|trace'| - 1]
    ensures Valid(current') && Carried(Carve, trace', plan) && Reported(trace', plan, 0, totalSeams, onProgress)
  {
    current', trace' := current, trace;
    var seamsRemoved': nat := seamsRemoved;
    var remainingVertical := vertSeams > 0;
    var remaining := if vertSeams > horSeams then vertSeams else horSeams;
    var direction := if remainingVertical then Vertical else Horizontal;
    assert Schedule(vertSeams, horSeams) == seq(Max0(remaining), _ => direction);
    var i := 0;
    while i < remaining
      invariant Progressing(current', trace', plan, seamsRemoved', totalSeams, onProgress)
      invariant CanResize(current'.width, current'.height, targetWidth, targetHeight)
      invariant remainingVertical ==>
                  current'.width - targetWidth == vertSeams - i && current'.height - targetHeight == horSeams
      invariant !remainingVertical ==>
                  current'.width - targetWidth == vertSeams && current'.height - targetHeight == horSeams - i
      invariant seamsRemoved' <= |plan| && plan[seamsRemoved'..] == seq(Max0(remaining - i), _ => direction)
      invariant trace'[0] == trace[0]
    {
      ghost var rest := seq(Max0(remaining - i), _ => direction);
      assert rest[0] == direction && rest[1..] == seq(Max0(remaining - (i + 1)), _ => direction);
      assert plan[seamsRemoved'] == rest[0];
      var stop;
      current', stop, trace' := CarveAndReport(current', direction, seamsRemoved', totalSeams, onProgress, plan, trace');
      seamsRemoved' := seamsRemoved' + 1;
      if stop {
        return;
      }
      i := i + 1;
    }
    assert plan[seamsRemoved'..] == [];
    ReportedWhole(trace', plan, totalSeams, onProgress);
  }

  /**
   * `resize`: removes `width - targetWidth` vertical and `height - targetHeight`
   * horizontal seams in the order of `Schedule`, reporting after each carve.
   * `trace` is the image before each carve made and after the last one.
   */
  method Resize(data: seq<Byte>, width: nat, height: nat, targetWidth: int, targetHeight: int,
                onProgress: Option<Progress -> bool>) returns (result: Image, ghost trace: seq<Image>)
    requires IsPixelBuffer(data, width, height)
    requires CanResize(width, height, targetWidth, targetHeight)
    ensures Resized(data, width, height, targetWidth, targetHeight, onProgress, trace, result)
    ensures Valid(result)
  {
    var current := Image(data, width, height);
    ghost var plan := Schedule(width - targetWidth, height - targetHeight);
    trace := [current];
    var vertSeams := width - targetWidth;
    var horSeams := height - targetHeight;
    var totalSeams := vertSeams + horSeams;
    var seamsRemoved: nat := 0;
    var stop;
    current, vertSeams, horSeams, seamsRemoved, stop, trace :=
      RemovePairs(current, vertSeams, horSeams, seamsRemoved, totalSeams, targetWidth, targetHeight,
                  onProgress, plan, trace);
    if !stop {
      current, trace := RemoveRest(current, vertSeams, horSeams, seamsRemoved, totalSeams,
                                   targetWidth, targetHeight, onProgress, plan, trace);
    }
    ResizedByParts(data, width, height, targetWidth, targetHeight, onProgress, trace, current, plan, totalSeams);
    result := current;
  }
}
