/**
 * Frame-size admission of the capture pipeline (frame/snapshot.go).
 *
 * A capture device reports, for each pixel format, a list of frame sizes in
 * the form of the Linux V4L2 frame-size enumeration (VIDIOC_ENUM_FRAMESIZES):
 * a discrete size is a range whose minimum and maximum coincide and whose
 * step is zero, a stepwise size is a minimum, a maximum and a non-zero step.
 * Opening a device succeeds only when the requested resolution is one of them.
 */
module Snapshot {
  import opened Wrappers
  import opened Arith

  const Uint32Modulus := 0x1_0000_0000

  /** Go's `uint32`. */
  type uint32 = x: int | 0 <= x < Uint32Modulus

  /** Go's conversion `uint32(v)` of a machine `int`: keeps the low 32 bits. */
  function ToUint32(v: int): (r: uint32)
    ensures 0 <= v < Uint32Modulus ==> r == v
    ensures (v - r) % Uint32Modulus == 0
  {
    v % Uint32Modulus
  }

  /** One entry of the driver's frame-size list for a pixel format. */
  datatype FrameSize = FrameSize(
    MinWidth: uint32, MaxWidth: uint32, StepWidth: uint32,
    MinHeight: uint32, MaxHeight: uint32, StepHeight: uint32)

  /** The k-th size of a stepwise range starting at `min`. */
  function GridPoint(min: uint32, step: uint32, k: nat): (p: int)
  {
    min + k * step
  }

  /**
   * Reference reading of a (min, max, step) range: a discrete size admits
   * exactly its one value, a stepwise range admits min, min + step,
   * min + 2*step, ... up to max.
   */
  ghost predicate Admits(min: uint32, max: uint32, step: uint32, val: uint32)
  {
    if step == 0 then min == max && val == min
    else min <= val <= max && exists k: nat :: val == GridPoint(min, step, k)
  }

  /**
   * canFit: a fixed size matches exactly; a stepwise range matches a value in
   * bounds that lies on the step grid. The `&&` chain short-circuits, so the
   * subtraction is only reached when `val >= min` (the conversion back to
   * uint32 is checked not to wrap) and the remainder only when `step != 0`.
   */
  function CanFit(min: uint32, max: uint32, step: uint32, val: uint32): (r: bool)
    ensures r ==> min <= val <= max
    ensures step == 0 ==> (r <==> min == max && val == min)
  {
    if min == max && step == 0 && val == min then true
    else step != 0 && val >= min && val <= max && ((val - min) as uint32) % step == 0
  }

  /** canFit agrees with the V4L2 reading of a frame-size range, in both directions. */
  lemma CanFitAdmits(min: uint32, max: uint32, step: uint32, val: uint32)
    ensures CanFit(min, max, step, val) <==> Admits(min, max, step, val)
  {
    if step != 0 {
      if CanFit(min, max, step, val) {
        var k: nat := (val - min) / step;
        assert val - min == k * step + (val - min) % step;
        assert val == GridPoint(min, step, k);
      }
      if Admits(min, max, step, val) {
        var k: nat :| val == GridPoint(min, step, k);
        MultipleHasNoRemainder(k, step);
      }
    }
  }

  /** Match: the requested width and height, truncated to uint32, both fit their ranges. */
  function Match(fs: FrameSize, w: int, h: int): (r: bool)
    ensures r ==> fs.MinWidth <= ToUint32(w) <= fs.MaxWidth
    ensures r ==> fs.MinHeight <= ToUint32(h) <= fs.MaxHeight
  {
    CanFit(fs.MinWidth, fs.MaxWidth, fs.StepWidth, ToUint32(w)) &&
    CanFit(fs.MinHeight, fs.MaxHeight, fs.StepHeight, ToUint32(h))
  }

  /** A frame size admits a resolution iff each dimension is admitted by its own range. */
  lemma MatchAdmits(fs: FrameSize, w: int, h: int)
    ensures Match(fs, w, h) <==>
      Admits(fs.MinWidth, fs.MaxWidth, fs.StepWidth, ToUint32(w)) &&
      Admits(fs.MinHeight, fs.MaxHeight, fs.StepHeight, ToUint32(h))
  {
    CanFitAdmits(fs.MinWidth, fs.MaxWidth, fs.StepWidth, ToUint32(w));
    CanFitAdmits(fs.MinHeight, fs.MaxHeight, fs.StepHeight, ToUint32(h));
  }

  /** A discrete size admitting its value, an off-grid value rejected and an on-grid value admitted by a stepwise range. */
  lemma CanFitExamples()
    ensures CanFit(100, 100, 0, 100)
    ensures !CanFit(100, 200, 10, 105)
    ensures CanFit(100, 200, 10, 110)
  {
  }

  /** The resolution-selection failure of Open; the other failures of Open are not part of this model. */
  datatype OpenError = UnsupportedResolution(device: string, w: int, h: int)

  /** Some entry of the reported size list admits the resolution. */
  ghost predicate Supported(sizes: seq<FrameSize>, w: int, h: int)
  {
    exists i :: 0 <= i < |sizes| && Match(sizes[i], w, h)
  }

  /**
   * The frame-size search of Open: scan the reported sizes, set `found` and
   * stop at the first one that matches, and fail with an unsupported-resolution
   * error when none does. `at` is the index at which the scan stopped.
   */
  method CheckResolution(device: string, sizes: seq<FrameSize>, w: int, h: int)
    returns (err: Option<OpenError>, ghost at: nat)
    ensures err.None? <==> Supported(sizes, w, h)
    ensures err.Some? ==> err.value == UnsupportedResolution(device, w, h)
    ensures err.None? ==> at < |sizes| && Match(sizes[at], w, h)
    ensures err.None? ==> forall j :: 0 <= j < at ==> !Match(sizes[j], w, h)
  {
    var found := false;
    at := 0;
    for i := 0 to |sizes|
      invariant !found
      invariant forall j :: 0 <= j < i ==> !Match(sizes[j], w, h)
    {
      if Match(sizes[i], w, h) {
        found := true;
        at := i;
        break;
      }
    }
    if !found {
      return Some(UnsupportedResolution(device, w, h)), at;
    }
    err := None;
  }
}
