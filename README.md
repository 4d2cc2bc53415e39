# Webcam frame admission and RGB3 decoding, modelled in Dafny

This project models two sequential pieces of a webcam capture library written in Go.

- **Frame-size admission** (`frame/snapshot.go`). A device reports its supported sizes per pixel format as `(min, max, step)` ranges for width and height. These follow the discrete/stepwise frame-size description of the Linux V4L2 frame-size enumeration (`VIDIOC_ENUM_FRAMESIZES`). `canFit` decides whether one dimension fits a range. `Match` needs both dimensions to fit. `Open` searches the size list and fails with an unsupported-resolution error when no entry matches. Module `Snapshot` holds this part.
- **The packed 24-bit RGB decoder** (`frame/rgb3.go`). `newFramerRGB3` precomputes the expected buffer size and the row width used for addressing. This depends on whether padding is on: rows rounded up to 32 pixels, row count rounded up to 16. `frameRGB3` rejects a buffer of the wrong length and hands it straight back to the driver through its release callback. Otherwise it wraps the buffer without copying. A frame reads pixels with `At`, reports its `Bounds`, and gives the buffer back with `Release`. Module `RGB3` holds this part.

Modelling choices:
- Go's `uint32` is a subset type of `int`. Because `CanFit` converts `val - min` back to `uint32`, the verifier checks that the subtraction cannot underflow. It also checks that `% step` is never taken with `step == 0`.
- `uint32(w)` is `w % 2^32`.
- For the power-of-two alignments 32 and 16, `x &^ (a-1)` is `x - x % a` (`ClearLowBits`): clearing the low bits of a two's-complement integer floors it to a multiple of `a`.
- A release callback (`func()`, possibly nil) is a nullable `Releaser` object. Its `calls` counter records every invocation.
- A raw buffer is an `array<byte>`. A frame keeps the very array it was given, so "no copy" is reference equality.
- The global padding flag is the `padded` parameter of `NewFramerRGB3`.

Without padding the buffer must hold `3*h*w` bytes (`frame/rgb3.go:29`), i.e. `h` rows of `w` pixels. Yet `bw` is only assigned in the padded branch (`frame/rgb3.go:24-26`), so the stored row width is 0 and `At` reads offset `3*x` for every row. The model keeps this behaviour as written. See "## Findings".

## Model

| member | source | states |
|---|---|---|
| `Snapshot.ToUint32` | frame/snapshot.go:177-178 | The `uint32(w)` conversion keeps `w` unchanged when it is in range and otherwise differs from it by a multiple of 2^32. |
| `Snapshot.CanFit` | frame/snapshot.go:181-187 | A fit implies `min <= val <= max`. With step 0, a value fits exactly when `min == max == val`, so a zero-step range with `min != max` never fits. The body is checked free of uint32 underflow and division by zero. |
| `Snapshot.CanFitAdmits` | frame/snapshot.go:181-187 | `canFit` holds iff the V4L2 reading of the range admits the value. That reading is: a discrete size is its one value; a stepwise range is `min + k*step` for some `k >= 0`, up to `max`. Both directions are proved. |
| `Snapshot.CanFitExamples` | frame/snapshot.go:181-187 | `canFit(100,100,0,100)` holds, `canFit(100,200,10,105)` does not, `canFit(100,200,10,110)` does. |
| `Snapshot.Match` | frame/snapshot.go:176-179 | A match puts the truncated width and height inside their ranges' bounds. |
| `Snapshot.MatchAdmits` | frame/snapshot.go:176-179 | `Match` holds iff the width range admits `uint32(w)` and the height range admits `uint32(h)`. |
| `Snapshot.CheckResolution` | frame/snapshot.go:90-99 | The size search succeeds iff some listed size matches. It stops at the first matching entry, with no earlier entry matching. Otherwise it fails with an unsupported-resolution error naming the device, width and height, which includes the empty list. |
| `RGB3.ClearLowBits` | frame/rgb3.go:26-27 | `x &^ (a-1)` is a multiple of `a` with `r <= x < r + a`. |
| `RGB3.RoundUp` | frame/rgb3.go:26-27 | `(x + a-1) &^ (a-1)` for `a` = 32 or 16 is a multiple of `a` with `x <= r < x + a`. |
| `RGB3.RoundUpIsLeastMultiple` | frame/rgb3.go:26-27 | `(x + a-1) &^ (a-1)` is the least multiple of `a` that is at least `x`, and it lies below `x + a`. |
| `RGB3.NewFramerRGB3` | frame/rgb3.go:23-33 | Padded: `bw` is a multiple of 32 with `w <= bw < w + 32`, and size is `3 * bw * rows` with rows rounded up to 16. Unpadded: `bw` stays 0 and size is `3*w*h`. The size fits a 64-bit Go `int`. |
| `RGB3.SizeFits` | frame/rgb3.go:27-29 | The product `3 * a * b` cannot overflow a Go `int` for dimensions up to 2^30. |
| `RGB3.PaddedExample` | frame/rgb3.go:26-27 | A padded 50x10 frame gets row width 64 and size 3072. |
| `RGB3.FrameRGB3` | frame/rgb3.go:37-45 | It fails iff the buffer length differs from the size. The error carries the expected and actual lengths. The callback runs exactly once on failure when non-nil, and never on success. On success the frame is new and holds the same buffer, the callback, row width `bw` and bounds `Rect(0,0,w,h)`. |
| `RGB3.Decode` | frame/rgb3.go:31-33 | The decoding closure applies the framer's size and geometry. A successful result is a frame the framer accepts. |
| `RGB3.Rect` | frame/rgb3.go:44 | `image.Rect` keeps the given corners, swapped where needed, so `Min` is at or below `Max` on both axes. `{Min.X, Max.X}` is `{x0, x1}` and `{Min.Y, Max.Y}` is `{y0, y1}`. |
| `RGB3.Frame.Bounds` | frame/rgb3.go:51-53 | It returns the rectangle stored when the buffer was wrapped. For a frame from `FrameRGB3` that is `Rect(0,0,w,h)`, as `AcceptedBounds` spells out. |
| `RGB3.Frame.At` | frame/rgb3.go:55-58 | The colour is the three bytes at offset `width*y*3 + x*3`, as red, green and blue, with alpha 0xFF. |
| `RGB3.Frame.Release` | frame/rgb3.go:61-65 | The callback is invoked exactly once when non-nil. Nothing is invoked when it is nil. |
| `RGB3.DecodeAndRelease` | frame/rgb3.go:38-65 | Decoding a buffer and then releasing the frame on success hands the buffer back exactly once on either path. |
| `RGB3.AcceptedBounds` | frame/rgb3.go:51-53 | The bounds of an accepted frame are `(0,0)-(w,h)`, so the pixel domain is exactly `[0,w) x [0,h)`. |
| `RGB3.AtInBounds` | frame/rgb3.go:55-57 | For an accepted frame, in both modes, the bytes `At` reads lie inside the buffer for every in-bounds pixel. |
| `RGB3.UnpaddedAtIgnoresRow` | frame/rgb3.go:24-29 | Without padding, `At(x, y) == At(x, 0)` for every in-bounds pixel. |
| `RGB3.UnpaddedSecondRowReadsFirst` | frame/rgb3.go:55-57 | On an unpadded 2x2 frame holding bytes 0..11, pixel (0,1) reads bytes 0..2 and not bytes 6..8. |
| `RGB3.NewFramerRGB3Corrected` | frame/rgb3.go:23-30 | This is the same framer except that the unpadded row width equals the width. |
| `RGB3.CorrectedAddressing` | frame/rgb3.go:55-57 | With the corrected framer, every in-bounds read stays inside the buffer. An unpadded pixel `(x, y)` is read at `3*(w*y + x)`. |

## Left out

- The background capture loop, its non-blocking `select` and its drop, deliver and stop branches (`frame/snapshot.go:132-163`). Also left out: `Snap`'s channel receive and the stop/drain handshake of `Close` (`frame/snapshot.go:47-59, 121-130`). These are goroutine and channel concurrency, where Go's `select` picks nondeterministically.
- The device plumbing of `Open`. This covers format lookup, opening the device, the supported-format query, `SetImageFormat`, the buffer count, auto white balance, starting the stream and the deferred rollback. The `GetControl`/`SetControl` pass-throughs are also left out. Most of these are calls into the external webcam driver package, which is not part of this model. The format lookup `FourCCToPixelFormat` (`frame/snapshot.go:63`) is this package's own code, defined in a file that is not part of this model. The deferred rollback (`frame/snapshot.go:75-80`) closes the stream channel and runs `Close`, the stop/drain handshake left out above. The notice printed when the driver adjusts the format (`frame/snapshot.go:105-107`) is logging. The list of sizes the driver reports is a parameter of `CheckResolution`.
- `RegisterFramer`, `GetFramer`, `FourCCToPixelFormat` and the `padded` command-line flag are defined in files that are not part of this model. Padding is a parameter.
- `ColorModel` returns a constant of Go's image library and states nothing about the buffer.
- Error message text: errors are datatypes carrying their values (device, width, height; expected and actual length).
- Go's `image` and `color` types are small datatypes of the model (`Point`, `Rectangle`, `Rect`, `RGBA`).
- NewFramerRGB3: requires `0 <= w, h <= 2^30` instead of modelling the wrap-around of Go's 64-bit `int` in `3*bw*rows`. Within that bound the size is proved not to overflow.
- RGB3.Frame.At: requires the byte offset to lie inside the buffer. Go panics instead on an out-of-range index. `AtInBounds` shows that in-bounds pixels of an accepted frame always meet this requirement. The offset is computed over unbounded integers. Go's 64-bit `f.width*y*3 + x*3` wraps once a coordinate passes about 2^63/(3*width), and can then land inside the buffer: `At(0, 2^58)` on a 64-pixel-wide frame reads pixel (0,0). The model excludes those inputs. For in-bounds pixels of an accepted frame nothing wraps, because every term is non-negative and the offset is below `size <= MaxInt`.

## Findings

| source | as written | input that shows it | evidently intended | confidence | as-written member | corrected member |
|---|---|---|---|---|---|---|
| frame/rgb3.go:24-29 | Without padding, the row width `bw` is never assigned and stays 0. `At` therefore reads offset `3*x` and ignores `y`, so every row shows row 0. | Unpadded 2x2 frame, buffer bytes 0..11: `At(0, 1)` returns (0, 1, 2) instead of the second row's (6, 7, 8). | The row width equals the frame width, so pixel `(x, y)` is at `3*(w*y + x)`. | not executed; follows from the code by proof | `RGB3.UnpaddedSecondRowReadsFirst` | `RGB3.CorrectedAddressing` |
