# AR image-sequence player: playback state model

A Dafny model of the playback core of `ARVideoPlayer`, the browser player that
shows a 180-frame image sequence on a tracked marker. It covers:

- the frame caches: two 180-entry arrays (`imageCache`, `textureCache`) that
  per-frame load callbacks fill in whatever order the loads settle. The
  closure counters `loadedCount` and `textureCreatedCount` decide when the
  batch is ready;
- the frame clock: one interval tick, while the target is tracked, publishes
  the current frame and moves the cursor on, looping back to frame 1 after
  frame 180; an untracked tick does nothing;
- start, stop, the tracking events (target found, target lost), the play and
  pause guards and the page-hidden stop;
- the `displayFrame` guards, which decide whether a frame reaches the renderer;
- two pure helpers: the zero-padded asset path `assets/ImageNNNNN.png` and the
  camera-error message selection.

JavaScript runs every callback to completion on one thread. Each callback is
therefore one method call on the `Player.ARVideoPlayer` class. Its ghost
`Valid()` invariant ties the fields together:

- the cursor stays in `1..totalFrames`;
- `isPlaying` holds exactly when an interval is armed, and only once all loads
  have settled;
- the counters equal the sizes of the ghost sets of settled and textured frames;
- `imagesLoaded` holds exactly when every load has settled;
- every cache entry is what its frame's settled load left there.

The renderer's texture swap is an output. A method that would swap a texture
returns a `Publication` (frame, image source, texture) instead. The pure parts
are separate modules:

- `FramePaths`: asset naming;
- `CameraErrors`: the error-message selection;
- `FrameClock`: cursor arithmetic over several ticks.

Five behaviours of the code that a reader might not expect, all modelled as written:

- A successful load whose texture constructor throws leaves the image in
  `imageCache` but the texture entry unwritten (a hole). So after ready, a frame
  can have an image without a texture. It never has a texture without an image
  (`ReadyCachesComplete`). An image-and-texture pair can therefore be partial.
- The "Failed to load images" error is checked only in the error callback. It
  is raised when the last load to settle fails and no texture was created
  (`OnImageError`). So it is raised when every load fails. It is also raised
  when the only successful image loads all failed to make a texture. It is not
  raised if the last load to settle succeeds with no texture after all others
  failed.
- `displayFrame` does not test `isPlaying`: the first-frame retry calls it
  before playback starts. Ticks themselves fire only while the interval exists,
  which is exactly while playing. `startFramePlayback` publishes once
  immediately, even while the target is not tracked.
- A start publishes frame 1 several times before the clock moves. Each retry
  attempt of a target-found event calls `displayFrame` on frame 1. A
  successful start then publishes it once more at once through
  `startFramePlayback`, and the first tick publishes frame 1 again before the
  cursor moves to 2 (`StartThenFirstTick`). Only from there do the ticks
  publish 1, 2, 3, ... (`PlayTicks`, `FirstSeconds`).
- Losing the target does not cancel a start already in flight. `onTargetLost`
  clears neither the 300 ms start timer of a target-found event, its 100 ms
  retries, nor the readiness poll. So a target lost just after being found (or
  while images still load) is followed by the start anyway: it rewinds to
  frame 1, publishes it, arms the interval and shows the controls while the
  target is untracked (`LoseBeforeDelayedStart`). Ticks then publish nothing
  until the target is found again. What a loss does guarantee is that no
  interval is left and the play button publishes nothing until the next
  target-found event (`LoseThenPlay`).

## Model

| member | source | states |
|---|---|---|
| FramePaths.Digits | js/main.js:324 | `String(i)` is a non-empty string of decimal digits |
| FramePaths.PadStart | js/main.js:324 | `padStart`: unchanged when already wide enough, otherwise exactly `width` long, fill characters in front, original string at the end |
| FramePaths.FramePath | js/main.js:324-325 | the path is `assets/Image`, then the padded frame number, then `.png`, and the number can be cut back out of the path |
| FramePaths.DigitsValue | js/main.js:324 | reading the decimal form of n back gives n |
| FramePaths.FrameNumberValue | js/main.js:324 | the zero-padded frame number still reads back as the frame index |
| FramePaths.FrameNumberLength | js/main.js:324-325 | frames below 100000 get exactly 5 digits, so every path is 21 characters |
| FramePaths.FramePathInjective | js/main.js:323-325 | two frames share a path if and only if they are the same frame |
| FramePaths.FramePathsDistinctAndAligned | js/main.js:323-325 | frames 1..n (n < 100000) have pairwise distinct paths of equal length 21 |
| FramePaths.FramePathSeven | js/main.js:403-404 | frame 7 is `assets/Image00007.png` |
| CameraErrors.Classify | js/main.js:158-164 | each of the three error names, matched exactly, selects its own failure kind; every other name is `Other` |
| CameraErrors.HandleCameraError | js/main.js:155-167 | the generic message appears if and only if the name is none of the three; each of the three gets its specific message |
| CameraErrors.MessagesDistinct | js/main.js:156-164 | the four messages are pairwise different |
| CameraErrors.SameMessageSameFailure | js/main.js:155-167 | two error names give the same message exactly when they denote the same failure |
| FrameClock.Advance | js/main.js:467-472 | one tracked tick keeps the cursor in 1..n, moves it forward by one, and after frame n goes back to 1 |
| FrameClock.AdvanceByInRange | js/main.js:461-473 | any number of tracked ticks keeps the cursor in 1..n |
| FrameClock.AdvanceByNoWrap | js/main.js:467-472 | before the last frame, k ticks move the cursor k frames forward |
| FrameClock.AdvanceByCompose | js/main.js:461-473 | a ticks then b ticks are a + b ticks |
| FrameClock.WrapLaw | js/main.js:467-472 | n tracked ticks over n frames return the cursor to its start |
| FrameClock.PublishedConsecutive | js/main.js:461-473 | without a wrap, k ticks from frame c publish c, c+1, ..., c+k-1 in order |
| FrameClock.PublishedSplit | js/main.js:461-473 | the frames published by k + m ticks are those of the first k, then those of the next m from where the cursor stopped |
| FrameClock.FirstSeconds | js/main.js:459-474 | over n >= 2·fps frames (24 and 180 here), the first fps ticks from cursor 1 publish frames 1..fps in order and the next fps ticks fps+1..2·fps; the start's own publications of frame 1 come before these |
| Player.PreloadPathsDistinct | js/main.js:323-325 | the 180 preload requests never share a path, and all of them are 21 characters long |
| Player.BatchAfterSettle | js/main.js:363-368 | before frame i settles the batch is not ready; settling it counts exactly once, and the batch becomes ready exactly when no frame is left |
| Player.BatchAfterLoad | js/main.js:329-358 | a successful load keeps the counters equal to the settled and textured frame sets, with textureCreatedCount <= loadedCount <= totalFrames |
| Player.BatchAfterError | js/main.js:361-372 | a failed load keeps the counters consistent; once every frame has failed, the batch is ready with no texture |
| Player.CachesAgreeAfterLoad | js/main.js:329-339 | a successful load writes the image at i-1, and the texture only if one was created; every other entry stays as it was |
| Player.CachesAgreeAfterError | js/main.js:361-366 | a failed load writes null at i-1 in both caches; every other entry stays as it was |
| Player.ARVideoPlayer.constructor | js/main.js:3-18 | 180 frames, cursor on frame 1, nothing loaded, not playing, no interval, not tracked |
| Player.ARVideoPlayer.CountersBounded | js/main.js:303-304 | textureCreatedCount <= loadedCount <= totalFrames |
| Player.ARVideoPlayer.ReadyIffAllSettled | js/main.js:353-354 | `imagesLoaded` holds exactly when every frame's load has settled, in whatever order |
| Player.ARVideoPlayer.ReadyCachesComplete | js/main.js:329-366 | once ready, no image entry is a hole (a texture entry can still be one), image and texture are null together, and a texture only sits beside an image |
| Player.ARVideoPlayer.Shown | js/main.js:386-400 | something is published exactly when all loads settled, the plane exists and the current frame loaded with a texture; it is the current frame and its texture |
| Player.ARVideoPlayer.DisplayFrame | js/main.js:386-404 | publishes nothing if images are not loaded, if the plane is missing, or if either cache entry of the current frame is absent; otherwise publishes the current frame, its path and its texture |
| Player.ARVideoPlayer.PreloadImages | js/main.js:323-325 | one request per frame, in frame order, request k for `FramePath(k+1)` |
| Player.ARVideoPlayer.InitializeARScene | js/main.js:169-200 | records whether the video plane exists and issues the preload requests |
| Player.ARVideoPlayer.OnImageLoad | js/main.js:329-359 | the count of settled loads goes up by exactly one; the image is stored at i-1; a texture is counted and stored only if one was created; ready exactly when all frames settled; textureCreatedCount <= loadedCount <= totalFrames |
| Player.ARVideoPlayer.OnImageError | js/main.js:361-377 | the count of settled loads goes up by exactly one; null is stored in both caches at i-1; the load failure is raised exactly when this was the last load and no texture exists, and always when every load failed |
| Player.ARVideoPlayer.Tick | js/main.js:461-473 | untracked: publishes nothing, cursor unchanged; tracked: publishes what displayFrame shows, then the cursor advances with loop-back |
| Player.ARVideoPlayer.StartFramePlayback | js/main.js:450-480 | no-op while playing; refuses before all loads have settled (still not playing, no interval); otherwise playing, interval armed, current frame published at once |
| Player.ARVideoPlayer.StopFramePlayback | js/main.js:482-489 | always ends not playing with no interval; nothing else changes |
| Player.ARVideoPlayer.OnTargetFound | js/main.js:531-586 | the target is tracked; playback is scheduled at once if ready, otherwise after polling for readiness |
| Player.ARVideoPlayer.StartPlayback | js/main.js:538-570 | cursor reset to 1; at most 10 attempts; a check succeeds only if the video plane exists and its mesh has a material map; succeeds at the first such attempt, and then playback runs and the controls are shown; gives up exactly when there is no plane or all 10 checks fail, changing nothing else |
| Player.ARVideoPlayer.OnTargetLost | js/main.js:588-595 | whatever the state before: not tracked, not playing, no interval, controls hidden, cursor on frame 1 |
| Player.ARVideoPlayer.OnPlayClicked | js/main.js:604-609 | starts playback only while tracked and not playing; otherwise changes nothing |
| Player.ARVideoPlayer.OnPauseClicked | js/main.js:612-617 | afterwards playback is stopped with no interval |
| Player.ARVideoPlayer.OnVisibilityChange | js/main.js:61-65 | hiding the page stops playback; showing it changes nothing |
| Player.PlayTicks | js/main.js:461-473 | k tracked ticks publish, in order, the cursors given by `Published` (each only if its frame has a texture and the plane exists) and leave the cursor at `AdvanceBy` |
| Player.StartThenFirstTick | js/main.js:538-556 | after target found, every publication of the delayed start is frame 1; on success the first tick publishes the same frame-1 publication again and moves the cursor to `Advance(1, totalFrames)`, which is 2 whenever there are at least two frames (180 for every constructed player) |
| Player.StartTwice | js/main.js:450-458 | the first start leaves the player playing exactly when it was playing or all loads had settled; a second start right after publishes nothing and leaves the clock as the first left it; nothing else changes |
| Player.StopTwice | js/main.js:482-489 | stopping once leaves the player stopped with no interval on the same frame; stopping again leaves exactly that state; nothing else changes |
| Player.LoseAndRefind | js/main.js:588-609 | after target lost, found and play, playback runs again from frame 1 |
| Player.LoseBeforeDelayedStart | js/main.js:538-595 | a target lost before the delayed start runs does not stop it: the target stays untracked, yet the start succeeds exactly when the plane exists and some check finds a map, and then playback runs and the controls are shown |
| Player.LoseThenPlay | js/main.js:588-609 | after a target loss no interval is left and the play button publishes nothing and starts nothing |

## Left out

- DOM and UI are not modelled: the loading screen, instructions, status toasts,
  the error panel, full-screen styling, `forceFullScreen`, `removeDebugOverlays`
  and `handleOrientationChange`. The one exception is the controls' visibility,
  a boolean field.
- Platform calls are not modelled: `getUserMedia`, the iOS orientation
  permission, `checkMobileDevice` and service-worker registration. The camera
  error enters the model only as the `name` string given to
  `HandleCameraError`.
- The renderer is not modelled. `THREE.Texture` construction is the
  `textureCreated` input of `OnImageLoad`. Whether the plane's mesh has a
  material map after attempt a is the `meshHasMap` parameter of
  `StartPlayback`. The two texture-update paths inside `displayFrame` are
  reduced to the returned `Publication`.
- Timing is not modelled: the 300 ms, 100 ms, 500 ms and 50 ms delays, the
  `1000 / fps` interval length, the `waitForAFrame` poll and the poll for
  readiness after a target-found event. Ticks and callbacks are explicit method
  calls.
- Player.ARVideoPlayer.StartPlayback: its 10 attempts run as one atomic call.
  In the code they are separate 100 ms timer callbacks, so other events (a
  target loss, a tick) may interleave. The model also shows the controls at
  once instead of 500 ms later.
- Player.ARVideoPlayer.StartPlayback requires `imagesLoaded`. Both of its
  callers in the code reach it only after that flag is set, and the flag is
  never cleared.
- Player.ARVideoPlayer.OnImageLoad and Player.ARVideoPlayer.OnImageError
  require that frame i has not settled yet. The code relies on each image
  firing onload or onerror at most once, but does not enforce it.
- Interval handles are reduced to a boolean `intervalActive` (`frameInterval !==
  null`). The readiness poll started by a target-found event is never cleared
  when images fail to appear; that leak is not modelled.
- The model has a single preload batch. The retry button re-runs
  `startARExperience` after any error panel. After the MindAR `arError` event or
  the "Failed to load images" error, `initializeARScene` has already run, so a
  retry runs it again. That starts a second preload batch with its own counters,
  writing into the same caches.
- The initial `frameImage` source set in `initializeARScene` is not modelled.
- `PerformanceMonitor` is not modelled: it depends on `performance.now()` and
  floating-point FPS, and only logs.
