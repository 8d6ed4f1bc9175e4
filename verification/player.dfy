/**
  The image-sequence playback state of the AR video player: the two frame
  caches filled by per-frame load callbacks, the frame clock, and the
  tracking events that start, stop and reset it.

  Every browser callback (a load settling, one interval tick, a tracking
  event, a button press) runs to completion on JavaScript's single thread,
  so each is one method call on an `ARVideoPlayer` object. Whatever the
  renderer is asked to show is returned as a `Publication`.
 */
module Player {
  import opened FramePaths
  import opened FrameClock

  datatype Option<+T> = None | Some(value: T)

  /** The decoded image of frame i. */
  datatype Image = Image(frame: nat)

  /** The renderer texture built from the image of frame i. */
  datatype Texture = Texture(frame: nat)

  /**
    One cache entry. A JavaScript array written at scattered indices has
    holes that read as `undefined` (`Hole`); a failed load writes `null`
    (`Null`). Only `Present` is truthy.
   */
  datatype Slot<+T> = Hole | Null | Present(value: T)

  /** What displayFrame hands to the renderer: the frame, the image source it sets, the texture it swaps in. */
  datatype Publication = Publication(frame: nat, src: string, texture: Texture)

  /** How the bounded first-frame retry of a target-found event ended. */
  datatype RetryOutcome = Displayed(attempts: nat) | GaveUp

  /** The clock-related fields of a player: playing, interval armed, cursor. */
  datatype ClockState = ClockState(isPlaying: bool, intervalActive: bool, currentFrame: int)

  /** What a target-found event schedules next. */
  datatype FoundAction = StartAfterDelay | PollUntilLoaded

  const TotalFrames: nat := 180
  const MaxAttempts: nat := 10

  /** The frame indices 1 .. n. */
  ghost function FrameRange(n: nat): set<int>
  {
    if n == 0 then {} else FrameRange(n - 1) + {n}
  }

  lemma {:induction false} FrameRangeMembers(n: nat)
    ensures |FrameRange(n)| == n
    ensures forall i :: i in FrameRange(n) <==> 1 <= i <= n
  {
    if n > 0 {
      FrameRangeMembers(n - 1);
    }
  }

  /** A proper subset of a finite set is smaller. */
  lemma ProperSubsetSmaller(a: set<int>, b: set<int>)
    requires a < b
    ensures |a| < |b|
  {
    assert b - a != {};
    assert b == a + (b - a) && a * (b - a) == {};
  }

  /** A subset of a finite set is no larger. */
  lemma SubsetNoLarger(a: set<int>, b: set<int>)
    requires a <= b
    ensures |a| <= |b|
  {
    if a != b {
      ProperSubsetSmaller(a, b);
    }
  }

  /** Requests for frames 1 .. 180 never share a path and all have the same length. */
  lemma PreloadPathsDistinct()
    ensures forall i, j :: 1 <= i <= TotalFrames && 1 <= j <= TotalFrames && i != j ==> FramePath(i) != FramePath(j)
    ensures forall i :: 1 <= i <= TotalFrames ==> |FramePath(i)| == 21
  {
    assert Pow10(PadWidth) == 100000;
    FramePathsDistinctAndAligned(TotalFrames);
  }

  /**
    The bookkeeping of one preload batch over n frames: the settled, failed
    and textured frames, the two closure counters and the ready flag.
   */
  ghost predicate BatchConsistent(n: nat, settled: set<int>, failed: set<int>, textured: set<int>,
                                  loaded: nat, created: nat, ready: bool)
  {
    && settled <= FrameRange(n)
    && failed <= settled
    && textured <= settled - failed
    && loaded == |settled|
    && created == |textured|
    && (ready <==> loaded == n)
  }

  /** Before frame i settles the batch is not ready; settling it counts once and is ready exactly when nothing is left. */
  lemma BatchAfterSettle(n: nat, settled: set<int>, failed: set<int>, textured: set<int>,
                         loaded: nat, created: nat, ready: bool, i: int)
    requires BatchConsistent(n, settled, failed, textured, loaded, created, ready)
    requires 1 <= i <= n && i !in settled
    ensures !ready && loaded + 1 <= n
    ensures |settled + {i}| == loaded + 1
    ensures settled + {i} <= FrameRange(n)
    ensures loaded + 1 == n <==> settled + {i} == FrameRange(n)
  {
    FrameRangeMembers(n);
    ProperSubsetSmaller(settled, FrameRange(n));
    if settled + {i} != FrameRange(n) {
      ProperSubsetSmaller(settled + {i}, FrameRange(n));
    }
  }

  /** A successful load of frame i keeps the bookkeeping consistent, and the texture count below the load count. */
  lemma BatchAfterLoad(n: nat, settled: set<int>, failed: set<int>, textured: set<int>,
                       loaded: nat, created: nat, ready: bool, i: int, textureCreated: bool)
    requires BatchConsistent(n, settled, failed, textured, loaded, created, ready)
    requires 1 <= i <= n && i !in settled
    ensures BatchConsistent(n, settled + {i}, failed,
                            if textureCreated then textured + {i} else textured,
                            loaded + 1, if textureCreated then created + 1 else created,
                            loaded + 1 == n)
    ensures !ready
    ensures (if textureCreated then created + 1 else created) <= loaded + 1 <= n
    ensures loaded + 1 == n <==> settled + {i} == FrameRange(n)
  {
    BatchAfterSettle(n, settled, failed, textured, loaded, created, ready, i);
    var textured' := if textureCreated then textured + {i} else textured;
    SubsetNoLarger(textured', settled + {i});
  }

  /**
    A failed load of frame i keeps the bookkeeping consistent; once every
    frame has failed, no texture exists.
   */
  lemma BatchAfterError(n: nat, settled: set<int>, failed: set<int>, textured: set<int>,
                        loaded: nat, created: nat, ready: bool, i: int)
    requires BatchConsistent(n, settled, failed, textured, loaded, created, ready)
    requires 1 <= i <= n && i !in settled
    ensures BatchConsistent(n, settled + {i}, failed + {i}, textured, loaded + 1, created, loaded + 1 == n)
    ensures !ready
    ensures loaded + 1 == n <==> settled + {i} == FrameRange(n)
    ensures failed + {i} == FrameRange(n) ==> loaded + 1 == n && created == 0
  {
    BatchAfterSettle(n, settled, failed, textured, loaded, created, ready, i);
    if failed + {i} == FrameRange(n) {
      assert settled + {i} == FrameRange(n);
      assert textured == {};
    }
  }

  /** The image entry of frame i, given which frames have settled and which of them failed. */
  ghost function ImageEntry(i: nat, settled: set<int>, failed: set<int>): Slot<Image>
  {
    if i !in settled then Hole else if i in failed then Null else Present(Image(i))
  }

  /** The texture entry of frame i, given which frames failed and which got a texture. */
  ghost function TextureEntry(i: nat, failed: set<int>, textured: set<int>): Slot<Texture>
  {
    if i in textured then Present(Texture(i)) else if i in failed then Null else Hole
  }

  /** Entry k of each cache is what the settled loads of frame k + 1 left there. */
  ghost predicate CachesAgree(images: seq<Slot<Image>>, textures: seq<Slot<Texture>>,
                              settled: set<int>, failed: set<int>, textured: set<int>)
  {
    && |images| == |textures|
    && (forall k :: 0 <= k < |images| ==> images[k] == ImageEntry(k + 1, settled, failed))
    && (forall k :: 0 <= k < |textures| ==> textures[k] == TextureEntry(k + 1, failed, textured))
  }

  /** A successful load of frame i writes its image, and its texture if one was made. */
  lemma CachesAgreeAfterLoad(images: seq<Slot<Image>>, textures: seq<Slot<Texture>>,
                             settled: set<int>, failed: set<int>, textured: set<int>,
                             i: int, textureCreated: bool)
    requires CachesAgree(images, textures, settled, failed, textured)
    requires 1 <= i <= |images| && i !in settled && failed <= settled && textured <= settled
    ensures CachesAgree(images[i - 1 := Present(Image(i))],
                        if textureCreated then textures[i - 1 := Present(Texture(i))] else textures,
                        settled + {i}, failed,
                        if textureCreated then textured + {i} else textured)
  {
  }

  /** A failed load of frame i writes null into both caches. */
  lemma CachesAgreeAfterError(images: seq<Slot<Image>>, textures: seq<Slot<Texture>>,
                              settled: set<int>, failed: set<int>, textured: set<int>, i: int)
    requires CachesAgree(images, textures, settled, failed, textured)
    requires 1 <= i <= |images| && i !in settled && failed <= settled && textured <= settled
    ensures CachesAgree(images[i - 1 := Null], textures[i - 1 := Null], settled + {i}, failed + {i}, textured)
  {
  }

  class ARVideoPlayer {
    const totalFrames: nat
    var currentFrame: int
    var isPlaying: bool
    var targetFound: bool
    var imagesLoaded: bool
    /** Whether `frameInterval` holds a live interval handle (it is null otherwise). */
    var intervalActive: bool
    /** Whether the video plane element was found in the scene. */
    var videoPlane: bool
    /** Whether the play/pause/volume controls are shown. */
    var controlsVisible: bool
    /** imageCache[i - 1] and textureCache[i - 1] belong to frame i. */
    const imageCache: array<Slot<Image>>
    const textureCache: array<Slot<Texture>>
    /** The closure counters of the preload batch. */
    var loadedCount: nat
    var textureCreatedCount: nat

    /** Frames whose load has settled, those that settled by failing, and those that got a texture. */
    ghost var settled: set<int>
    ghost var failed: set<int>
    ghost var textured: set<int>

    ghost predicate Valid()
      reads this, imageCache, textureCache
    {
      && 1 <= currentFrame <= totalFrames
      && imageCache.Length == totalFrames
      && textureCache.Length == totalFrames
      && (isPlaying <==> intervalActive)
      && (isPlaying ==> imagesLoaded)
      && BatchConsistent(totalFrames, settled, failed, textured, loadedCount, textureCreatedCount, imagesLoaded)
      && CachesAgree(imageCache[..], textureCache[..], settled, failed, textured)
    }

    /** The state right after construction: 180 frames, cursor on frame 1, nothing loaded, nothing running. */
    constructor ()
      ensures Valid()
      ensures totalFrames == TotalFrames && currentFrame == 1
      ensures !isPlaying && !intervalActive && !targetFound && !imagesLoaded && !videoPlane && !controlsVisible
      ensures loadedCount == 0 && textureCreatedCount == 0
      ensures settled == {} && failed == {} && textured == {}
      ensures fresh(imageCache) && fresh(textureCache)
    {
      totalFrames := TotalFrames;
      currentFrame := 1;
      isPlaying, targetFound, imagesLoaded := false, false, false;
      intervalActive, videoPlane, controlsVisible := false, false, false;
      imageCache := new Slot<Image>[TotalFrames](_ => Hole);
      textureCache := new Slot<Texture>[TotalFrames](_ => Hole);
      loadedCount, textureCreatedCount := 0, 0;
      settled, failed, textured := {}, {}, {};
    }

    /** Counters never overtake each other: textures made <= loads settled <= frames. */
    lemma CountersBounded()
      requires Valid()
      ensures textureCreatedCount <= loadedCount <= totalFrames
    {
      SubsetNoLarger(textured, settled);
      SubsetNoLarger(settled, FrameRange(totalFrames));
      FrameRangeMembers(totalFrames);
    }

    /** The batch is ready exactly when every one of the frames has settled, in whatever order. */
    lemma ReadyIffAllSettled()
      requires Valid()
      ensures imagesLoaded <==> settled == FrameRange(totalFrames)
    {
      FrameRangeMembers(totalFrames);
      if settled != FrameRange(totalFrames) {
        ProperSubsetSmaller(settled, FrameRange(totalFrames));
      }
    }

    /** Once ready, every frame holds either an image or null, and a texture only beside an image. */
    lemma ReadyCachesComplete()
      requires Valid() && imagesLoaded
      ensures forall k :: 0 <= k < totalFrames ==> imageCache[k] != Hole
      ensures forall k :: 0 <= k < totalFrames ==> (imageCache[k] == Null <==> textureCache[k] == Null)
      ensures forall k :: 0 <= k < totalFrames ==> textureCache[k].Present? ==> imageCache[k].Present?
    {
      ReadyIffAllSettled();
      FrameRangeMembers(totalFrames);
    }

    /** What displayFrame would publish in the current state: `DisplayFrame`'s result as a function of the state. */
    ghost function Shown(): (p: Option<Publication>)
      reads this, imageCache, textureCache
      requires Valid()
      ensures p.Some? <==> imagesLoaded && videoPlane && currentFrame in textured
      ensures p.Some? ==> p.value == Publication(currentFrame, FramePath(currentFrame), Texture(currentFrame))
    {
      var k := currentFrame - 1;
      if imagesLoaded && videoPlane && imageCache[k].Present? && textureCache[k].Present?
      then Some(Publication(currentFrame, FramePath(currentFrame), textureCache[k].value))
      else None
    }

    /**
      displayFrame: nothing is published before all loads have settled, without
      a video plane, or when either cache entry of the current frame is missing;
      otherwise the current frame's path and texture go to the renderer.
     */
    method DisplayFrame() returns (p: Option<Publication>)
      requires Valid()
      ensures p.Some? <==> imagesLoaded && videoPlane && currentFrame in textured
      ensures p.Some? ==> p.value == Publication(currentFrame, FramePath(currentFrame), Texture(currentFrame))
    {
      if !imagesLoaded || !videoPlane {
        return None;
      }
      var frameIndex := currentFrame - 1;
      var img := imageCache[frameIndex];
      var texture := textureCache[frameIndex];
      if !img.Present? || !texture.Present? {
        return None;
      }
      p := Some(Publication(currentFrame, FramePath(currentFrame), texture.value));
    }

    /** The image requests of the preload loop: one per frame, in frame order. */
    method PreloadImages() returns (requests: seq<string>)
      ensures |requests| == totalFrames
      ensures forall k :: 0 <= k < totalFrames ==> requests[k] == FramePath(k + 1)
    {
      requests := [];
      for i := 1 to totalFrames + 1
        invariant |requests| == i - 1
        invariant forall k :: 0 <= k < i - 1 ==> requests[k] == FramePath(k + 1)
      {
        requests := requests + [FramePath(i)];
      }
    }

    /** The clock-related fields as a value. */
    function Clock(): ClockState
      reads this
    {
      ClockState(isPlaying, intervalActive, currentFrame)
    }

    /** The state-relevant part of initializeARScene: look up the video plane, then issue the preload requests. */
    method InitializeARScene(planeFound: bool) returns (requests: seq<string>)
      requires Valid()
      modifies this`videoPlane
      ensures Valid() && videoPlane == planeFound
      ensures |requests| == totalFrames
      ensures forall k :: 0 <= k < totalFrames ==> requests[k] == FramePath(k + 1)
    {
      videoPlane := planeFound;
      requests := PreloadImages();
    }

    /**
      The onload callback of frame i. The texture constructor may throw;
      `textureCreated` says whether it returned.
     */
    method OnImageLoad(i: int, textureCreated: bool)
      requires Valid()
      requires 1 <= i <= totalFrames && i !in settled
      modifies this`loadedCount, this`textureCreatedCount, this`imagesLoaded
      modifies this`settled, this`textured, imageCache, textureCache
      ensures Valid()
      ensures settled == old(settled) + {i} && failed == old(failed)
      ensures textured == if textureCreated then old(textured) + {i} else old(textured)
      ensures loadedCount == old(loadedCount) + 1
      ensures textureCreatedCount == old(textureCreatedCount) + (if textureCreated then 1 else 0)
      ensures imageCache[..] == old(imageCache[..])[i - 1 := Present(Image(i))]
      ensures textureCache[..] == if textureCreated then old(textureCache[..])[i - 1 := Present(Texture(i))]
                                  else old(textureCache[..])
      ensures imagesLoaded <==> settled == FrameRange(totalFrames)
      ensures textureCreatedCount <= loadedCount <= totalFrames
    {
      BatchAfterLoad(totalFrames, settled, failed, textured, loadedCount, textureCreatedCount, imagesLoaded,
                     i, textureCreated);
      CachesAgreeAfterLoad(imageCache[..], textureCache[..], settled, failed, textured, i, textureCreated);
      settled := settled + {i};
      if textureCreated {
        textured := textured + {i};
      }
      loadedCount := loadedCount + 1;
      imageCache[i - 1] := Present(Image(i));
      if textureCreated {
        textureCache[i - 1] := Present(Texture(i));
        textureCreatedCount := textureCreatedCount + 1;
      }
      if loadedCount == totalFrames {
        imagesLoaded := true;
      }
      assert imagesLoaded <==> loadedCount == totalFrames;
    }

    /**
      The onerror callback of frame i. Returns whether it raises the
      "Failed to load images" error: only when it is the last load to settle
      and no texture was created.
     */
    method OnImageError(i: int) returns (loadFailure: bool)
      requires Valid()
      requires 1 <= i <= totalFrames && i !in settled
      modifies this`loadedCount, this`imagesLoaded, this`settled, this`failed, imageCache, textureCache
      ensures Valid()
      ensures settled == old(settled) + {i} && failed == old(failed) + {i} && textured == old(textured)
      ensures loadedCount == old(loadedCount) + 1 && textureCreatedCount == old(textureCreatedCount)
      ensures imageCache[..] == old(imageCache[..])[i - 1 := Null]
      ensures textureCache[..] == old(textureCache[..])[i - 1 := Null]
      ensures imagesLoaded <==> settled == FrameRange(totalFrames)
      ensures loadFailure <==> imagesLoaded && textureCreatedCount == 0
      ensures failed == FrameRange(totalFrames) ==> loadFailure
    {
      BatchAfterError(totalFrames, settled, failed, textured, loadedCount, textureCreatedCount, imagesLoaded, i);
      CachesAgreeAfterError(imageCache[..], textureCache[..], settled, failed, textured, i);
      settled := settled + {i};
      failed := failed + {i};
      loadedCount := loadedCount + 1;
      imageCache[i - 1] := Null;
      textureCache[i - 1] := Null;
      loadFailure := false;
      if loadedCount == totalFrames {
        imagesLoaded := true;
        if textureCreatedCount == 0 {
          loadFailure := true;
        }
      }
      assert imagesLoaded <==> loadedCount == totalFrames;
    }

    /**
      One firing of the frame interval. While the target is not tracked it
      does nothing; otherwise it publishes the current frame and moves the
      cursor on, back to frame 1 after the last frame.
     */
    method Tick() returns (p: Option<Publication>)
      requires Valid() && intervalActive
      modifies this`currentFrame
      ensures Valid()
      ensures !targetFound ==> p == None && currentFrame == old(currentFrame)
      ensures targetFound ==> p == old(Shown()) && currentFrame == Advance(old(currentFrame), totalFrames)
    {
      p := None;
      if targetFound {
        p := DisplayFrame();
        currentFrame := currentFrame + 1;
        if currentFrame > totalFrames {
          currentFrame := 1;
        }
      }
    }

    /**
      startFramePlayback: a no-op while already playing; refuses to start
      before all loads have settled; otherwise arms the interval and
      publishes the current frame at once.
     */
    method StartFramePlayback() returns (p: Option<Publication>)
      requires Valid()
      modifies this`isPlaying, this`intervalActive
      ensures Valid()
      ensures old(isPlaying) ==> isPlaying && intervalActive && p == None
      ensures !old(isPlaying) && !imagesLoaded ==> !isPlaying && !intervalActive && p == None
      ensures !old(isPlaying) && imagesLoaded ==> isPlaying && intervalActive && p == Shown()
    {
      if isPlaying {
        return None;
      }
      if !imagesLoaded {
        return None;
      }
      isPlaying := true;
      intervalActive := true;
      p := DisplayFrame();
    }

    /** stopFramePlayback: always ends stopped with no interval, whatever the state before. */
    method StopFramePlayback()
      requires Valid()
      modifies this`isPlaying, this`intervalActive
      ensures Valid() && !isPlaying && !intervalActive
    {
      isPlaying := false;
      if intervalActive {
        intervalActive := false;
      }
    }

    /**
      The synchronous part of the target-found handler: the target is
      tracked from now on; playback starts after a delay if the frames are
      ready, otherwise a poll waits for them first.
     */
    method OnTargetFound() returns (next: FoundAction)
      requires Valid()
      modifies this`targetFound
      ensures Valid() && targetFound
      ensures next == if imagesLoaded then StartAfterDelay else PollUntilLoaded
    {
      targetFound := true;
      next := if imagesLoaded then StartAfterDelay else PollUntilLoaded;
    }

    /**
      The delayed `startPlayback` body of the target-found handler, reached
      only once all loads have settled: rewind to frame 1, then try to show
      it up to ten times until the plane's mesh has a material map. Without a
      video plane there is no mesh and every check fails; with one,
      `meshHasMap(a)` tells whether its mesh has a map after attempt a. On success
      playback starts and the controls are shown. `published` lists what
      every displayFrame call published.
     */
    method StartPlayback(meshHasMap: nat -> bool) returns (outcome: RetryOutcome, published: seq<Option<Publication>>)
      requires Valid() && imagesLoaded
      modifies this`currentFrame, this`isPlaying, this`intervalActive, this`controlsVisible
      ensures Valid() && currentFrame == 1
      ensures outcome.Displayed? ==>
        && 1 <= outcome.attempts <= MaxAttempts
        && videoPlane && meshHasMap(outcome.attempts)
        && (forall a :: 1 <= a < outcome.attempts ==> !meshHasMap(a))
      ensures outcome.GaveUp? <==> !videoPlane || forall a :: 1 <= a <= MaxAttempts ==> !meshHasMap(a)
      ensures !videoPlane ==> outcome.GaveUp?
      ensures outcome.Displayed? ==> isPlaying && intervalActive && controlsVisible
      ensures outcome.GaveUp? ==>
        isPlaying == old(isPlaying) && intervalActive == old(intervalActive) && controlsVisible == old(controlsVisible)
      ensures |published| == match outcome
                             case GaveUp => MaxAttempts
                             case Displayed(a) => if old(isPlaying) then a else a + 1
      ensures forall j :: 0 <= j < |published| ==> published[j] == Shown()
    {
      var wasPlaying := isPlaying;
      currentFrame := 1;
      published := [];
      var attempts := 0;
      while attempts < MaxAttempts
        invariant Valid() && currentFrame == 1
        invariant 0 <= attempts <= MaxAttempts
        invariant |published| == attempts
        invariant forall j :: 0 <= j < |published| ==> published[j] == Shown()
        invariant videoPlane ==> forall a :: 1 <= a <= attempts ==> !meshHasMap(a)
        invariant isPlaying == old(isPlaying) && intervalActive == old(intervalActive)
        invariant controlsVisible == old(controlsVisible) && wasPlaying == old(isPlaying)
      {
        attempts := attempts + 1;
        var p := DisplayFrame();
        published := published + [p];
        if videoPlane && meshHasMap(attempts) {
          var q := StartFramePlayback();
          if !wasPlaying {
            published := published + [q];
          }
          controlsVisible := true;
          return Displayed(attempts), published;
        }
      }
      outcome := GaveUp;
    }

    /**
      onTargetLost: whatever the cursor or playing state before, the target
      is untracked, playback is stopped, the controls are hidden and the
      cursor is back on frame 1.
     */
    method OnTargetLost()
      requires Valid()
      modifies this`targetFound, this`isPlaying, this`intervalActive, this`controlsVisible, this`currentFrame
      ensures Valid()
      ensures !targetFound && !isPlaying && !intervalActive && !controlsVisible && currentFrame == 1
    {
      targetFound := false;
      StopFramePlayback();
      controlsVisible := false;
      currentFrame := 1;
    }

    /** The play button: starts playback only while tracked and not already playing. */
    method OnPlayClicked() returns (p: Option<Publication>)
      requires Valid()
      modifies this`isPlaying, this`intervalActive
      ensures Valid()
      ensures !(old(targetFound) && !old(isPlaying)) ==>
        isPlaying == old(isPlaying) && intervalActive == old(intervalActive) && p == None
      ensures old(targetFound) && !old(isPlaying) ==>
        isPlaying == imagesLoaded && intervalActive == imagesLoaded && p == (if imagesLoaded then Shown() else None)
    {
      p := None;
      if targetFound && !isPlaying {
        p := StartFramePlayback();
      }
    }

    /** The pause button: stops playback if it is running; afterwards nothing is running either way. */
    method OnPauseClicked()
      requires Valid()
      modifies this`isPlaying, this`intervalActive
      ensures Valid() && !isPlaying && !intervalActive
    {
      if isPlaying {
        StopFramePlayback();
      }
    }

    /** The visibility-change listener: hiding the page stops playback; showing it changes nothing. */
    method OnVisibilityChange(hidden: bool)
      requires Valid()
      modifies this`isPlaying, this`intervalActive
      ensures Valid()
      ensures hidden ==> !isPlaying && !intervalActive
      ensures !hidden ==> isPlaying == old(isPlaying) && intervalActive == old(intervalActive)
    {
      if hidden && isPlaying {
        StopFramePlayback();
      }
    }
  }

  /**
    k firings of the interval while the target stays tracked: tick j publishes
    the j-th cursor of `Published` (when that frame has a texture and the plane
    exists), and the cursor ends where `AdvanceBy` puts it.
   */
  method PlayTicks(p: ARVideoPlayer, k: nat) returns (pubs: seq<Option<Publication>>)
    requires p.Valid() && p.intervalActive && p.targetFound
    modifies p`currentFrame
    ensures p.Valid() && p.intervalActive && p.targetFound
    ensures |pubs| == k
    ensures p.currentFrame == AdvanceBy(old(p.currentFrame), k, p.totalFrames)
    ensures forall j :: 0 <= j < k ==>
      (pubs[j].Some? <==> p.videoPlane && Published(old(p.currentFrame), k, p.totalFrames)[j] in p.textured)
    ensures forall j :: 0 <= j < k && pubs[j].Some? ==>
      pubs[j].value.frame == Published(old(p.currentFrame), k, p.totalFrames)[j]
  {
    ghost var c0, n := p.currentFrame, p.totalFrames;
    pubs := [];
    var i := 0;
    while i < k
      invariant p.Valid() && p.intervalActive && p.targetFound
      invariant 0 <= i <= k && |pubs| == i
      invariant p.currentFrame == AdvanceBy(c0, i, n)
      invariant forall j :: 0 <= j < i ==> (pubs[j].Some? <==> p.videoPlane && Published(c0, i, n)[j] in p.textured)
      invariant forall j :: 0 <= j < i && pubs[j].Some? ==> pubs[j].value.frame == Published(c0, i, n)[j]
    {
      PublishedSplit(c0, i, 1, n);
      AdvanceByCompose(c0, i, 1, n);
      assert Published(p.currentFrame, 1, n) == [p.currentFrame];
      var q := p.Tick();
      pubs := pubs + [q];
      i := i + 1;
    }
  }

  /**
    A target-found event followed by its delayed start and the first tick:
    every retry attempt publishes frame 1, a successful start publishes it once
    more, and the first tick publishes frame 1 again before the cursor moves on.
   */
  method StartThenFirstTick(p: ARVideoPlayer, meshHasMap: nat -> bool)
      returns (outcome: RetryOutcome, published: seq<Option<Publication>>, first: Option<Publication>)
    requires p.Valid() && p.imagesLoaded
    modifies p`targetFound, p`isPlaying, p`intervalActive, p`controlsVisible, p`currentFrame
    ensures p.Valid() && p.targetFound
    ensures |published| >= 1
    ensures outcome.Displayed? ==> |published| >= outcome.attempts
    ensures forall j :: 0 <= j < |published| && published[j].Some? ==> published[j].value.frame == 1
    ensures outcome.Displayed? ==> first == published[0] && p.currentFrame == Advance(1, p.totalFrames)
    ensures outcome.Displayed? && p.totalFrames >= 2 ==> p.currentFrame == 2
    ensures outcome.GaveUp? ==> first == None && p.currentFrame == 1
  {
    var next := p.OnTargetFound();
    assert next == StartAfterDelay;
    outcome, published := p.StartPlayback(meshHasMap);
    first := None;
    if outcome.Displayed? {
      first := p.Tick();
    }
  }

  /** A client's view of idempotent start: a second start right after a first publishes nothing and leaves the clock as the first left it. */
  method StartTwice(p: ARVideoPlayer) returns (first: Option<Publication>, second: Option<Publication>, afterFirst: ClockState)
    requires p.Valid()
    modifies p`isPlaying, p`intervalActive
    ensures p.Valid()
    ensures afterFirst.isPlaying == (old(p.isPlaying) || old(p.imagesLoaded)) && afterFirst.intervalActive == afterFirst.isPlaying
    ensures afterFirst.currentFrame == old(p.currentFrame)
    ensures first == if !old(p.isPlaying) && old(p.imagesLoaded) then p.Shown() else None
    ensures second == None && p.Clock() == afterFirst
  {
    first := p.StartFramePlayback();
    afterFirst := p.Clock();
    second := p.StartFramePlayback();
  }

  /** A client's view of idempotent stop: stopping twice leaves the clock as stopping once did. */
  method StopTwice(p: ARVideoPlayer) returns (afterOnce: ClockState)
    requires p.Valid()
    modifies p`isPlaying, p`intervalActive
    ensures p.Valid()
    ensures afterOnce == ClockState(false, false, old(p.currentFrame))
    ensures p.Clock() == afterOnce
  {
    p.StopFramePlayback();
    afterOnce := p.Clock();
    p.StopFramePlayback();
  }

  /** Target lost while playing: afterwards the clock is gone, and a found-then-start replays from frame 1. */
  method LoseAndRefind(p: ARVideoPlayer) returns (shown: Option<Publication>)
    requires p.Valid() && p.imagesLoaded
    modifies p`targetFound, p`isPlaying, p`intervalActive, p`controlsVisible, p`currentFrame
    ensures p.Valid() && p.targetFound && p.isPlaying && p.currentFrame == 1
    ensures shown == p.Shown()
  {
    p.OnTargetLost();
    var next := p.OnTargetFound();
    assert next == StartAfterDelay;
    shown := p.OnPlayClicked();
  }

  /**
    Target lost after a target-found event but before its delayed start has
    run: losing the target cancels neither the 300 ms start timer, its
    retries nor the readiness poll, so the start still rewinds to frame 1,
    publishes it, starts the interval and shows the controls while the target
    is not tracked.
   */
  method LoseBeforeDelayedStart(p: ARVideoPlayer, meshHasMap: nat -> bool)
      returns (outcome: RetryOutcome, published: seq<Option<Publication>>)
    requires p.Valid() && p.imagesLoaded
    modifies p`targetFound, p`isPlaying, p`intervalActive, p`controlsVisible, p`currentFrame
    ensures p.Valid() && !p.targetFound && p.currentFrame == 1
    ensures outcome.Displayed? <==> p.videoPlane && exists a :: 1 <= a <= MaxAttempts && meshHasMap(a)
    ensures outcome.Displayed? ==>
      && p.isPlaying && p.intervalActive && p.controlsVisible
      && |published| == outcome.attempts + 1
    ensures outcome.GaveUp? ==> !p.isPlaying && !p.intervalActive && !p.controlsVisible && |published| == MaxAttempts
    ensures forall j :: 0 <= j < |published| ==> published[j] == p.Shown()
  {
    var next := p.OnTargetFound();
    assert next == StartAfterDelay;
    p.OnTargetLost();
    outcome, published := p.StartPlayback(meshHasMap);
  }

  /**
    What a target loss does guarantee: no interval is left, so no tick can
    fire, and the play button publishes nothing until the target is found again.
   */
  method LoseThenPlay(p: ARVideoPlayer) returns (shown: Option<Publication>)
    requires p.Valid()
    modifies p`targetFound, p`isPlaying, p`intervalActive, p`controlsVisible, p`currentFrame
    ensures p.Valid() && !p.targetFound && p.currentFrame == 1
    ensures shown == None && !p.isPlaying && !p.intervalActive && !p.controlsVisible
  {
    p.OnTargetLost();
    shown := p.OnPlayClicked();
  }
}
