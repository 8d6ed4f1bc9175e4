/**
  Cursor arithmetic of the frame clock: on every tracked tick the cursor
  moves one frame forward and loops back to frame 1 after the last frame.
 */
module FrameClock {

  /** The cursor after one tracked tick over `n` frames. */
  function Advance(c: int, n: int): (c': int)
    requires 1 <= c <= n
    ensures 1 <= c' <= n
    ensures c < n ==> c' == c + 1
    ensures c == n ==> c' == 1
  {
    if c + 1 > n then 1 else c + 1
  }

  /** The cursor after `k` tracked ticks. */
  function AdvanceBy(c: int, k: nat, n: int): int
    requires 1 <= c <= n
    decreases k
  {
    if k == 0 then c else AdvanceBy(Advance(c, n), k - 1, n)
  }

  /** The frames published by `k` tracked ticks, in order: each tick publishes the cursor before advancing it. */
  function Published(c: int, k: nat, n: int): (r: seq<int>)
    requires 1 <= c <= n
    ensures |r| == k
    decreases k
  {
    if k == 0 then [] else [c] + Published(Advance(c, n), k - 1, n)
  }

  /** Any number of tracked ticks keeps the cursor on a frame. */
  lemma {:induction false} AdvanceByInRange(c: int, k: nat, n: int)
    requires 1 <= c <= n
    ensures 1 <= AdvanceBy(c, k, n) <= n
    decreases k
  {
    if k > 0 {
      AdvanceByInRange(Advance(c, n), k - 1, n);
    }
  }

  /** Before the end of the sequence is reached, k ticks move the cursor k frames forward. */
  lemma {:induction false} AdvanceByNoWrap(c: int, k: nat, n: int)
    requires 1 <= c <= n
    requires c + k <= n
    ensures AdvanceBy(c, k, n) == c + k
    decreases k
  {
    if k > 0 {
      AdvanceByNoWrap(c + 1, k - 1, n);
    }
  }

  /** a ticks followed by b ticks are a + b ticks. */
  lemma {:induction false} AdvanceByCompose(c: int, a: nat, b: nat, n: int)
    requires 1 <= c <= n
    ensures 1 <= AdvanceBy(c, a, n) <= n
    ensures AdvanceBy(c, a + b, n) == AdvanceBy(AdvanceBy(c, a, n), b, n)
    decreases a
  {
    AdvanceByInRange(c, a, n);
    if a > 0 {
      AdvanceByCompose(Advance(c, n), a - 1, b, n);
    }
  }

  /** Wrap law: `n` tracked ticks over `n` frames bring the cursor back to where it started. */
  lemma WrapLaw(c: int, n: int)
    requires 1 <= c <= n
    ensures AdvanceBy(c, n, n) == c
  {
    // to the last frame, across the loop-back, then up to c again
    AdvanceByNoWrap(c, n - c, n);
    AdvanceByCompose(c, n - c, 1, n);
    assert AdvanceBy(n, 1, n) == 1;
    AdvanceByCompose(c, n - c + 1, c - 1, n);
    AdvanceByNoWrap(1, c - 1, n);
  }

  /** Without wrapping, `k` ticks from frame c publish the consecutive frames c, c+1, ..., c+k-1. */
  lemma {:induction false} PublishedConsecutive(c: int, k: nat, n: int)
    requires 1 <= c <= n
    requires c + k - 1 <= n
    ensures |Published(c, k, n)| == k
    ensures forall j :: 0 <= j < k ==> Published(c, k, n)[j] == c + j
    decreases k
  {
    if k > 0 {
      if k > 1 {
        PublishedConsecutive(c + 1, k - 1, n);
      } else {
        assert Published(Advance(c, n), 0, n) == [];
      }
    }
  }

  /** Published frames are the successive cursors, and the next cursor follows the last one published. */
  lemma {:induction false} PublishedSplit(c: int, k: nat, m: nat, n: int)
    requires 1 <= c <= n
    ensures 1 <= AdvanceBy(c, k, n) <= n
    ensures Published(c, k + m, n) == Published(c, k, n) + Published(AdvanceBy(c, k, n), m, n)
    decreases k
  {
    AdvanceByInRange(c, k, n);
    if k > 0 {
      PublishedSplit(Advance(c, n), k - 1, m, n);
    }
  }

  /**
    Ticks from cursor 1 over n >= 2 * fps frames (24 and 180 in the player):
    the first fps ticks publish frames 1 .. fps in order, the next fps ticks
    fps + 1 .. 2 * fps. The publications of the start itself come before these.
   */
  lemma FirstSeconds(fps: nat, n: int)
    requires 1 <= fps && 2 * fps <= n
    ensures Published(1, fps, n) == seq(fps, j => j + 1)
    ensures AdvanceBy(1, fps, n) == fps + 1
    ensures Published(1, 2 * fps, n) == seq(fps, j => j + 1) + seq(fps, j => j + fps + 1)
  {
    PublishedConsecutive(1, fps, n);
    PublishedConsecutive(fps + 1, fps, n);
    AdvanceByNoWrap(1, fps, n);
    PublishedSplit(1, fps, fps, n);
    assert Published(1, fps, n) == seq(fps, j => j + 1);
    assert Published(fps + 1, fps, n) == seq(fps, j => j + fps + 1);
  }
}
