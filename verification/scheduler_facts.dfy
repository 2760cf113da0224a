/** What the batch translation loop of `handleStart` (App.tsx) guarantees.

    The lemmas about the whole loop are stated for `Loop` over any window step
    that `Obeys` what a window of the app does; `AppWindowObeys` shows that the
    app's own window does, so every lemma holds of `Run`. */
module SchedulerFacts {
  import opened Wrappers
  import opened JsString
  import opened Types
  import opened Gemini
  import opened Scheduler

  // ---------------------------------------------------------------------------
  // How blocks change

  /** `b` is `a` with at most translations and loading marks changed, and with
      every block that had a translation left as it was. */
  predicate Evolves(a: seq<Block>, b: seq<Block>) {
    && |a| == |b|
    && forall k | 0 <= k < |a| ::
         && b[k] == a[k].(translated := b[k].translated, isLoading := b[k].isLoading)
         && (a[k].translated != "" ==> b[k] == a[k])
  }

  lemma EvolvesTransitive(a: seq<Block>, b: seq<Block>, c: seq<Block>)
    requires Evolves(a, b) && Evolves(b, c)
    ensures Evolves(a, c)
  {
    forall k | 0 <= k < |a| ensures c[k] == a[k].(translated := c[k].translated, isLoading := c[k].isLoading) {
      assert b[k] == a[k].(translated := b[k].translated, isLoading := b[k].isLoading);
    }
  }

  /** The blocks of `[lo, hi)` are the same in `a` and `b`. */
  predicate SameIn(a: seq<Block>, b: seq<Block>, lo: nat, hi: nat) {
    |a| == |b| && forall k | lo <= k < hi && k < |a| :: b[k] == a[k]
  }

  predicate NoneLoading(bs: seq<Block>) {
    forall k | 0 <= k < |bs| :: !bs[k].isLoading
  }

  /** `nb` is `bs` with only blocks of `[lo, hi)` changed, each only in its
      translation and loading mark, and with no new loading marks. */
  predicate ChangedWithin(bs: seq<Block>, nb: seq<Block>, lo: nat, hi: nat) {
    && Evolves(bs, nb)
    && SameIn(bs, nb, 0, lo) && SameIn(bs, nb, hi, |bs|)
    && (NoneLoading(bs) ==> NoneLoading(nb))
  }

  /** Changes within `[lo, hi)` followed by changes within `[lo', hi)` with
      `lo <= lo'` are changes within `[lo, hi)`. */
  lemma ChangedWithinTransitive(a: seq<Block>, b: seq<Block>, d: seq<Block>, lo: nat, lo': nat, hi: nat)
    requires lo <= lo' && ChangedWithin(a, b, lo, hi) && ChangedWithin(b, d, lo', hi)
    ensures ChangedWithin(a, d, lo, hi)
  {
    EvolvesTransitive(a, b, d);
  }

  /** Clearing the marks of pending positions changes nothing but marks. */
  lemma MarkedWithin(bs: seq<Block>, lo: nat, hi: nat)
    requires lo <= hi <= |bs|
    ensures var nb := Marked(bs, PendingIn(bs, lo, hi), false);
      && ChangedWithin(bs, nb, lo, hi)
      && forall k | 0 <= k < |bs| :: nb[k].translated == bs[k].translated
  {
    var idx := PendingIn(bs, lo, hi);
    PendingInSound(bs, lo, hi);
    MarkedAt(bs, idx, false);
    forall k | 0 <= k < |bs| && k in idx ensures lo <= k < hi {
      var q :| 0 <= q < |idx| && idx[q] == k;
    }
  }

  /** Writing answers to pending positions only fills in untranslated blocks
      of the range. */
  lemma WrittenWithin(bs: seq<Block>, lo: nat, hi: nat, res: seq<string>)
    requires lo <= hi <= |bs|
    ensures ChangedWithin(bs, Written(bs, PendingIn(bs, lo, hi), res), lo, hi)
  {
    var idx := PendingIn(bs, lo, hi);
    PendingInSound(bs, lo, hi);
    WrittenAt(bs, idx, res);
    forall k | 0 <= k < |bs| && k in idx
      ensures Written(bs, idx, res)[k] == bs[k].(translated := Written(bs, idx, res)[k].translated, isLoading := false)
      ensures lo <= k < hi && bs[k].translated == ""
    {
      var q :| 0 <= q < |idx| && idx[q] == k;
    }
  }

  // ---------------------------------------------------------------------------
  // One window

  /** A window only changes its own untranslated blocks, and only their
      translations and loading marks; a failed window changes no translation
      and leaves no block marked. */
  lemma WindowBlocks(c: Config, bs: seq<Block>, buf: seq<string>, calls: seq<Call>, i: nat)
    requires c.batch >= 1 && i < |bs|
    ensures var w := Window(c, bs, buf, calls, i);
      && ChangedWithin(bs, w.blocks, i, WindowEnd(|bs|, i, c.batch))
      && (w.failed ==> forall k | 0 <= k < |bs| :: w.blocks[k].translated == bs[k].translated)
  {
    var hi := WindowEnd(|bs|, i, c.batch);
    var idx := PendingIn(bs, i, hi);
    if |idx| > 0 {
      var answer := c.translate(Request(bs, idx), |calls|);
      if answer.None? {
        MarkedWithin(bs, i, hi);
      } else {
        WrittenWithin(bs, i, hi, answer.value);
      }
    }
  }

  /** When every block of `[lo, hi)` is translated, pushing the translated ones
      is pushing them all. */
  lemma {:induction false} AllTranslatedOriginals(bs: seq<Block>, lo: nat, hi: nat)
    requires lo <= hi <= |bs| && forall k | lo <= k < hi :: bs[k].translated != ""
    ensures TranslatedOriginals(bs, lo, hi) == Originals(bs, lo, hi)
    decreases hi - lo
  {
    if lo < hi {
      AllTranslatedOriginals(bs, lo, hi - 1);
    }
  }

  /** No position is pending exactly when every block of the range is translated. */
  lemma NonePending(bs: seq<Block>, lo: nat, hi: nat)
    requires lo <= hi <= |bs|
    ensures |PendingIn(bs, lo, hi)| == 0 <==> forall k | lo <= k < hi :: bs[k].translated != ""
  {
    PendingInFacts(bs, lo, hi);
  }

  /** A window with nothing untranslated sends nothing, changes no block and
      moves the context on by its originals. */
  lemma WindowSkip(c: Config, bs: seq<Block>, buf: seq<string>, calls: seq<Call>, i: nat)
    requires c.batch >= 1 && i < |bs|
    requires forall k | i <= k < WindowEnd(|bs|, i, c.batch) :: bs[k].translated != ""
    ensures Window(c, bs, buf, calls, i) == Outcome(bs, LastN(buf + Originals(bs, i, WindowEnd(|bs|, i, c.batch)), c.window), calls, i, false)
  {
    var hi := WindowEnd(|bs|, i, c.batch);
    NonePending(bs, i, hi);
    AllTranslatedOriginals(bs, i, hi);
  }

  /** The context after a window that did not fail: the last `window` of the
      context before and all the window's originals. */
  lemma WindowContext(c: Config, bs: seq<Block>, buf: seq<string>, calls: seq<Call>, i: nat)
    requires c.batch >= 1 && i < |bs| && !Window(c, bs, buf, calls, i).failed
    ensures Window(c, bs, buf, calls, i).buffer == LastN(buf + Originals(bs, i, WindowEnd(|bs|, i, c.batch)), c.window)
  {
    var hi := WindowEnd(|bs|, i, c.batch);
    if |PendingIn(bs, i, hi)| == 0 {
      NonePending(bs, i, hi);
      WindowSkip(c, bs, buf, calls, i);
    }
  }

  /** What a window starting at `i` does to the blocks: it leaves `next` at
      `i`, changes only the untranslated blocks of `[i, hi)`, and after a
      failure every translation is as it was. */
  ghost predicate StepFrame(c: Config, bs: seq<Block>, i: nat, w: Outcome)
    requires c.batch >= 1 && i < |bs|
  {
    var hi := WindowEnd(|bs|, i, c.batch);
    && w.next == i
    && ChangedWithin(bs, w.blocks, i, hi)
    && (w.failed ==> forall k | 0 <= k < |bs| :: w.blocks[k].translated == bs[k].translated)
  }

  /** What a window does to the context: a failure leaves it as it was,
      anything else pushes the window's originals. */
  ghost predicate StepContext(c: Config, bs: seq<Block>, buf: seq<string>, i: nat, w: Outcome)
    requires c.batch >= 1 && i < |bs|
  {
    var hi := WindowEnd(|bs|, i, c.batch);
    && (w.failed ==> w.buffer == buf)
    && (!w.failed ==> w.buffer == LastN(buf + Originals(bs, i, hi), c.window))
  }

  /** What a window sends: nothing, and no change at all, when nothing is
      pending; otherwise the pending blocks with the context as the next
      request, failing exactly when that request throws. */
  ghost predicate StepCalls(c: Config, bs: seq<Block>, buf: seq<string>, calls: seq<Call>, i: nat, w: Outcome)
    requires c.batch >= 1 && i < |bs|
  {
    var hi := WindowEnd(|bs|, i, c.batch);
    var idx := PendingIn(bs, i, hi);
    && (|idx| == 0 ==> w.blocks == bs && w.calls == calls && !w.failed)
    && (|idx| > 0 ==>
          var answer := c.translate(Request(bs, idx), |calls|);
          && w.calls == calls + [Call(i, idx, Request(bs, idx), Join(buf, "\n"), answer)]
          && (w.failed <==> answer.None?))
  }

  /** What a window writes: each answer line to its pending block. */
  ghost predicate StepWrites(c: Config, bs: seq<Block>, calls: seq<Call>, i: nat, w: Outcome)
    requires c.batch >= 1 && i < |bs|
  {
    var hi := WindowEnd(|bs|, i, c.batch);
    var idx := PendingIn(bs, i, hi);
    && |w.blocks| == |bs|
    && (|idx| > 0 && c.translate(Request(bs, idx), |calls|).Some? ==>
          var answer := c.translate(Request(bs, idx), |calls|);
          forall q | 0 <= q < |idx| && idx[q] < |bs| ::
            w.blocks[idx[q]] == bs[idx[q]].(translated := Answer(answer.value, q), isLoading := false))
  }

  /** The window step `win` does at every start what the four predicates
      above say. */
  ghost predicate Obeys(c: Config, win: WindowStep) {
    && KeepsCount(win)
    && (forall bs: seq<Block>, buf: seq<string>, calls: seq<Call>, i: nat
         {:trigger StepFrame(c, bs, i, win(bs, buf, calls, i))}
         | c.batch >= 1 && i < |bs| ::
         StepFrame(c, bs, i, win(bs, buf, calls, i)))
    && (forall bs: seq<Block>, buf: seq<string>, calls: seq<Call>, i: nat
         {:trigger StepContext(c, bs, buf, i, win(bs, buf, calls, i))}
         | c.batch >= 1 && i < |bs| ::
         StepContext(c, bs, buf, i, win(bs, buf, calls, i)))
    && (forall bs: seq<Block>, buf: seq<string>, calls: seq<Call>, i: nat
         {:trigger StepCalls(c, bs, buf, calls, i, win(bs, buf, calls, i))}
         | c.batch >= 1 && i < |bs| ::
         StepCalls(c, bs, buf, calls, i, win(bs, buf, calls, i)))
    && (forall bs: seq<Block>, buf: seq<string>, calls: seq<Call>, i: nat
         {:trigger StepWrites(c, bs, calls, i, win(bs, buf, calls, i))}
         | c.batch >= 1 && i < |bs| ::
         StepWrites(c, bs, calls, i, win(bs, buf, calls, i)))
  }

  lemma WindowFacts(c: Config, bs: seq<Block>, buf: seq<string>, calls: seq<Call>, i: nat)
    requires c.batch >= 1 && i < |bs|
    ensures var w := Window(c, bs, buf, calls, i);
      && StepFrame(c, bs, i, w) && StepContext(c, bs, buf, i, w)
      && StepCalls(c, bs, buf, calls, i, w) && StepWrites(c, bs, calls, i, w)
  {
    var w := Window(c, bs, buf, calls, i);
    var hi := WindowEnd(|bs|, i, c.batch);
    var idx := PendingIn(bs, i, hi);
    WindowBlocks(c, bs, buf, calls, i);
    if !w.failed {
      WindowContext(c, bs, buf, calls, i);
    }
    if |idx| > 0 {
      var answer := c.translate(Request(bs, idx), |calls|);
      if answer.Some? {
        PendingInSound(bs, i, hi);
        WrittenAt(bs, idx, answer.value);
      }
    }
  }

  /** The app's window does what the loop lemmas assume. */
  lemma AppWindowObeys(c: Config)
    ensures Obeys(c, AppWindow(c))
  {
    forall bs: seq<Block>, buf: seq<string>, calls: seq<Call>, i: nat | c.batch >= 1 && i < |bs|
      ensures var w := AppWindow(c)(bs, buf, calls, i);
        && StepFrame(c, bs, i, w) && StepContext(c, bs, buf, i, w)
        && StepCalls(c, bs, buf, calls, i, w) && StepWrites(c, bs, calls, i, w)
    {
      WindowFacts(c, bs, buf, calls, i);
    }
  }


  // ---------------------------------------------------------------------------
  // The whole loop: blocks

  /** The loop from `i` on changes only blocks from `i` on, only their
      translations and loading marks, never a block translated before, and
      leaves no block marked as loading if none was; it ends at or after `i`. */
  lemma {:induction false} LoopChanged(c: Config, win: WindowStep, bs: seq<Block>, buf: seq<string>, calls: seq<Call>, i: nat)
    requires c.batch >= 1 && Obeys(c, win)
    ensures var r := Loop(c, win, bs, buf, calls, i); r.next >= i && ChangedWithin(bs, r.blocks, i, |bs|)
    decreases |bs| - i
  {
    if i < |bs| && !c.stop(i) {
      var w := win(bs, buf, calls, i);
      assert StepFrame(c, bs, i, w);
      if !w.failed {
        LoopChanged(c, win, w.blocks, w.buffer, w.calls, i + c.batch);
        ChangedWithinTransitive(bs, w.blocks, Loop(c, win, w.blocks, w.buffer, w.calls, i + c.batch).blocks, i, i + c.batch, |bs|);
      }
    }
  }

  /** The loop ends at or after where it starts. */
  lemma {:induction false} LoopNextAtLeast(c: Config, win: WindowStep, bs: seq<Block>, buf: seq<string>, calls: seq<Call>, i: nat)
    requires c.batch >= 1 && Obeys(c, win)
    ensures Loop(c, win, bs, buf, calls, i).next >= i
    decreases |bs| - i
  {
    if i < |bs| && !c.stop(i) {
      var w := win(bs, buf, calls, i);
      assert StepFrame(c, bs, i, w);
      if !w.failed {
        LoopNextAtLeast(c, win, w.blocks, w.buffer, w.calls, i + c.batch);
      }
    }
  }

  /** From where the loop ended on, no translation changed; when it ended
      without a failure, those blocks are exactly as they were. */
  lemma {:induction false} LoopFrameAfter(c: Config, win: WindowStep, bs: seq<Block>, buf: seq<string>, calls: seq<Call>, i: nat)
    requires c.batch >= 1 && Obeys(c, win)
    ensures var r := Loop(c, win, bs, buf, calls, i);
      && (forall k | r.next <= k < |bs| :: r.blocks[k].translated == bs[k].translated)
      && (!r.failed ==> SameIn(bs, r.blocks, r.next, |bs|))
    decreases |bs| - i
  {
    if i < |bs| && !c.stop(i) {
      var w := win(bs, buf, calls, i);
      assert StepFrame(c, bs, i, w);
      if !w.failed {
        LoopFrameAfter(c, win, w.blocks, w.buffer, w.calls, i + c.batch);
        LoopNextAtLeast(c, win, w.blocks, w.buffer, w.calls, i + c.batch);
      }
    }
  }

  /** A loop over blocks that are all translated sends nothing and changes
      nothing. */
  lemma {:induction false} LoopNothingToDo(c: Config, win: WindowStep, bs: seq<Block>, buf: seq<string>, calls: seq<Call>, i: nat)
    requires c.batch >= 1 && Obeys(c, win)
    requires forall k | i <= k < |bs| :: bs[k].translated != ""
    ensures var r := Loop(c, win, bs, buf, calls, i); !r.failed && r.calls == calls && r.blocks == bs
    decreases |bs| - i
  {
    if i < |bs| && !c.stop(i) {
      var w := win(bs, buf, calls, i);
      assert StepCalls(c, bs, buf, calls, i, w);
      NonePending(bs, i, WindowEnd(|bs|, i, c.batch));
      LoopNothingToDo(c, win, w.blocks, w.buffer, w.calls, i + c.batch);
    }
  }

  // ---------------------------------------------------------------------------
  // The whole loop: where it stops

  /** `j` is one of `i`, `i + b`, `i + 2b`, ...: a window start of a loop that
      began at `i` with batches of `b`. */
  predicate WindowStart(i: nat, b: nat, j: nat)
    decreases j - i
  {
    b >= 1 && i <= j && (j == i || (i + b <= j && WindowStart(i + b, b, j)))
  }

  /** The window starts are the positions a whole number of batches after `i`. */
  lemma {:induction false} WindowStartMultiple(i: nat, b: nat, j: nat)
    requires b >= 1
    ensures WindowStart(i, b, j) <==> i <= j && (j - i) % b == 0
    decreases j - i
  {
    if i <= j && j != i {
      if i + b <= j {
        WindowStartMultiple(i + b, b, j);
        ModShift(j - i, b);
      } else {
        ModShift(j - i, b);
      }
    }
  }

  /** Moving one period along keeps the remainder; between `0` and one period
      only `0` has remainder `0`. */
  lemma ModShift(x: nat, b: nat)
    requires b >= 1
    ensures x >= b ==> (x - b) % b == x % b
    ensures 0 < x < b ==> x % b != 0
  {
    if x >= b {
      var q, r := x / b, x % b;
      assert x == q * b + r && 0 <= r < b;
      MulBounds(q, b);
      assert q >= 1;
      assert x - b == (q - 1) * b + r;
      ModUnique(x - b, b, q - 1, r);
    }
  }

  /** Division with remainder is unique. */
  lemma ModUnique(y: int, b: nat, q: int, r: int)
    requires b >= 1 && 0 <= r < b && y == q * b + r
    ensures y % b == r
  {
    var q', r' := y / b, y % b;
    assert y == q' * b + r' && 0 <= r' < b;
    assert (q - q') * b == r' - r;
    MulBounds(q - q', b);
    assert q == q';
  }

  /** A non-zero multiple of `b` is at least `b` away from `0`. */
  lemma MulBounds(d: int, b: int)
    requires b >= 0
    ensures d >= 1 ==> d * b >= b
    ensures d <= 0 ==> d * b <= 0
    ensures d <= -1 ==> d * b <= -b
  {
    if d >= 1 {
      assert d * b == (d - 1) * b + b;
    } else if d <= -1 {
      assert d * b == (d + 1) * b - b;
    }
  }

  /** The stop flag is read before every window: the loop ends at a window
      start; if it ended inside the blocks without a failure, the flag was set
      there; a failure happens inside the blocks at a start the flag let
      through; no earlier window start saw the flag set. */
  lemma {:induction false} LoopStops(c: Config, win: WindowStep, bs: seq<Block>, buf: seq<string>, calls: seq<Call>, i: nat)
    requires c.batch >= 1 && Obeys(c, win)
    ensures var r := Loop(c, win, bs, buf, calls, i);
      && WindowStart(i, c.batch, r.next)
      && (!r.failed && r.next < |bs| ==> c.stop(r.next))
      && (r.failed ==> r.next < |bs| && !c.stop(r.next))
      && (forall j | i <= j < r.next && WindowStart(i, c.batch, j) :: j < |bs| && !c.stop(j))
    decreases |bs| - i
  {
    if i < |bs| && !c.stop(i) {
      var w := win(bs, buf, calls, i);
      assert StepFrame(c, bs, i, w) && StepCalls(c, bs, buf, calls, i, w);
      if !w.failed {
        LoopStops(c, win, w.blocks, w.buffer, w.calls, i + c.batch);
      }
    }
  }

  // ---------------------------------------------------------------------------
  // The whole loop: the requests

  /** How far the loop got: the blocks before this position had their window. */
  function Reached(r: Outcome, n: nat): (k: nat)
    ensures k <= n && (k == r.next || k == n)
    ensures r.next <= n ==> k == r.next
  {
    if r.next < n then r.next else n
  }

  /** The pending positions of a range depend on that range only. */
  lemma {:induction false} PendingInSame(a: seq<Block>, b: seq<Block>, lo: nat, hi: nat)
    requires lo <= hi <= |a| == |b| && forall k | lo <= k < hi :: b[k] == a[k]
    ensures PendingIn(b, lo, hi) == PendingIn(a, lo, hi)
    decreases hi - lo
  {
    if lo < hi {
      PendingInSame(a, b, lo, hi - 1);
    }
  }

  /** Requests are only ever appended. */
  lemma {:induction false} LoopCallsPrefix(c: Config, win: WindowStep, bs: seq<Block>, buf: seq<string>, calls: seq<Call>, i: nat)
    requires c.batch >= 1 && Obeys(c, win)
    ensures var r := Loop(c, win, bs, buf, calls, i); |calls| <= |r.calls| && r.calls[..|calls|] == calls
    decreases |bs| - i
  {
    if i < |bs| && !c.stop(i) {
      var w := win(bs, buf, calls, i);
      assert StepCalls(c, bs, buf, calls, i, w);
      if !w.failed {
        LoopCallsPrefix(c, win, w.blocks, w.buffer, w.calls, i + c.batch);
        var r := Loop(c, win, w.blocks, w.buffer, w.calls, i + c.batch);
        assert r.calls[..|calls|] == r.calls[..|w.calls|][..|calls|];
      }
    }
  }

  /** What a request was sent for, in terms of the blocks as they were when
      the loop began. */
  predicate SentFor(c: Config, bs: seq<Block>, i: nat, call: Call) {
    && WindowStart(i, c.batch, call.start) && call.start < |bs| && !c.stop(call.start)
    && call.indices == PendingIn(bs, call.start, WindowEnd(|bs|, call.start, c.batch))
    && |call.indices| > 0
    && call.originals == Request(bs, call.indices)
  }

  /** A request sent by a later window reads blocks the earlier window did
      not change. */
  lemma SentForEarlier(c: Config, bs: seq<Block>, nb: seq<Block>, i: nat, call: Call)
    requires c.batch >= 1 && i < |bs|
    requires ChangedWithin(bs, nb, i, WindowEnd(|bs|, i, c.batch))
    requires SentFor(c, nb, i + c.batch, call)
    ensures SentFor(c, bs, i, call)
  {
    var s := call.start;
    PendingInSame(bs, nb, s, WindowEnd(|bs|, s, c.batch));
    forall k | 0 <= k < |bs| ensures bs[k].original == nb[k].original {
    }
    RequestSameOriginals(bs, nb, call.indices);
  }

  /** Each request was sent from a window start the stop flag let through,
      for exactly the untranslated blocks of that window as they were when the
      loop began, with their originals. */
  lemma {:induction false} LoopCallWindows(c: Config, win: WindowStep, bs: seq<Block>, buf: seq<string>, calls: seq<Call>, i: nat)
    requires c.batch >= 1 && Obeys(c, win)
    ensures var r := Loop(c, win, bs, buf, calls, i);
      forall q | |calls| <= q < |r.calls| :: SentFor(c, bs, i, r.calls[q])
    decreases |bs| - i
  {
    if i < |bs| && !c.stop(i) {
      var w := win(bs, buf, calls, i);
      assert StepCalls(c, bs, buf, calls, i, w) && StepFrame(c, bs, i, w);
      if !w.failed {
        var i' := i + c.batch;
        var r := Loop(c, win, w.blocks, w.buffer, w.calls, i');
        LoopCallWindows(c, win, w.blocks, w.buffer, w.calls, i');
        LoopCallsPrefix(c, win, w.blocks, w.buffer, w.calls, i');
        forall q | |calls| <= q < |r.calls| ensures SentFor(c, bs, i, r.calls[q]) {
          if q >= |w.calls| {
            SentForEarlier(c, bs, w.blocks, i, r.calls[q]);
          } else {
            assert r.calls[q] == w.calls[q];
          }
        }
      }
    }
  }

  /** The n-th request got the n-th answer; only the last request can have
      failed, and it did exactly when the loop ended on a failure. */
  lemma {:induction false} LoopCallAnswers(c: Config, win: WindowStep, bs: seq<Block>, buf: seq<string>, calls: seq<Call>, i: nat)
    requires c.batch >= 1 && Obeys(c, win)
    ensures var r := Loop(c, win, bs, buf, calls, i);
      && (forall q | |calls| <= q < |r.calls| :: r.calls[q].answer == c.translate(r.calls[q].originals, q))
      && (forall q | |calls| <= q < |r.calls| :: r.calls[q].answer.None? <==> r.failed && q == |r.calls| - 1)
      && (r.failed ==> |r.calls| > |calls|)
    decreases |bs| - i
  {
    if i < |bs| && !c.stop(i) {
      var w := win(bs, buf, calls, i);
      assert StepCalls(c, bs, buf, calls, i, w);
      if !w.failed {
        var i' := i + c.batch;
        LoopCallAnswers(c, win, w.blocks, w.buffer, w.calls, i');
        LoopCallsPrefix(c, win, w.blocks, w.buffer, w.calls, i');
        var r := Loop(c, win, w.blocks, w.buffer, w.calls, i');
        forall q | |calls| <= q < |w.calls| ensures r.calls[q] == w.calls[q] {
        }
      }
    }
  }

  // ---------------------------------------------------------------------------
  // The whole loop: the context sent with each request

  /** Cutting to the last `n` before appending more does not change the last
      `n` afterwards. */
  lemma LastNAppend(a: seq<string>, b: seq<string>, n: int)
    ensures LastN(LastN(a, n) + b, n) == LastN(a + b, n)
  {
    if n > 0 && |a| > n {
      LastNSuffix(a, n);
      var j := |a| - n;
      assert LastN(a, n) + b == (a + b)[j..];
    }
  }

  /** The originals of two adjacent ranges make those of their union. */
  lemma {:induction false} OriginalsAppend(bs: seq<Block>, lo: nat, mid: nat, hi: nat)
    requires lo <= mid <= hi <= |bs|
    ensures Originals(bs, lo, mid) + Originals(bs, mid, hi) == Originals(bs, lo, hi)
    decreases hi - mid
  {
    if mid < hi {
      OriginalsAppend(bs, lo, mid, hi - 1);
    }
  }

  /** Originals are never changed by the loop. */
  lemma {:induction false} OriginalsEvolve(bs: seq<Block>, nb: seq<Block>, lo: nat, hi: nat)
    requires Evolves(bs, nb) && lo <= hi <= |bs|
    ensures Originals(nb, lo, hi) == Originals(bs, lo, hi)
    decreases hi - lo
  {
    if lo < hi {
      OriginalsEvolve(bs, nb, lo, hi - 1);
    }
  }

  /** What has been seen after one more window, read off the blocks as they
      are after that window. */
  lemma SeenStep(bs: seq<Block>, nb: seq<Block>, seen: seq<string>, i: nat, mid: nat, j: nat)
    requires Evolves(bs, nb) && i <= mid <= j <= |bs|
    ensures (seen + Originals(bs, i, mid)) + Originals(nb, mid, j) == seen + Originals(bs, i, j)
  {
    OriginalsEvolve(bs, nb, mid, j);
    OriginalsAppend(bs, i, mid, j);
  }

  /** The context buffer is always the last `window` of what was seen before
      the loop followed by the originals of every block the loop got past. */
  lemma {:induction false} LoopContext(c: Config, win: WindowStep, bs: seq<Block>, seen: seq<string>, buf: seq<string>, calls: seq<Call>, i: nat)
    requires c.batch >= 1 && Obeys(c, win) && i <= |bs| && buf == LastN(seen, c.window)
    ensures var r := Loop(c, win, bs, buf, calls, i);
      i <= Reached(r, |bs|) && r.buffer == LastN(seen + Originals(bs, i, Reached(r, |bs|)), c.window)
    decreases |bs| - i
  {
    var r := Loop(c, win, bs, buf, calls, i);
    LoopNextAtLeast(c, win, bs, buf, calls, i);
    if i < |bs| && !c.stop(i) {
      var w := win(bs, buf, calls, i);
      assert StepContext(c, bs, buf, i, w) && StepFrame(c, bs, i, w);
      var hi := WindowEnd(|bs|, i, c.batch);
      if !w.failed {
        LastNAppend(seen, Originals(bs, i, hi), c.window);
        var i' := i + c.batch;
        if i' < |bs| {
          var seen' := seen + Originals(bs, i, hi);
          LoopContext(c, win, w.blocks, seen', w.buffer, w.calls, i');
          SeenStep(bs, w.blocks, seen, i, i', Reached(r, |bs|));
        }
      }
    } else {
      assert seen + Originals(bs, i, i) == seen;
    }
  }

  /** Each request carries as context the last `window` of what was seen
      before the loop followed by the originals of every block before its
      window. */
  lemma {:induction false} LoopCallContexts(c: Config, win: WindowStep, bs: seq<Block>, seen: seq<string>, buf: seq<string>, calls: seq<Call>, i: nat)
    requires c.batch >= 1 && Obeys(c, win) && buf == LastN(seen, c.window)
    ensures forall q | |calls| <= q < |Loop(c, win, bs, buf, calls, i).calls| ::
      && i <= Loop(c, win, bs, buf, calls, i).calls[q].start <= |bs|
      && Loop(c, win, bs, buf, calls, i).calls[q].context
         == Join(LastN(seen + Originals(bs, i, Loop(c, win, bs, buf, calls, i).calls[q].start), c.window), "\n")
    decreases |bs| - i
  {
    if i < |bs| && !c.stop(i) {
      var w := win(bs, buf, calls, i);
      assert StepCalls(c, bs, buf, calls, i, w) && StepContext(c, bs, buf, i, w) && StepFrame(c, bs, i, w);
      FirstCallContext(c, bs, seen, buf, calls, i, w);
      if !w.failed {
        var hi := WindowEnd(|bs|, i, c.batch);
        var i' := i + c.batch;
        LastNAppend(seen, Originals(bs, i, hi), c.window);
        LoopCallContexts(c, win, w.blocks, seen + Originals(bs, i, hi), w.buffer, w.calls, i');
        LoopCallsPrefix(c, win, w.blocks, w.buffer, w.calls, i');
        var r := Loop(c, win, w.blocks, w.buffer, w.calls, i');
        assert Loop(c, win, bs, buf, calls, i) == r;
        forall q | |calls| <= q < |r.calls|
          ensures i <= r.calls[q].start <= |bs|
          ensures r.calls[q].context == Join(LastN(seen + Originals(bs, i, r.calls[q].start), c.window), "\n")
        {
          if q < |w.calls| {
            assert r.calls[q] == r.calls[..|w.calls|][q];
          } else {
            SeenStep(bs, w.blocks, seen, i, i', r.calls[q].start);
          }
        }
      }
    }
  }

  /** The request a window sends carries the context before it. */
  lemma FirstCallContext(c: Config, bs: seq<Block>, seen: seq<string>, buf: seq<string>, calls: seq<Call>, i: nat, w: Outcome)
    requires c.batch >= 1 && i < |bs| && buf == LastN(seen, c.window)
    requires StepCalls(c, bs, buf, calls, i, w)
    ensures forall q | |calls| <= q < |w.calls| ::
      && w.calls[q].start == i
      && w.calls[q].context == Join(LastN(seen + Originals(bs, i, i), c.window), "\n")
  {
    assert seen + Originals(bs, i, i) == seen;
  }

  // ---------------------------------------------------------------------------
  // The whole loop: answers written and blocks covered

  /** Every answered request left its answers in its blocks: the block at the
      p-th requested position holds the p-th answer and is no longer loading,
      and is otherwise as it was before the loop. */
  lemma {:induction false} LoopWrites(c: Config, win: WindowStep, bs: seq<Block>, buf: seq<string>, calls: seq<Call>, i: nat)
    requires c.batch >= 1 && Obeys(c, win)
    ensures var r := Loop(c, win, bs, buf, calls, i);
      forall q, p | |calls| <= q < |r.calls| && r.calls[q].answer.Some? && 0 <= p < |r.calls[q].indices| && r.calls[q].indices[p] < |bs| ::
        r.blocks[r.calls[q].indices[p]] == bs[r.calls[q].indices[p]].(translated := Answer(r.calls[q].answer.value, p), isLoading := false)
    decreases |bs| - i
  {
    if i < |bs| && !c.stop(i) {
      var w := win(bs, buf, calls, i);
      assert StepWrites(c, bs, calls, i, w) && StepCalls(c, bs, buf, calls, i, w) && StepFrame(c, bs, i, w);
      if !w.failed {
        var i' := i + c.batch;
        var r := Loop(c, win, w.blocks, w.buffer, w.calls, i');
        LoopWrites(c, win, w.blocks, w.buffer, w.calls, i');
        LoopCallsPrefix(c, win, w.blocks, w.buffer, w.calls, i');
        LoopChanged(c, win, w.blocks, w.buffer, w.calls, i');
        WindowWritesKept(c, bs, buf, calls, i, w, r);
        LaterWritesKept(bs, w.blocks, r.blocks, r.calls, |w.calls|);
      }
    }
  }

  /** Answers written over blocks that evolved from `bs` are written over
      `bs` just the same. */
  lemma LaterWritesKept(bs: seq<Block>, nb: seq<Block>, rb: seq<Block>, cs: seq<Call>, from: nat)
    requires Evolves(bs, nb) && |rb| == |bs|
    requires forall q, p | from <= q < |cs| && cs[q].answer.Some? && 0 <= p < |cs[q].indices| && cs[q].indices[p] < |nb| ::
      rb[cs[q].indices[p]] == nb[cs[q].indices[p]].(translated := Answer(cs[q].answer.value, p), isLoading := false)
    ensures forall q, p | from <= q < |cs| && cs[q].answer.Some? && 0 <= p < |cs[q].indices| && cs[q].indices[p] < |bs| ::
      rb[cs[q].indices[p]] == bs[cs[q].indices[p]].(translated := Answer(cs[q].answer.value, p), isLoading := false)
  {
    forall q, p | from <= q < |cs| && cs[q].answer.Some? && 0 <= p < |cs[q].indices| && cs[q].indices[p] < |bs|
      ensures rb[cs[q].indices[p]] == bs[cs[q].indices[p]].(translated := Answer(cs[q].answer.value, p), isLoading := false)
    {
      var k := cs[q].indices[p];
      assert nb[k] == bs[k].(translated := nb[k].translated, isLoading := nb[k].isLoading);
    }
  }

  /** The answers a window wrote survive the later windows, which change only
      blocks after it. */
  lemma WindowWritesKept(c: Config, bs: seq<Block>, buf: seq<string>, calls: seq<Call>, i: nat, w: Outcome, r: Outcome)
    requires c.batch >= 1 && i < |bs| && StepFrame(c, bs, i, w) && StepCalls(c, bs, buf, calls, i, w) && StepWrites(c, bs, calls, i, w) && !w.failed
    requires |w.calls| <= |r.calls| && r.calls[..|w.calls|] == w.calls
    requires ChangedWithin(w.blocks, r.blocks, i + c.batch, |bs|)
    ensures forall q, p | |calls| <= q < |w.calls| && r.calls[q].answer.Some? && 0 <= p < |r.calls[q].indices| && r.calls[q].indices[p] < |bs| ::
        r.blocks[r.calls[q].indices[p]] == bs[r.calls[q].indices[p]].(translated := Answer(r.calls[q].answer.value, p), isLoading := false)
  {
    var hi := WindowEnd(|bs|, i, c.batch);
    PendingInSound(bs, i, hi);
    forall q | |calls| <= q < |w.calls| ensures r.calls[q] == w.calls[q] {
      assert r.calls[q] == r.calls[..|w.calls|][q];
    }
  }

  /** Every block the loop got past that was untranslated when it began was
      sent in some request. */
  lemma {:induction false} LoopCovers(c: Config, win: WindowStep, bs: seq<Block>, buf: seq<string>, calls: seq<Call>, i: nat)
    requires c.batch >= 1 && Obeys(c, win)
    ensures var r := Loop(c, win, bs, buf, calls, i);
      forall k | i <= k < Reached(r, |bs|) && bs[k].translated == "" ::
        exists q :: |calls| <= q < |r.calls| && k in r.calls[q].indices
    decreases |bs| - i
  {
    if i < |bs| && !c.stop(i) {
      var w := win(bs, buf, calls, i);
      assert StepCalls(c, bs, buf, calls, i, w) && StepFrame(c, bs, i, w);
      if !w.failed {
        var hi := WindowEnd(|bs|, i, c.batch);
        var i' := i + c.batch;
        var r := Loop(c, win, w.blocks, w.buffer, w.calls, i');
        LoopCovers(c, win, w.blocks, w.buffer, w.calls, i');
        LoopCallsPrefix(c, win, w.blocks, w.buffer, w.calls, i');
        PendingInComplete(bs, i, hi);
        forall k | i <= k < Reached(r, |bs|) && bs[k].translated == ""
          ensures exists q :: |calls| <= q < |r.calls| && k in r.calls[q].indices
        {
          if k < hi {
            assert r.calls[|calls|] == r.calls[..|w.calls|][|calls|];
            assert k in r.calls[|calls|].indices;
          } else {
            assert w.blocks[k] == bs[k];
            var q :| |w.calls| <= q < |r.calls| && k in r.calls[q].indices;
          }
        }
      }
    }
  }

  /** With the stop flag never set and every request answered, the loop
      neither fails nor stops early. */
  lemma {:induction false} LoopCompletes(c: Config, win: WindowStep, bs: seq<Block>, buf: seq<string>, calls: seq<Call>, i: nat)
    requires c.batch >= 1 && Obeys(c, win)
    requires forall j: nat :: !c.stop(j)
    requires forall xs: seq<string>, n: nat :: c.translate(xs, n).Some?
    ensures var r := Loop(c, win, bs, buf, calls, i); !r.failed && r.next >= |bs|
    decreases |bs| - i
  {
    if i < |bs| {
      var w := win(bs, buf, calls, i);
      assert StepCalls(c, bs, buf, calls, i, w) && StepFrame(c, bs, i, w);
      LoopCompletes(c, win, w.blocks, w.buffer, w.calls, i + c.batch);
    }
  }

  // ---------------------------------------------------------------------------
  // The loop as the app runs it

  /** With the stop flag never set and every request answered, every block
      that was untranslated holds the answer to the request that sent it, and
      every block that was translated is as it was. */
  lemma RunFillsAll(c: Config, bs: seq<Block>, buf: seq<string>)
    requires c.batch >= 1
    requires forall j: nat :: !c.stop(j)
    requires forall xs: seq<string>, n: nat :: c.translate(xs, n).Some?
    ensures var r := Run(c, bs, buf, [], 0);
      && (forall k | 0 <= k < |bs| && bs[k].translated != "" :: r.blocks[k] == bs[k])
      && (forall k | 0 <= k < |bs| && bs[k].translated == "" ::
            exists q, p :: (0 <= q < |r.calls| && 0 <= p < |r.calls[q].indices| && r.calls[q].indices[p] == k
              && r.calls[q].answer.Some? && r.blocks[k] == bs[k].(translated := Answer(r.calls[q].answer.value, p), isLoading := false)))
  {
    var win := AppWindow(c);
    var r := Loop(c, win, bs, buf, [], 0);
    AppWindowObeys(c);
    LoopChanged(c, win, bs, buf, [], 0);
    LoopCompletes(c, win, bs, buf, [], 0);
    LoopCovers(c, win, bs, buf, [], 0);
    LoopWrites(c, win, bs, buf, [], 0);
    LoopCallAnswers(c, win, bs, buf, [], 0);
    forall k | 0 <= k < |bs| && bs[k].translated == ""
      ensures exists q, p :: (0 <= q < |r.calls| && 0 <= p < |r.calls[q].indices| && r.calls[q].indices[p] == k
              && r.calls[q].answer.Some? && r.blocks[k] == bs[k].(translated := Answer(r.calls[q].answer.value, p), isLoading := false))
    {
      var q :| 0 <= q < |r.calls| && k in r.calls[q].indices;
      var p :| 0 <= p < |r.calls[q].indices| && r.calls[q].indices[p] == k;
    }
  }

  /** Every request the app makes is for at least one block, and an accepted
      answer has exactly one text per block requested, so no block gets the
      `undefined` of an answer that is too short. */
  lemma AppAnswersFit(batchSize: int, window: int, stop: nat -> bool, replies: nat -> Reply, parse: string -> Parsed,
                      bs: seq<Block>, buf: seq<string>)
    ensures var r := Run(AppConfig(batchSize, window, stop, replies, parse), bs, buf, [], 0);
      forall q | 0 <= q < |r.calls| ::
        && |r.calls[q].indices| > 0
        && |r.calls[q].originals| == |r.calls[q].indices|
        && (r.calls[q].answer.Some? ==> |r.calls[q].answer.value| == |r.calls[q].indices|)
  {
    var c := AppConfig(batchSize, window, stop, replies, parse);
    var win := AppWindow(c);
    AppWindowObeys(c);
    LoopCallWindows(c, win, bs, buf, [], 0);
    LoopCallAnswers(c, win, bs, buf, [], 0);
  }

  /** As written: every request of `handleStart` carries as context the last
      `window` of the originals of all blocks translated before the start,
      wherever they are, followed by the originals of every block before its
      window. */
  lemma StartContexts(c: Config, bs: seq<Block>)
    requires c.batch >= 1
    ensures var r := Run(c, bs, Prefilled(bs, c.window), [], 0);
      forall q | 0 <= q < |r.calls| ::
        && r.calls[q].start <= |bs|
        && r.calls[q].context == Join(LastN(TranslatedOriginals(bs, 0, |bs|) + Originals(bs, 0, r.calls[q].start), c.window), "\n")
  {
    AppWindowObeys(c);
    LoopCallContexts(c, AppWindow(c), bs, TranslatedOriginals(bs, 0, |bs|), Prefilled(bs, c.window), [], 0);
    assert Run(c, bs, Prefilled(bs, c.window), [], 0) == Loop(c, AppWindow(c), bs, Prefilled(bs, c.window), [], 0);
    assert Originals(bs, 0, 0) == [];
  }

  /** A work of two blocks, the first untranslated and the second translated. */
  function LeakExample(): (bs: seq<Block>)
    ensures |bs| == 2 && bs[0].translated == "" && bs[1].translated != ""
  {
    [Block("b0", "a", "", false, false, None, None, Text, 0),
     Block("b1", "b", "B", false, false, None, None, Text, 0)]
  }

  /** As written, with batches of one and a context window of two, the
      request for the first block carries the second block's text as the
      context that "precedes" it; the intended start sends no context. */
  lemma PrefillLeaksLaterText(replies: nat -> Reply, parse: string -> Parsed)
    ensures var bs := LeakExample();
      var c := AppConfig(1, 2, _ => false, replies, parse);
      var r := Run(c, bs, Prefilled(bs, 2), [], 0);
      var s := FreshStart(c, bs);
      && |r.calls| > 0 && r.calls[0].originals == ["a"] && r.calls[0].context == "b"
      && |s.calls| > 0 && s.calls[0].originals == ["a"] && s.calls[0].context == ""
  {
    var bs := LeakExample();
    var c := AppConfig(1, 2, _ => false, replies, parse);
    AppWindowObeys(c);
    assert TranslatedOriginals(bs, 0, 2) == ["b"];
    assert Prefilled(bs, 2) == ["b"];
    assert PendingIn(bs, 0, 1) == [0];
    FirstCall(c, bs, ["b"]);
    FirstCall(c, bs, []);
  }

  /** When the first block is untranslated and not stopped at, the first
      request is for the first window and carries the starting context. */
  lemma FirstCall(c: Config, bs: seq<Block>, buf: seq<string>)
    requires c.batch >= 1 && |bs| > 0 && !c.stop(0) && bs[0].translated == ""
    ensures var r := Run(c, bs, buf, [], 0);
      && |r.calls| > 0
      && r.calls[0].originals == Request(bs, PendingIn(bs, 0, WindowEnd(|bs|, 0, c.batch)))
      && r.calls[0].context == Join(buf, "\n")
  {
    var win := AppWindow(c);
    AppWindowObeys(c);
    var w := win(bs, buf, [], 0);
    assert StepCalls(c, bs, buf, [], 0, w);
    var hi := WindowEnd(|bs|, 0, c.batch);
    PendingInComplete(bs, 0, hi);
    assert 0 in PendingIn(bs, 0, hi);
    if !w.failed {
      LoopCallsPrefix(c, win, w.blocks, w.buffer, w.calls, c.batch);
      var r := Loop(c, win, w.blocks, w.buffer, w.calls, c.batch);
      assert r.calls[0] == r.calls[..1][0];
    }
  }

  /** Corrected: the loop starts with an empty context, so every request
      carries exactly the last `window` originals before its window. */
  function FreshStart(c: Config, bs: seq<Block>): (r: Outcome)
    requires c.batch >= 1
    ensures forall q | 0 <= q < |r.calls| ::
      && r.calls[q].start <= |bs|
      && r.calls[q].context == Join(LastN(Originals(bs, 0, r.calls[q].start), c.window), "\n")
  {
    FreshContexts(c, bs);
    Run(c, bs, [], [], 0)
  }

  lemma FreshContexts(c: Config, bs: seq<Block>)
    requires c.batch >= 1
    ensures var r := Run(c, bs, [], [], 0);
      forall q | 0 <= q < |r.calls| ::
        && r.calls[q].start <= |bs|
        && r.calls[q].context == Join(LastN(Originals(bs, 0, r.calls[q].start), c.window), "\n")
  {
    AppWindowObeys(c);
    var none: seq<string> := [];
    var r := Loop(c, AppWindow(c), bs, none, [], 0);
    assert Run(c, bs, [], [], 0) == r;
    assert LastN(none, c.window) == none;
    LoopCallContexts(c, AppWindow(c), bs, none, none, [], 0);
    forall q | 0 <= q < |r.calls|
      ensures r.calls[q].start <= |bs| && r.calls[q].context == Join(LastN(Originals(bs, 0, r.calls[q].start), c.window), "\n")
    {
      var s := r.calls[q].start;
      assert 0 <= s <= |bs| && r.calls[q].context == Join(LastN(none + Originals(bs, 0, s), c.window), "\n");
      assert none + Originals(bs, 0, s) == Originals(bs, 0, s);
    }
  }

}
