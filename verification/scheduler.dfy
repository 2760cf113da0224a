/** The batch translation loop of `handleStart` (App.tsx): the blocks are walked
    in windows of `B = max(1, batchSize)`; a window's untranslated blocks are
    sent together with the recent originals as context, the answers are written
    back in place, and a failure clears the loading marks and ends the run.

    The translator is an oracle: `replies(n)` is what the n-th request gets back,
    and `parse` stands for `JSON.parse`. The stop flag is an oracle too:
    `stop(i)` is what the loop reads before the window that starts at `i`. */
module Scheduler {
  import opened Wrappers
  import opened JsString
  import opened Types
  import opened Gemini

  // ---------------------------------------------------------------------------
  // The context buffer

  /** The last `n` elements of `xs` (all of them when there are fewer, none when
      `n` is not positive). */
  function LastN(xs: seq<string>, n: int): (r: seq<string>)
    ensures n <= 0 ==> r == []
    ensures 0 <= n ==> |r| == (if |xs| <= n then |xs| else n)
  {
    if n <= 0 then [] else if |xs| <= n then xs else xs[|xs| - n..]
  }

  /** What `LastN` keeps is a suffix. */
  lemma LastNSuffix(xs: seq<string>, n: int)
    ensures LastN(xs, n) == xs[|xs| - |LastN(xs, n)|..]
  {
  }

  /** `contextBuffer.push(x); if (contextBuffer.length > contextWindow) contextBuffer.shift();` */
  function Push(buf: seq<string>, x: string, window: int): seq<string> {
    if |buf + [x]| > window then (buf + [x])[1..] else buf + [x]
  }

  /** Pushing onto the last `window` elements seen keeps the last `window`
      elements seen. */
  lemma PushLastN(seen: seq<string>, x: string, window: int)
    ensures Push(LastN(seen, window), x, window) == LastN(seen + [x], window)
  {
    var s := seen + [x];
    if window > 0 && |seen| >= window {
      assert (LastN(seen, window) + [x])[1..] == s[|s| - window..];
    }
  }

  /** A buffer already cut to the window is its own last `window` elements. */
  lemma LastNIdempotent(xs: seq<string>, n: int)
    ensures LastN(LastN(xs, n), n) == LastN(xs, n)
  {
  }

  // ---------------------------------------------------------------------------
  // One window

  /** The originals of `bs[lo..hi]`, in order. */
  function Originals(bs: seq<Block>, lo: nat, hi: nat): (r: seq<string>)
    requires lo <= hi <= |bs|
    ensures |r| == hi - lo
    decreases hi - lo
  {
    if lo == hi then [] else Originals(bs, lo, hi - 1) + [bs[hi - 1].original]
  }

  /** The originals of the translated blocks among `bs[lo..hi]`, in order. */
  function TranslatedOriginals(bs: seq<Block>, lo: nat, hi: nat): seq<string>
    requires lo <= hi <= |bs|
    decreases hi - lo
  {
    if lo == hi then []
    else TranslatedOriginals(bs, lo, hi - 1) + (if bs[hi - 1].translated != "" then [bs[hi - 1].original] else [])
  }

  /** `batch.map((b, idx) => !b.translated ? i + idx : -1).filter(idx => idx !== -1)`:
      the positions in `[lo, hi)` of the untranslated blocks, ascending
      (`PendingInFacts`). */
  function PendingIn(bs: seq<Block>, lo: nat, hi: nat): seq<nat>
    requires lo <= hi <= |bs|
    decreases hi - lo
  {
    if lo == hi then []
    else PendingIn(bs, lo, hi - 1) + (if bs[hi - 1].translated == "" then [hi - 1] else [])
  }

  /** The pending positions lie in the window, are untranslated and ascend. */
  lemma {:induction false} PendingInSound(bs: seq<Block>, lo: nat, hi: nat)
    requires lo <= hi <= |bs|
    ensures var r := PendingIn(bs, lo, hi);
      && (forall q | 0 <= q < |r| :: lo <= r[q] < hi && bs[r[q]].translated == "")
      && Ascending(r)
    decreases hi - lo
  {
    if lo < hi {
      PendingInSound(bs, lo, hi - 1);
    }
  }

  /** Every untranslated block of the window is pending. */
  lemma {:induction false} PendingInComplete(bs: seq<Block>, lo: nat, hi: nat)
    requires lo <= hi <= |bs|
    ensures forall k | lo <= k < hi && bs[k].translated == "" :: k in PendingIn(bs, lo, hi)
    decreases hi - lo
  {
    if lo < hi {
      PendingInComplete(bs, lo, hi - 1);
    }
  }

  lemma PendingInFacts(bs: seq<Block>, lo: nat, hi: nat)
    requires lo <= hi <= |bs|
    ensures var r := PendingIn(bs, lo, hi);
      && (forall q | 0 <= q < |r| :: lo <= r[q] < hi && bs[r[q]].translated == "")
      && Ascending(r)
      && (forall k | lo <= k < hi && bs[k].translated == "" :: k in r)
  {
    PendingInSound(bs, lo, hi);
    PendingInComplete(bs, lo, hi);
  }

  /** The originals sent for the given positions: `indices.map(k => blocks[k].original)`.
      (Every position the loop sends is in range; past the end stands in for
      nothing.) */
  function Request(bs: seq<Block>, idx: seq<nat>): (r: seq<string>)
    ensures |r| == |idx|
    decreases |idx|
  {
    if |idx| == 0 then []
    else
      var k := idx[|idx| - 1];
      Request(bs, idx[..|idx| - 1]) + [if k < |bs| then bs[k].original else ""]
  }

  /** `idx.forEach(k => blocks[k].isLoading = flag)` */
  function Marked(bs: seq<Block>, idx: seq<nat>, flag: bool): (r: seq<Block>)
    ensures |r| == |bs|
    decreases |idx|
  {
    if |idx| == 0 then bs
    else
      var m := Marked(bs, idx[..|idx| - 1], flag);
      var k := idx[|idx| - 1];
      if k < |m| then m[k := m[k].(isLoading := flag)] else m
  }

  /** `results[q]`: an index past the end of the array reads `undefined`,
      which the app treats as it treats the empty string. */
  function Answer(res: seq<string>, q: nat): (r: string)
    ensures q < |res| ==> r == res[q]
    ensures |res| <= q ==> r == ""
  {
    if q < |res| then res[q] else ""
  }

  /** `idx.forEach((k, q) => { blocks[k].translated = res[q]; blocks[k].isLoading = false; })` */
  function Written(bs: seq<Block>, idx: seq<nat>, res: seq<string>): (r: seq<Block>)
    ensures |r| == |bs|
    decreases |idx|
  {
    if |idx| == 0 then bs
    else
      var w := Written(bs, idx[..|idx| - 1], res);
      var k := idx[|idx| - 1];
      if k < |w| then w[k := w[k].(translated := Answer(res, |idx| - 1), isLoading := false)] else w
  }

  // ---------------------------------------------------------------------------
  // The whole loop

  /** What the loop is run with. `batch` is already `max(1, batchSize)`;
      `translate(originals, n)` is what the n-th `translateBatch` call resolves
      to, `None` when it throws. */
  datatype Config = Config(
    batch: nat,
    window: int,
    stop: nat -> bool,
    translate: (seq<string>, nat) -> Option<seq<string>>)

  /** The configuration `handleStart` runs with: `translateBatch` on the n-th
      reply of the model. */
  function AppConfig(batchSize: int, window: int, stop: nat -> bool, replies: nat -> Reply, parse: string -> Parsed): (c: Config)
    ensures c.batch == BatchSize(batchSize) && c.window == window && c.stop == stop
    ensures forall xs: seq<string>, n: nat :: c.translate(xs, n) == AcceptBatch(xs, replies(n), parse)
  {
    Config(BatchSize(batchSize), window, stop, (xs: seq<string>, n: nat) => AcceptBatch(xs, replies(n), parse))
  }

  /** One request: the start of the window that sent it, the positions sent,
      their originals, the context text and what `translateBatch` gave back
      (`None` when it threw). */
  datatype Call = Call(start: nat, indices: seq<nat>, originals: seq<string>, context: string, answer: Option<seq<string>>)

  /** The state the loop ends in; `next` is the start of the window it was
      about to run (or had failed on) when it ended. */
  datatype Outcome = Outcome(blocks: seq<Block>, buffer: seq<string>, calls: seq<Call>, next: nat, failed: bool)

  function WindowEnd(n: nat, i: nat, b: nat): (r: nat)
    ensures r <= n && (i < n ==> i < r || b == 0)
  {
    if i + b < n then i + b else n
  }

  /** One window starting at `i`: the untranslated blocks of `[i, i + batch)`
      are sent, each gets its answer and loses its loading mark, and the
      window's originals are pushed onto the context; a window with nothing to
      send only pushes the originals of its translated blocks. A failed request
      leaves the blocks as they were with their loading marks cleared, the
      context as it was, and `failed` set. (The marks the loop sets before the
      request are overwritten either way; `RunWindow` shows the steps.) */
  function Window(c: Config, bs: seq<Block>, buf: seq<string>, calls: seq<Call>, i: nat): (r: Outcome)
    requires c.batch >= 1 && i < |bs|
    ensures r.next == i && |r.blocks| == |bs|
  {
    var hi := WindowEnd(|bs|, i, c.batch);
    var idx := PendingIn(bs, i, hi);
    if |idx| == 0 then Outcome(bs, LastN(buf + TranslatedOriginals(bs, i, hi), c.window), calls, i, false)
    else Send(c, bs, buf, calls, i, hi, idx)
  }

  /** The window's request for the pending positions `idx` and what follows
      from its answer. */
  function Send(c: Config, bs: seq<Block>, buf: seq<string>, calls: seq<Call>, i: nat, hi: nat, idx: seq<nat>): (r: Outcome)
    requires i <= hi <= |bs|
    ensures r.next == i && |r.blocks| == |bs|
  {
    var originals := Request(bs, idx);
    var answer := c.translate(originals, |calls|);
    var call := Call(i, idx, originals, Join(buf, "\n"), answer);
    match answer
    case None => Outcome(Marked(bs, idx, false), buf, calls + [call], i, true)
    case Some(res) => Outcome(Written(bs, idx, res), LastN(buf + Originals(bs, i, hi), c.window), calls + [call], i, false)
  }

  /** One window as a step of the loop: from the blocks, the context, the
      requests so far and the window start to the state after the window. */
  type WindowStep = (seq<Block>, seq<string>, seq<Call>, nat) -> Outcome

  /** A window never changes how many blocks there are. */
  ghost predicate KeepsCount(win: WindowStep) {
    forall bs: seq<Block>, buf: seq<string>, calls: seq<Call>, i: nat | i < |bs| :: |win(bs, buf, calls, i).blocks| == |bs|
  }

  /** The loop over windows of `c.batch` blocks from the window starting at
      `i` on, whatever each window does: it ends past the last block, when the
      stop flag is read as set, or on the first failed window. */
  function Loop(c: Config, win: WindowStep, bs: seq<Block>, buf: seq<string>, calls: seq<Call>, i: nat): (r: Outcome)
    requires c.batch >= 1 && KeepsCount(win)
    ensures |r.blocks| == |bs|
    decreases |bs| - i
  {
    if i >= |bs| || c.stop(i) then Outcome(bs, buf, calls, i, false)
    else
      var w := win(bs, buf, calls, i);
      if w.failed then w else Loop(c, win, w.blocks, w.buffer, w.calls, i + c.batch)
  }

  /** The window `handleStart` runs (a start past the blocks changes nothing). */
  function AppWindow(c: Config): (win: WindowStep)
    ensures KeepsCount(win)
  {
    (bs: seq<Block>, buf: seq<string>, calls: seq<Call>, i: nat) =>
      if c.batch >= 1 && i < |bs| then Window(c, bs, buf, calls, i) else Outcome(bs, buf, calls, i, false)
  }

  /** The loop `handleStart` runs from the window starting at `i` on. */
  function Run(c: Config, bs: seq<Block>, buf: seq<string>, calls: seq<Call>, i: nat): (r: Outcome)
    requires c.batch >= 1
    ensures |r.blocks| == |bs|
  {
    Loop(c, AppWindow(c), bs, buf, calls, i)
  }

  /** One step of the loop: a failed window is where it ends, any other window
      hands over to the next one. */
  lemma RunStep(c: Config, bs: seq<Block>, buf: seq<string>, calls: seq<Call>, i: nat,
                bs': seq<Block>, buf': seq<string>, calls': seq<Call>, failed: bool, i': nat, result: Outcome)
    requires c.batch >= 1 && i < |bs| && !c.stop(i) && Run(c, bs, buf, calls, i) == result
    requires Outcome(bs', buf', calls', i, failed) == Window(c, bs, buf, calls, i)
    requires i' == if failed then i else i + c.batch
    ensures failed ==> Outcome(bs', buf', calls', i', true) == result
    ensures !failed ==> Run(c, bs', buf', calls', i') == result
  {
    assert AppWindow(c)(bs, buf, calls, i) == Window(c, bs, buf, calls, i);
  }

  /** `Math.max(1, batchSize)` */
  function BatchSize(batchSize: int): (r: nat)
    ensures r >= 1 && (batchSize >= 1 ==> r == batchSize)
  {
    if batchSize < 1 then 1 else batchSize
  }

  /** The state after the prefill: the last `window` originals of the blocks
      translated already. */
  function Prefilled(bs: seq<Block>, window: int): seq<string> {
    LastN(TranslatedOriginals(bs, 0, |bs|), window)
  }

  // ---------------------------------------------------------------------------
  // The loop as written

  method MarkLoading(blocks: array<Block>, idx: seq<nat>, flag: bool)
    requires forall q | 0 <= q < |idx| :: idx[q] < blocks.Length
    modifies blocks
    ensures blocks[..] == Marked(old(blocks[..]), idx, flag)
  {
    var q := 0;
    while q < |idx|
      invariant 0 <= q <= |idx|
      invariant blocks[..] == Marked(old(blocks[..]), idx[..q], flag)
    {
      assert idx[..q + 1][..q] == idx[..q];
      blocks[idx[q]] := blocks[idx[q]].(isLoading := flag);
      q := q + 1;
    }
    assert idx[..q] == idx;
  }

  method WriteResults(blocks: array<Block>, idx: seq<nat>, res: seq<string>)
    requires forall q | 0 <= q < |idx| :: idx[q] < blocks.Length
    modifies blocks
    ensures blocks[..] == Written(old(blocks[..]), idx, res)
  {
    var q := 0;
    while q < |idx|
      invariant 0 <= q <= |idx|
      invariant blocks[..] == Written(old(blocks[..]), idx[..q], res)
    {
      assert idx[..q + 1][..q] == idx[..q];
      var text := if q < |res| then res[q] else "";
      blocks[idx[q]] := blocks[idx[q]].(translated := text, isLoading := false);
      q := q + 1;
    }
    assert idx[..q] == idx;
  }

  /** The prefill: every translated block's original pushed in order. */
  method Prefill(blocks: array<Block>, window: int) returns (buffer: seq<string>)
    ensures buffer == Prefilled(blocks[..], window)
  {
    buffer := [];
    var k := 0;
    while k < blocks.Length
      invariant 0 <= k <= blocks.Length
      invariant buffer == LastN(TranslatedOriginals(blocks[..], 0, k), window)
    {
      if blocks[k].translated != "" {
        PushLastN(TranslatedOriginals(blocks[..], 0, k), blocks[k].original, window);
        buffer := buffer + [blocks[k].original];
        if |buffer| > window {
          buffer := buffer[1..];
        }
      }
      k := k + 1;
    }
  }

  /** `batch.forEach(b => { if (b.translated) push(b.original) })` for the
      window `[lo, hi)`, or every block of it when `all` holds; on a buffer
      already cut to the window, the result is the last `window` of the
      buffer followed by what was pushed. */
  method PushWindow(blocks: array<Block>, lo: nat, hi: nat, buffer0: seq<string>, window: int, all: bool)
    returns (buffer: seq<string>)
    requires lo <= hi <= blocks.Length && buffer0 == LastN(buffer0, window)
    ensures !all ==> buffer == LastN(buffer0 + TranslatedOriginals(blocks[..], lo, hi), window)
    ensures all ==> buffer == LastN(buffer0 + Originals(blocks[..], lo, hi), window)
  {
    ghost var bs := blocks[..];
    buffer := buffer0;
    var j := lo;
    ghost var pushed: seq<string> := [];
    while j < hi
      invariant lo <= j <= hi
      invariant pushed == if all then Originals(bs, lo, j) else TranslatedOriginals(bs, lo, j)
      invariant buffer == LastN(buffer0 + pushed, window)
    {
      var b := blocks[j];
      assert b == bs[j];
      if all || b.translated != "" {
        PushLastN(buffer0 + pushed, b.original, window);
        assert buffer0 + pushed + [b.original] == buffer0 + (pushed + [b.original]);
        pushed := pushed + [b.original];
        buffer := buffer + [b.original];
        if |buffer| > window {
          buffer := buffer[1..];
        }
      }
      j := j + 1;
    }
  }

  /** `handleStart` after the `'original'` branch: the prefill, then one pass
      over the windows. */
  method HandleStart(blocks: array<Block>, batchSize: int, window: int,
                     stop: nat -> bool, replies: nat -> Reply, parse: string -> Parsed)
    returns (buffer: seq<string>, calls: seq<Call>, next: nat, failed: bool)
    modifies blocks
    ensures Outcome(blocks[..], buffer, calls, next, failed)
         == Run(AppConfig(batchSize, window, stop, replies, parse), old(blocks[..]),
                Prefilled(old(blocks[..]), window), [], 0)
  {
    var c := AppConfig(batchSize, window, stop, replies, parse);
    var b := c.batch;
    ghost var result := Run(c, blocks[..], Prefilled(blocks[..], window), [], 0);
    buffer := Prefill(blocks, window);
    calls := [];
    failed := false;
    var i: nat := 0;
    while i < blocks.Length && !stop(i) && !failed
      invariant buffer == LastN(buffer, window)
      invariant !failed ==> Run(c, blocks[..], buffer, calls, i) == result
      invariant failed ==> Outcome(blocks[..], buffer, calls, i, true) == result
      decreases blocks.Length - i, !failed
    {
      ghost var bs, buf, cs, i0 := blocks[..], buffer, calls, i;
      buffer, calls, failed := RunWindow(blocks, c, b, buffer, calls, i);
      if !failed {
        i := i + b;
      }
      RunStep(c, bs, buf, cs, i0, blocks[..], buffer, calls, failed, i, result);
    }
    assert !failed ==> Run(c, blocks[..], buffer, calls, i) == Outcome(blocks[..], buffer, calls, i, false);
    next := i;
  }

  /** The body of the window loop: one window, run in place. */
  method RunWindow(blocks: array<Block>, c: Config, b: nat, buffer0: seq<string>, calls0: seq<Call>, i: nat)
    returns (buffer: seq<string>, calls: seq<Call>, failed: bool)
    requires b == c.batch >= 1 && i < blocks.Length && buffer0 == LastN(buffer0, c.window)
    modifies blocks
    ensures Outcome(blocks[..], buffer, calls, i, failed) == Window(c, old(blocks[..]), buffer0, calls0, i)
  {
    var hi := if i + b < blocks.Length then i + b else blocks.Length;
    var idx := PendingIn(blocks[..], i, hi);
    if |idx| == 0 {
      buffer := PushWindow(blocks, i, hi, buffer0, c.window, false);
      calls, failed := calls0, false;
    } else {
      buffer, calls, failed := SendWindow(blocks, c, i, hi, idx, buffer0, calls0);
    }
  }

  /** The request of a window with pending blocks: mark them, send them, then
      either clear the marks or write the answers and push the originals. */
  method SendWindow(blocks: array<Block>, c: Config, i: nat, hi: nat, idx: seq<nat>, buffer0: seq<string>, calls0: seq<Call>)
    returns (buffer: seq<string>, calls: seq<Call>, failed: bool)
    requires i <= hi <= blocks.Length && idx == PendingIn(blocks[..], i, hi) && buffer0 == LastN(buffer0, c.window)
    modifies blocks
    ensures Outcome(blocks[..], buffer, calls, i, failed) == Send(c, old(blocks[..]), buffer0, calls0, i, hi, idx)
  {
    ghost var before := blocks[..];
    PendingInFacts(before, i, hi);
    MarkLoading(blocks, idx, true);
    MarkedAt(before, idx, true);
    RequestSameOriginals(before, blocks[..], idx);
    var originals := Request(blocks[..], idx);
    var answer := c.translate(originals, |calls0|);
    calls := calls0 + [Call(i, idx, originals, Join(buffer0, "\n"), answer)];
    if answer.None? {
      MarkLoading(blocks, idx, false);
      MarkedTwice(before, idx);
      buffer, failed := buffer0, true;
      return;
    }
    WriteResults(blocks, idx, answer.value);
    WrittenAfterMarked(before, idx, answer.value);
    MarkedWrittenOriginals(before, idx, answer.value, i, hi);
    buffer := PushWindow(blocks, i, hi, buffer0, c.window, true);
    failed := false;
  }

  /** Marking sets the flag of the listed blocks and touches nothing else. */
  lemma {:induction false} MarkedAt(bs: seq<Block>, idx: seq<nat>, flag: bool)
    ensures forall k | 0 <= k < |bs| :: Marked(bs, idx, flag)[k] == if k in idx then bs[k].(isLoading := flag) else bs[k]
    decreases |idx|
  {
    if |idx| > 0 {
      var init := idx[..|idx| - 1];
      MarkedAt(bs, init, flag);
      forall k | 0 <= k < |bs|
        ensures Marked(bs, idx, flag)[k] == if k in idx then bs[k].(isLoading := flag) else bs[k]
      {
        assert k in idx <==> k in init || k == idx[|idx| - 1] by {
          assert idx == init + [idx[|idx| - 1]];
        }
      }
    }
  }

  /** Positions listed in ascending order, so each at most once. */
  predicate Ascending(idx: seq<nat>) {
    forall q, q' | 0 <= q < q' < |idx| :: idx[q] < idx[q']
  }

  /** Writing the answers sets each listed block's translation to its answer
      and clears its loading mark, and touches nothing else. */
  lemma {:induction false} WrittenAt(bs: seq<Block>, idx: seq<nat>, res: seq<string>)
    requires forall q | 0 <= q < |idx| :: idx[q] < |bs|
    requires Ascending(idx)
    ensures forall q | 0 <= q < |idx| :: Written(bs, idx, res)[idx[q]] == bs[idx[q]].(translated := Answer(res, q), isLoading := false)
    ensures forall k | 0 <= k < |bs| && k !in idx :: Written(bs, idx, res)[k] == bs[k]
    decreases |idx|
  {
    if |idx| > 0 {
      var init := idx[..|idx| - 1];
      WrittenAt(bs, init, res);
      assert idx == init + [idx[|idx| - 1]];
      assert idx[|idx| - 1] !in init;
    }
  }

  /** Loading marks and written answers leave every original where it was. */
  lemma MarkedWrittenOriginals(bs: seq<Block>, idx: seq<nat>, res: seq<string>, lo: nat, hi: nat)
    requires forall q | 0 <= q < |idx| :: idx[q] < |bs|
    requires Ascending(idx) && lo <= hi <= |bs|
    ensures Originals(Written(Marked(bs, idx, true), idx, res), lo, hi) == Originals(bs, lo, hi)
  {
    MarkedAt(bs, idx, true);
    WrittenAt(Marked(bs, idx, true), idx, res);
    var w := Written(Marked(bs, idx, true), idx, res);
    forall k | 0 <= k < |bs| ensures w[k].original == bs[k].original {
      if k in idx {
        var q :| 0 <= q < |idx| && idx[q] == k;
      }
    }
  }

  /** Setting the marks and then clearing them is clearing them. */
  lemma MarkedTwice(bs: seq<Block>, idx: seq<nat>)
    ensures Marked(Marked(bs, idx, true), idx, false) == Marked(bs, idx, false)
  {
    MarkedAt(bs, idx, true);
    MarkedAt(Marked(bs, idx, true), idx, false);
    MarkedAt(bs, idx, false);
  }

  /** Writing the answers overwrites the loading marks set before. */
  lemma WrittenAfterMarked(bs: seq<Block>, idx: seq<nat>, res: seq<string>)
    requires (forall q | 0 <= q < |idx| :: idx[q] < |bs|) && Ascending(idx)
    ensures Written(Marked(bs, idx, true), idx, res) == Written(bs, idx, res)
  {
    var m := Marked(bs, idx, true);
    MarkedAt(bs, idx, true);
    WrittenAt(bs, idx, res);
    WrittenAt(m, idx, res);
    forall k | 0 <= k < |bs| ensures Written(m, idx, res)[k] == Written(bs, idx, res)[k] {
      if k in idx {
        var q :| 0 <= q < |idx| && idx[q] == k;
      }
    }
  }

  /** The request reads nothing but the originals. */
  lemma {:induction false} RequestSameOriginals(a: seq<Block>, b: seq<Block>, idx: seq<nat>)
    requires |a| == |b| && forall k | 0 <= k < |a| :: a[k].original == b[k].original
    ensures Request(a, idx) == Request(b, idx)
    decreases |idx|
  {
    if |idx| > 0 {
      RequestSameOriginals(a, b, idx[..|idx| - 1]);
    }
  }
}
