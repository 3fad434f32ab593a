/**
 * The two item sources that feed the scheduler: the `take` closures built by
 * `run_slice` (a cursor into a slice) and by `run_iter` (pulls from a
 * forward-only iterator). Both answer `take(n)` with a batch and a
 * "finished" flag; they differ in when they raise the flag.
 */
module Sources {
  import opened Util

  /** Which closure: the slice cursor of `run_slice` or the iterator pull of `run_iter`. */
  datatype Kind = SliceCursor | IterPull

  /**
   * A snapshot of a source. `items` are the elements it hands out, in order
   * (for an iterator: everything the iterator will ever yield); `cursor` is
   * how many of them have been handed out (`last_dispatched_item_index` for a
   * slice, the number of `next()` calls that returned an element for an iterator).
   */
  datatype Source<T> = Source(kind: Kind, items: seq<T>, cursor: nat)

  /** The cursor never passes the end of the items. */
  predicate WellFormed<T>(s: Source<T>)
  {
    s.cursor <= |s.items|
  }

  /** The result of one `take`: the batch, the finished flag, and the cursor it leaves. */
  datatype Pull<T> = Pull(batch: seq<T>, finished: bool, cursor: nat)

  /**
   * `run_slice`'s closure: the cursor moves to `min(cursor + n, len)`, the
   * batch is the sub-slice it skipped over, and the source is finished
   * exactly when the cursor has reached the end.
   */
  function SliceTake<T>(items: seq<T>, cursor: nat, n: nat): (p: Pull<T>)
    requires cursor <= |items|
    ensures cursor <= p.cursor <= |items|
    ensures p.cursor - cursor == Min(n, |items| - cursor)
    ensures p.batch == items[cursor..p.cursor]
    ensures p.finished <==> p.cursor == |items|
  {
    var last := Min(cursor + n, |items|);
    Pull(items[cursor..last], last == |items|, last)
  }

  /**
   * What `iter.by_ref().take(n)` yields from an iterator that has already
   * produced `consumed` elements: one `next()` at a time, stopping after `n`
   * elements or when the iterator runs dry.
   */
  function Drawn<T>(items: seq<T>, consumed: nat, n: nat): (batch: seq<T>)
    requires consumed <= |items|
    ensures |batch| == Min(n, |items| - consumed)
    ensures batch == items[consumed..consumed + |batch|]
    decreases n
  {
    if n == 0 || consumed == |items| then []
    else [items[consumed]] + Drawn(items, consumed + 1, n - 1)
  }

  /**
   * `run_iter`'s closure: collect what `take(n)` draws; the source reports
   * finished when it delivered a different number of elements than asked for.
   */
  function IterTake<T>(items: seq<T>, consumed: nat, n: nat): (p: Pull<T>)
    requires consumed <= |items|
    ensures consumed <= p.cursor <= |items|
    ensures p.batch == items[consumed..p.cursor]
    ensures |p.batch| == Min(n, |items| - consumed)
    ensures p.finished <==> |p.batch| < n
  {
    var batch := items[consumed..Min(consumed + n, |items|)];
    Pull(batch, |batch| != n, consumed + |batch|)
  }

  /** The batch of an iterator take is exactly what drawing one element at a time yields. */
  lemma IterTakeDraws<T>(items: seq<T>, consumed: nat, n: nat)
    requires consumed <= |items|
    ensures IterTake(items, consumed, n).batch == Drawn(items, consumed, n)
  {
  }

  /** One `take(n)` on a source of either kind. */
  function TakeFrom<T>(s: Source<T>, n: nat): (p: Pull<T>)
    requires WellFormed(s)
    ensures s.cursor <= p.cursor <= |s.items|
    ensures p.batch == s.items[s.cursor..p.cursor]
    ensures |p.batch| == Min(n, |s.items| - s.cursor)
    ensures p.finished ==> p.cursor == |s.items|
  {
    match s.kind
    case SliceCursor => SliceTake(s.items, s.cursor, n)
    case IterPull => IterTake(s.items, s.cursor, n)
  }

  /** The source after a take. */
  function After<T>(s: Source<T>, p: Pull<T>): Source<T>
  {
    s.(cursor := p.cursor)
  }

  /** The results of successive takes asking for `ns[0]`, `ns[1]`, ... items. */
  function TakeEach<T>(s: Source<T>, ns: seq<nat>): (ps: seq<Pull<T>>)
    requires WellFormed(s)
    ensures |ps| == |ns|
    decreases |ns|
  {
    if ns == [] then []
    else
      var p := TakeFrom(s, ns[0]);
      [p] + TakeEach(After(s, p), ns[1..])
  }

  /** The cursor after successive takes asking for `ns[0]`, `ns[1]`, ... items. */
  function CursorAfter<T>(s: Source<T>, ns: seq<nat>): (c: nat)
    requires WellFormed(s)
    ensures s.cursor <= c <= |s.items|
    decreases |ns|
  {
    if ns == [] then s.cursor
    else
      var p := TakeFrom(s, ns[0]);
      CursorAfter(After(s, p), ns[1..])
  }

  function Batches<T>(ps: seq<Pull<T>>): seq<seq<T>>
  {
    if ps == [] then [] else [ps[0].batch] + Batches(ps[1..])
  }

  /** `n` repeated `m` times: the requests of a caller that always asks for `n`. */
  function Repeat(n: nat, m: nat): (ns: seq<nat>)
    ensures |ns| == m
    ensures forall i :: 0 <= i < m ==> ns[i] == n
  {
    seq(m, _ => n)
  }

  /**
   * Successive takes partition the source: the batches, laid end to end,
   * are exactly the items between the starting cursor and the final one,
   * in order, with no overlap and no gap.
   */
  lemma {:induction false} TakeEachPartitions<T>(s: Source<T>, ns: seq<nat>)
    requires WellFormed(s)
    ensures Flatten(Batches(TakeEach(s, ns))) == s.items[s.cursor..CursorAfter(s, ns)]
    decreases |ns|
  {
    if ns != [] {
      var p := TakeFrom(s, ns[0]);
      var ps := TakeEach(s, ns);
      assert ps == [p] + TakeEach(After(s, p), ns[1..]);
      assert ps[1..] == TakeEach(After(s, p), ns[1..]);
      assert Batches(ps) == [p.batch] + Batches(ps[1..]);
      TakeEachPartitions(After(s, p), ns[1..]);
      var c := CursorAfter(s, ns);
      assert s.items[s.cursor..c] == s.items[s.cursor..p.cursor] + s.items[p.cursor..c];
    }
  }

  /** Slice take: a finished flag is raised exactly when the cursor reaches the end. */
  lemma SliceFinishedIff<T>(s: Source<T>, n: nat)
    requires WellFormed(s) && s.kind == SliceCursor
    ensures TakeFrom(s, n).finished <==> TakeFrom(s, n).cursor == |s.items|
  {
  }

  /** Iterator take: a finished flag is raised exactly when fewer than `n` items came back. */
  lemma IterFinishedIff<T>(s: Source<T>, n: nat)
    requires WellFormed(s) && s.kind == IterPull
    ensures TakeFrom(s, n).finished <==> |TakeFrom(s, n).batch| < n
    ensures TakeFrom(s, n).finished <==> |s.items| - s.cursor < n
  {
  }

  /** An empty slice answers the first take with an empty batch that is already finished. */
  lemma EmptySliceFinishesAtOnce<T>(s: Source<T>, n: nat)
    requires s == Source(SliceCursor, [], 0)
    ensures TakeFrom(s, n) == Pull([], true, 0)
  {
  }

  /** `m * n` spelled out as repeated addition, so that the proofs below stay linear. */
  function Times(m: nat, n: nat): nat
  {
    if m == 0 then 0 else n + Times(m - 1, n)
  }

  lemma {:induction false} TimesIsProduct(m: nat, n: nat)
    ensures Times(m, n) == m * n
  {
    if m > 0 {
      TimesIsProduct(m - 1, n);
      assert m * n == n + (m - 1) * n;
    }
  }

  /**
   * Iterator source whose remaining length is an exact multiple `m * n` of
   * the request: `m` full batches, none of them finished, then one more take
   * yields an empty batch that is finished.
   */
  lemma IterExactMultiple<T>(items: seq<T>, c: nat, n: nat, m: nat)
    requires n > 0 && c + m * n == |items|
    ensures var ps := TakeEach(Source(IterPull, items, c), Repeat(n, m + 1));
      (forall i :: 0 <= i < m ==> |ps[i].batch| == n && !ps[i].finished)
      && ps[m] == Pull([], true, |items|)
  {
    TimesIsProduct(m, n);
    IterChunks(items, c, n, m);
  }

  lemma {:induction false} IterChunks<T>(items: seq<T>, c: nat, n: nat, m: nat)
    requires n > 0 && c + Times(m, n) == |items|
    ensures var ps := TakeEach(Source(IterPull, items, c), Repeat(n, m + 1));
      (forall i :: 0 <= i < m ==> |ps[i].batch| == n && !ps[i].finished)
      && ps[m] == Pull([], true, |items|)
    decreases m, 1
  {
    var s := Source(IterPull, items, c);
    var ns := Repeat(n, m + 1);
    assert ns[1..] == Repeat(n, m);
    if m == 0 {
      assert c == |items|;
      IterTakeAtEnd(items, n);
      assert TakeEach(s, ns) == [TakeFrom(s, n)];
    } else {
      IterChunksStep(items, c, n, m);
    }
  }

  /** The inductive step of IterChunks: one full take, then the chunks of the rest. */
  lemma {:induction false} IterChunksStep<T>(items: seq<T>, c: nat, n: nat, m: nat)
    requires n > 0 && m > 0 && c + Times(m, n) == |items|
    ensures var ps := TakeEach(Source(IterPull, items, c), Repeat(n, m + 1));
      (forall i :: 0 <= i < m ==> |ps[i].batch| == n && !ps[i].finished)
      && ps[m] == Pull([], true, |items|)
    decreases m, 0
  {
    var s := Source(IterPull, items, c);
    var p := TakeFrom(s, n);
    var ns := Repeat(n, m + 1);
    assert ns[1..] == Repeat(n, m);
    assert Times(m, n) == n + Times(m - 1, n);
    IterTakeFull(items, c, n);
    var next := Source(IterPull, items, c + n);
    assert After(s, p) == next;
    var rest := TakeEach(next, Repeat(n, m));
    var ps := TakeEach(s, ns);
    assert ps == [p] + rest;
    IterChunks(items, c + n, n, m - 1);
    forall i | 0 <= i < m
      ensures |ps[i].batch| == n && !ps[i].finished
    {
      if i > 0 {
        assert ps[i] == rest[i - 1];
      }
    }
    assert ps[m] == rest[m - 1];
  }

  /** A take of `n` from an iterator with at least `n` elements left returns them, unfinished. */
  lemma IterTakeFull<T>(items: seq<T>, c: nat, n: nat)
    requires n > 0 && c + n <= |items|
    ensures TakeFrom(Source(IterPull, items, c), n) == Pull(items[c..c + n], false, c + n)
  {
  }

  /** A take of `n > 0` from an exhausted iterator returns an empty batch, finished. */
  lemma IterTakeAtEnd<T>(items: seq<T>, n: nat)
    requires n > 0
    ensures TakeFrom(Source(IterPull, items, |items|), n) == Pull([], true, |items|)
  {
  }

  /**
   * Slice source of the same shape, for contrast: the `m`-th take already
   * reports finished with a full batch, so no trailing empty batch follows.
   */
  lemma SliceExactMultiple<T>(items: seq<T>, c: nat, n: nat, m: nat)
    requires n > 0 && m > 0 && c + m * n == |items|
    ensures var ps := TakeEach(Source(SliceCursor, items, c), Repeat(n, m));
      (forall i :: 0 <= i < m - 1 ==> |ps[i].batch| == n && !ps[i].finished)
      && |ps[m - 1].batch| == n && ps[m - 1].finished
  {
    TimesIsProduct(m, n);
    SliceChunks(items, c, n, m);
  }

  lemma {:induction false} SliceChunks<T>(items: seq<T>, c: nat, n: nat, m: nat)
    requires n > 0 && m > 0 && c + Times(m, n) == |items|
    ensures var ps := TakeEach(Source(SliceCursor, items, c), Repeat(n, m));
      (forall i :: 0 <= i < m - 1 ==> |ps[i].batch| == n && !ps[i].finished)
      && |ps[m - 1].batch| == n && ps[m - 1].finished
    decreases m
  {
    var s := Source(SliceCursor, items, c);
    var p := TakeFrom(s, n);
    var rest := TakeEach(After(s, p), Repeat(n, m - 1));
    var ns := Repeat(n, m);
    assert ns[1..] == Repeat(n, m - 1);
    assert TakeEach(s, ns) == [p] + rest;
    if m > 1 {
      assert p.cursor == c + n && !p.finished && |p.batch| == n;
      assert After(s, p) == Source(SliceCursor, items, c + n);
      SliceChunks(items, c + n, n, m - 1);
      forall i | 0 <= i < m - 1
        ensures |([p] + rest)[i].batch| == n && !([p] + rest)[i].finished
      {
        if i > 0 { assert ([p] + rest)[i] == rest[i - 1]; }
      }
      assert ([p] + rest)[m - 1] == rest[m - 2];
    }
  }

  /**
   * A take closure as an object: the items it draws from and the cursor it
   * advances in place. The constructor picks the closure.
   */
  class ItemSource<T> {
    const kind: Kind
    const items: seq<T>
    var cursor: nat

    ghost predicate Valid()
      reads this
    {
      WellFormed(View())
    }

    function View(): Source<T>
      reads this
    {
      Source(kind, items, cursor)
    }

    /** `run_slice`: `let mut last_dispatched_item_index = 0`. */
    constructor OverSlice(items: seq<T>)
      ensures Valid()
      ensures View() == Source(SliceCursor, items, 0)
    {
      kind := SliceCursor;
      this.items := items;
      cursor := 0;
    }

    /** `run_iter`: an iterator nothing has been pulled from yet. */
    constructor OverIter(items: seq<T>)
      ensures Valid()
      ensures View() == Source(IterPull, items, 0)
    {
      kind := IterPull;
      this.items := items;
      cursor := 0;
    }

    /** One call of the closure. */
    method Take(n: nat) returns (batch: seq<T>, finished: bool)
      requires Valid()
      modifies this
      ensures Valid()
      ensures Pull(batch, finished, cursor) == TakeFrom(old(View()), n)
    {
      if kind == SliceCursor {
        var first := cursor;
        cursor := Min(cursor + n, |items|);
        batch := items[first..cursor];
        finished := cursor == |items|;
      } else {
        ghost var start := cursor;
        batch := [];
        while |batch| < n && cursor < |items|
          invariant start <= cursor <= |items|
          invariant batch == items[start..cursor]
          invariant |batch| <= n
          decreases |items| - cursor
        {
          batch := batch + [items[cursor]];
          cursor := cursor + 1;
        }
        finished := |batch| != n;
        assert |batch| == Min(n, |items| - start);
      }
    }
  }
}
