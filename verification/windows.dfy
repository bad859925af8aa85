/** Fixed-size sliding windows over a sequence.

    The ingestion loop cuts each document's text into windows of `size`
    characters whose starts advance by `size - overlap`, and the embedding
    step cuts its input into consecutive batches; the second is the first with
    no overlap. Both are `Slide` below, generic in the element type. */
module Windows {

  function Min(a: int, b: int): int {
    if a <= b then a else b
  }

  /** The window of `xs` that begins at `start`: Python's `xs[start:start + size]`,
      which stops early at the end of `xs`. */
  function Window<T>(xs: seq<T>, start: nat, size: nat): (w: seq<T>)
    requires start <= |xs|
    ensures |w| <= size && start + |w| <= |xs|
    ensures |w| < size ==> start + |w| == |xs|
  {
    xs[start .. Min(start + size, |xs|)]
  }

  /** The windows whose starts are `start`, `start + stride`, ... for as long
      as the start lies strictly inside `xs` (the `while start < len(text)` loop). */
  function WindowsFrom<T>(xs: seq<T>, size: nat, stride: nat, start: nat): seq<seq<T>>
    requires 0 < stride
    decreases |xs| - start
  {
    if start >= |xs| then []
    else [Window(xs, start, size)] + WindowsFrom(xs, size, stride, start + stride)
  }

  /** The loop advances only when the overlap is smaller than the window. */
  predicate ValidParams(size: nat, overlap: nat) {
    overlap < size
  }

  function Stride(size: nat, overlap: nat): nat
    requires ValidParams(size, overlap)
  {
    size - overlap
  }

  /** All windows of `xs`, the first starting at offset 0. */
  function Slide<T>(xs: seq<T>, size: nat, overlap: nat): (ws: seq<seq<T>>)
    requires ValidParams(size, overlap)
    ensures |ws| == WindowCount(|xs|, Stride(size, overlap))
  {
    WindowsFromCount(xs, size, Stride(size, overlap), 0);
    WindowsFrom(xs, size, Stride(size, overlap), 0)
  }

  /** Number of windows a sequence of length `n` yields: ceil(n / stride). */
  function WindowCount(n: nat, stride: nat): nat
    requires 0 < stride
  {
    if n == 0 then 0 else (n - 1) / stride + 1
  }

  /** Joins every window but the last cut down to its first `stride` elements,
      followed by the whole last window. */
  function Reassemble<T>(ws: seq<seq<T>>, stride: nat): seq<T>
    decreases |ws|
  {
    if |ws| == 0 then []
    else if |ws| == 1 then ws[0]
    else ws[0][..Min(stride, |ws[0]|)] + Reassemble(ws[1..], stride)
  }

  /** Plain concatenation of the windows. */
  function Flatten<T>(ws: seq<seq<T>>): seq<T>
    decreases |ws|
  {
    if |ws| == 0 then [] else ws[0] + Flatten(ws[1..])
  }

  // ---------------------------------------------------------------------
  // Arithmetic of the window count

  lemma MulNonnegative(a: int, b: int)
    requires 0 <= a && 0 <= b
    ensures 0 <= a * b
  {}

  lemma MulMonotone(a: int, b: int, k: int)
    requires a <= b && 0 <= k
    ensures a * k <= b * k
  {
    MulNonnegative(b - a, k);
    assert (b - a) * k == b * k - a * k;
  }

  lemma MulStrictlyMonotone(a: int, b: int, k: int)
    requires a < b && 0 <= k
    ensures a * k + k <= b * k
  {
    MulMonotone(a + 1, b, k);
    assert (a + 1) * k == a * k + k;
  }

  lemma DivisionUnique(m: int, k: int, q: int, r: int)
    requires 0 < k && 0 <= r < k && m == q * k + r
    ensures m / k == q
  {
    var q', r' := m / k, m % k;
    assert m == q' * k + r';
    if q' < q {
      MulStrictlyMonotone(q', q, k);
    } else if q < q' {
      MulStrictlyMonotone(q, q', k);
    }
  }

  /** `WindowCount` is the ceiling of `n / stride`: the least count whose
      windows' strides reach the end of the sequence. */
  lemma WindowCountIsCeiling(n: nat, stride: nat)
    requires 0 < stride
    ensures WindowCount(n, stride) == (n + stride - 1) / stride
    ensures WindowCount(n, stride) * stride >= n
    ensures n > 0 ==> (WindowCount(n, stride) - 1) * stride < n
  {
    if n == 0 {
      DivisionUnique(stride - 1, stride, 0, stride - 1);
    } else {
      var q, r := (n - 1) / stride, (n - 1) % stride;
      assert n - 1 == q * stride + r;
      assert (q + 1) * stride == q * stride + stride;
      assert n + stride - 1 == (q + 1) * stride + r;
      DivisionUnique(n + stride - 1, stride, q + 1, r);
    }
  }

  /** Index `j` names a window exactly when its start `j * stride` lies inside the sequence. */
  lemma WindowIndexInRange(n: nat, stride: nat, j: nat)
    requires 0 < stride
    ensures j < WindowCount(n, stride) <==> j * stride < n
  {
    var c := WindowCount(n, stride);
    WindowCountIsCeiling(n, stride);
    if j < c {
      MulMonotone(j, c - 1, stride);
    } else {
      MulMonotone(c, j, stride);
    }
  }

  lemma WindowCountStep(m: nat, stride: nat)
    requires 0 < stride < m
    ensures WindowCount(m, stride) == 1 + WindowCount(m - stride, stride)
  {
    var q, r := (m - stride - 1) / stride, (m - stride - 1) % stride;
    assert m - stride - 1 == q * stride + r;
    assert m - 1 == (q + 1) * stride + r;
    DivisionUnique(m - 1, stride, q + 1, r);
  }

  lemma WindowCountOne(m: nat, stride: nat)
    requires 0 < m <= stride
    ensures WindowCount(m, stride) == 1
  {
    DivisionUnique(m - 1, stride, 0, m - 1);
  }

  // ---------------------------------------------------------------------
  // Closed form of the windows

  lemma MulSucc(a: int, k: int)
    ensures (a + 1) * k == a * k + k
  {
  }

  lemma MulSubDistributes(a: int, b: int, k: int)
    ensures (a - b) * k == a * k - b * k
  {
  }

  /** The recursive windowing yields ceil((|xs| - start) / stride) windows. */
  lemma {:induction false} WindowsFromCount<T>(xs: seq<T>, size: nat, stride: nat, start: nat)
    requires 0 < stride
    decreases |xs| - start
    ensures |WindowsFrom(xs, size, stride, start)|
              == (if start < |xs| then WindowCount(|xs| - start, stride) else 0)
  {
    if start < |xs| {
      WindowsFromCount(xs, size, stride, start + stride);
      if start + stride < |xs| {
        WindowCountStep(|xs| - start, stride);
      } else {
        WindowCountOne(|xs| - start, stride);
      }
    }
  }

  /** The i-th window from `start` begins at `start + i * stride`, inside `xs`. */
  lemma {:induction false} WindowsFromAt<T>(xs: seq<T>, size: nat, stride: nat, start: nat, i: nat)
    requires 0 < stride
    requires i < |WindowsFrom(xs, size, stride, start)|
    decreases i
    ensures start + i * stride < |xs|
    ensures WindowsFrom(xs, size, stride, start)[i] == Window(xs, start + i * stride, size)
  {
    var ws := WindowsFrom(xs, size, stride, start);
    var rest := WindowsFrom(xs, size, stride, start + stride);
    assert ws == [Window(xs, start, size)] + rest;
    if i > 0 {
      assert ws[i] == rest[i - 1];
      WindowsFromAt(xs, size, stride, start + stride, i - 1);
      MulSucc(i - 1, stride);
    }
  }

  /** The windows in closed form: there are ceil(|xs| / stride) of them and the
      i-th is `xs[i * stride : i * stride + size]`, whose start lies inside `xs`. */
  lemma SlideShape<T>(xs: seq<T>, size: nat, overlap: nat)
    requires ValidParams(size, overlap)
    ensures |Slide(xs, size, overlap)| == WindowCount(|xs|, Stride(size, overlap))
    ensures forall i :: 0 <= i < |Slide(xs, size, overlap)| ==>
              i * Stride(size, overlap) < |xs|
              && Slide(xs, size, overlap)[i] == xs[i * Stride(size, overlap) .. Min(i * Stride(size, overlap) + size, |xs|)]
  {
    var k := Stride(size, overlap);
    WindowsFromCount(xs, size, k, 0);
    forall i | 0 <= i < |Slide(xs, size, overlap)|
      ensures i * k < |xs| && Slide(xs, size, overlap)[i] == xs[i * k .. Min(i * k + size, |xs|)]
    {
      WindowsFromAt(xs, size, k, 0, i);
    }
  }

  /** Window `i` exists exactly when its start `i * stride` is inside `xs`;
      starts are 0, stride, 2 * stride, ... */
  lemma SlideStarts<T>(xs: seq<T>, size: nat, overlap: nat, i: nat)
    requires ValidParams(size, overlap)
    ensures i < |Slide(xs, size, overlap)| <==> i * Stride(size, overlap) < |xs|
    ensures i < |Slide(xs, size, overlap)| ==>
              Slide(xs, size, overlap)[i] == Window(xs, i * Stride(size, overlap), size)
  {
    var k := Stride(size, overlap);
    WindowsFromCount(xs, size, k, 0);
    WindowIndexInRange(|xs|, k, i);
    if i < |Slide(xs, size, overlap)| {
      WindowsFromAt(xs, size, k, 0, i);
    }
  }

  /** Count: no windows for an empty sequence, otherwise ceil(|xs| / stride). */
  lemma SlideCount<T>(xs: seq<T>, size: nat, overlap: nat)
    requires ValidParams(size, overlap)
    ensures |xs| == 0 <==> |Slide(xs, size, overlap)| == 0
    ensures |Slide(xs, size, overlap)| == (|xs| + Stride(size, overlap) - 1) / Stride(size, overlap)
  {
    WindowsFromCount(xs, size, Stride(size, overlap), 0);
    WindowCountIsCeiling(|xs|, Stride(size, overlap));
  }

  /** A sequence no longer than one stride yields the single window `xs` (or none when empty). */
  lemma SlideShortInput<T>(xs: seq<T>, size: nat, overlap: nat)
    requires ValidParams(size, overlap)
    requires |xs| <= Stride(size, overlap)
    ensures Slide(xs, size, overlap) == if |xs| == 0 then [] else [xs]
  {
    var k := Stride(size, overlap);
    if |xs| > 0 {
      assert WindowsFrom(xs, size, k, k) == [];
      assert Window(xs, 0, size) == xs;
      assert Slide(xs, size, overlap) == [Window(xs, 0, size)] + WindowsFrom(xs, size, k, k);
    }
  }

  /** Every window holds at most `size` elements, and it is short exactly when
      it would run past the end of the sequence. */
  lemma SlideWindowLength<T>(xs: seq<T>, size: nat, overlap: nat, i: nat)
    requires ValidParams(size, overlap)
    requires i < |Slide(xs, size, overlap)|
    ensures |Slide(xs, size, overlap)[i]| <= size
    ensures |Slide(xs, size, overlap)[i]| < size <==> i * Stride(size, overlap) + size > |xs|
  {
    var s := i * Stride(size, overlap);
    SlideStarts(xs, size, overlap, i);
    assert |Window(xs, s, size)| == Min(s + size, |xs|) - s;
  }

  /** The last window always ends at the end of the sequence. */
  lemma SlideLastWindowEnds<T>(xs: seq<T>, size: nat, overlap: nat)
    requires ValidParams(size, overlap)
    requires |xs| > 0
    ensures |Slide(xs, size, overlap)| > 0
    ensures (|Slide(xs, size, overlap)| - 1) * Stride(size, overlap) < |xs|
    ensures var ws := Slide(xs, size, overlap);
            ws[|ws| - 1] == xs[(|ws| - 1) * Stride(size, overlap) ..]
  {
    var k := Stride(size, overlap);
    var ws := Slide(xs, size, overlap);
    SlideCount(xs, size, overlap);
    var c := |ws|;
    var s := (c - 1) * k;
    SlideStarts(xs, size, overlap, c - 1);
    SlideStarts(xs, size, overlap, c);
    MulSucc(c - 1, k);
    assert ws[c - 1] == xs[s .. Min(s + size, |xs|)];
  }

  /** Short windows are trailing: once a window is short every later one is,
      and the windows from a short one to the last span less than `size`. */
  lemma SlideShortWindowsTrail<T>(xs: seq<T>, size: nat, overlap: nat, i: nat, j: nat)
    requires ValidParams(size, overlap)
    requires i <= j < |Slide(xs, size, overlap)|
    requires |Slide(xs, size, overlap)[i]| < size
    ensures |Slide(xs, size, overlap)[j]| < size
    ensures (|Slide(xs, size, overlap)| - 1 - i) * Stride(size, overlap) < size
  {
    var k := Stride(size, overlap);
    var c := |Slide(xs, size, overlap)|;
    SlideWindowLength(xs, size, overlap, i);
    SlideWindowLength(xs, size, overlap, j);
    SlideWindowLength(xs, size, overlap, c - 1);
    SlideStarts(xs, size, overlap, c - 1);
    MulMonotone(i, j, k);
    MulSubDistributes(c - 1, i, k);
  }

  /** Overlap: when window `i` is full and the overlap is positive, there is a
      next window and it begins with the last `overlap` elements of window `i`. */
  lemma SlideOverlap<T>(xs: seq<T>, size: nat, overlap: nat, i: nat)
    requires ValidParams(size, overlap)
    requires 0 < overlap
    requires i < |Slide(xs, size, overlap)|
    requires |Slide(xs, size, overlap)[i]| == size
    ensures i + 1 < |Slide(xs, size, overlap)|
    ensures overlap <= |Slide(xs, size, overlap)[i + 1]|
    ensures Slide(xs, size, overlap)[i + 1][..overlap] == Slide(xs, size, overlap)[i][size - overlap..]
  {
    var k := Stride(size, overlap);
    var ws := Slide(xs, size, overlap);
    var s := i * k;
    SlideStarts(xs, size, overlap, i);
    assert ws[i] == xs[s .. Min(s + size, |xs|)];
    assert s + size <= |xs|;
    assert (i + 1) * k == s + k;
    SlideStarts(xs, size, overlap, i + 1);
    assert ws[i + 1] == xs[s + k .. Min(s + k + size, |xs|)];
  }

  /** Reconstruction from the windows starting at `start`. */
  lemma {:induction false} ReassembleWindowsFrom<T>(xs: seq<T>, size: nat, stride: nat, start: nat)
    requires 0 < stride <= size
    requires start <= |xs|
    decreases |xs| - start
    ensures Reassemble(WindowsFrom(xs, size, stride, start), stride) == xs[start..]
  {
    var ws := WindowsFrom(xs, size, stride, start);
    if start < |xs| {
      var rest := WindowsFrom(xs, size, stride, start + stride);
      assert ws == [Window(xs, start, size)] + rest;
      if start + stride >= |xs| {
        assert rest == [];
        assert Window(xs, start, size) == xs[start..];
      } else {
        ReassembleWindowsFrom(xs, size, stride, start + stride);
        assert ws[1..] == rest;
        assert rest != [];
        assert ws[0][..Min(stride, |ws[0]|)] == xs[start .. start + stride];
        assert xs[start..] == xs[start .. start + stride] + xs[start + stride ..];
      }
    }
  }

  /** Coverage and reconstruction: the first `stride` elements of every window
      but the last, followed by the whole last window, give back `xs`. */
  lemma SlideReassembles<T>(xs: seq<T>, size: nat, overlap: nat)
    requires ValidParams(size, overlap)
    ensures Reassemble(Slide(xs, size, overlap), Stride(size, overlap)) == xs
  {
    ReassembleWindowsFrom(xs, size, Stride(size, overlap), 0);
  }

  lemma {:induction false} FlattenWindowsFrom<T>(xs: seq<T>, size: nat, start: nat)
    requires 0 < size
    requires start <= |xs|
    decreases |xs| - start
    ensures Flatten(WindowsFrom(xs, size, size, start)) == xs[start..]
  {
    if start < |xs| {
      var ws := WindowsFrom(xs, size, size, start);
      var rest := WindowsFrom(xs, size, size, start + size);
      assert ws == [Window(xs, start, size)] + rest;
      assert ws[1..] == rest;
      if start + size >= |xs| {
        assert rest == [];
        assert Window(xs, start, size) == xs[start..];
      } else {
        FlattenWindowsFrom(xs, size, start + size);
        assert xs[start..] == xs[start .. start + size] + xs[start + size ..];
      }
    }
  }

  /** Without overlap the windows partition `xs`: each is non-empty and holds
      at most `size` elements, all but the last hold exactly `size`, and their
      concatenation is `xs`. */
  lemma SlidePartitions<T>(xs: seq<T>, size: nat)
    requires ValidParams(size, 0)
    ensures Flatten(Slide(xs, size, 0)) == xs
    ensures forall i :: 0 <= i < |Slide(xs, size, 0)| ==>
              0 < |Slide(xs, size, 0)[i]| <= size
    ensures forall i :: 0 <= i < |Slide(xs, size, 0)| - 1 ==>
              |Slide(xs, size, 0)[i]| == size
  {
    var ws := Slide(xs, size, 0);
    FlattenWindowsFrom(xs, size, 0);
    forall i | 0 <= i < |ws|
      ensures 0 < |ws[i]| <= size
    {
      SlideStarts(xs, size, 0, i);
    }
    forall i | 0 <= i < |ws| - 1
      ensures |ws[i]| == size
    {
      SlideStarts(xs, size, 0, i);
      SlideStarts(xs, size, 0, i + 1);
      assert (i + 1) * size == i * size + size;
    }
  }
}
