/** The two integer loops of the name-patching recipe shared by
    `create_sample_image` and `generate_invitation_image`: tiling a clean
    ribbon slice over the placeholder, and the descending font-size search.
    Pixel bounds are parameters; the font measurement is an abstract
    function from font size to text width. */
module Ribbon {

  /** One `img.paste` of the clean slice, `width` pixels wide, at column `x`. */
  datatype Paste = Paste(x: int, width: int)

  function End(p: Paste): int {
    p.x + p.width
  }

  predicate InPaste(p: Paste, column: int) {
    p.x <= column < End(p)
  }

  /** The pastes are laid end to end from `start` to `end`, each at least one
      pixel wide. */
  predicate Contiguous(pastes: seq<Paste>, start: int, end: int) {
    && (forall k | 0 <= k < |pastes| :: pastes[k].width > 0)
    && (pastes == [] ==> start == end)
    && (pastes != [] ==> pastes[0].x == start && End(pastes[|pastes| - 1]) == end)
    && (forall k | 0 <= k < |pastes| - 1 :: End(pastes[k]) == pastes[k + 1].x)
  }

  /** The tiling loop. It stops for every input where the source's loop
      stops: a positive slice width, or an empty target. Every paste is the
      full slice except possibly the last, which is cropped to fit. */
  method TileRibbon(targetStart: int, targetEnd: int, srcWidth: int) returns (pastes: seq<Paste>)
    requires srcWidth > 0 || targetEnd <= targetStart
    ensures targetEnd <= targetStart ==> pastes == []
    ensures targetStart <= targetEnd ==> Contiguous(pastes, targetStart, targetEnd)
    ensures forall k | 0 <= k < |pastes| :: 0 < pastes[k].width <= srcWidth
    ensures forall k | 0 <= k < |pastes| - 1 :: pastes[k].width == srcWidth
  {
    pastes := [];
    var currentX := targetStart;
    while currentX < targetEnd
      invariant currentX >= targetStart
      invariant pastes == [] ==> currentX == targetStart
      invariant targetEnd <= targetStart ==> pastes == []
      invariant pastes != [] ==> pastes[0].x == targetStart
      invariant pastes != [] ==> pastes[|pastes| - 1].x + srcWidth == currentX
      invariant pastes != [] ==>
        End(pastes[|pastes| - 1]) == if currentX < targetEnd then currentX else targetEnd
      invariant forall k | 0 <= k < |pastes| :: 0 < pastes[k].width <= srcWidth
      invariant forall k | 0 <= k < |pastes| - 1 ::
        pastes[k].width == srcWidth && End(pastes[k]) == pastes[k + 1].x
      decreases targetEnd - currentX
    {
      var pasteWidth := if srcWidth < targetEnd - currentX then srcWidth else targetEnd - currentX;
      pastes := pastes + [Paste(currentX, pasteWidth)];
      currentX := currentX + srcWidth;
    }
  }

  /** Every paste is at most `srcWidth` wide and all but the last are
      exactly `srcWidth` wide. */
  predicate FullSlices(pastes: seq<Paste>, srcWidth: int) {
    && (forall k | 0 <= k < |pastes| :: 0 < pastes[k].width <= srcWidth)
    && (forall k | 0 <= k < |pastes| - 1 :: pastes[k].width == srcWidth)
  }

  lemma ContiguousPrefix(pastes: seq<Paste>, start: int, end: int)
    requires Contiguous(pastes, start, end) && pastes != []
    ensures Contiguous(pastes[..|pastes| - 1], start, pastes[|pastes| - 1].x)
  {
  }

  /** The loop advances by the full slice width every time, so the k-th
      paste sits at `targetStart + k * srcWidth`. */
  lemma {:induction false} PasteOffsets(pastes: seq<Paste>, start: int, end: int, srcWidth: int)
    requires Contiguous(pastes, start, end) && FullSlices(pastes, srcWidth)
    ensures forall k | 0 <= k < |pastes| :: pastes[k].x == start + k * srcWidth
  {
    if pastes != [] {
      var n := |pastes| - 1;
      ContiguousPrefix(pastes, start, end);
      PasteOffsets(pastes[..n], start, pastes[n].x, srcWidth);
      if n > 0 {
        assert pastes[n - 1].x == start + (n - 1) * srcWidth;
        assert pastes[n].x == start + (n - 1) * srcWidth + srcWidth;
      }
    }
  }

  /** The number of pastes is the target width divided by the slice width,
      rounded up: the one `n` with `(n - 1) * srcWidth < width <= n * srcWidth`. */
  lemma PasteCount(pastes: seq<Paste>, start: int, end: int, srcWidth: int)
    requires start < end
    requires Contiguous(pastes, start, end) && FullSlices(pastes, srcWidth)
    ensures (|pastes| - 1) * srcWidth < end - start <= |pastes| * srcWidth
  {
    PasteOffsets(pastes, start, end, srcWidth);
    var n := |pastes| - 1;
    assert pastes[n].x == start + n * srcWidth;
    assert (n + 1) * srcWidth == n * srcWidth + srcWidth;
  }

  /** Later pastes start at or after the end of earlier ones. */
  lemma {:induction false} PastesAscend(pastes: seq<Paste>, start: int, end: int)
    requires Contiguous(pastes, start, end)
    ensures forall k, l | 0 <= k < l < |pastes| :: End(pastes[k]) <= pastes[l].x
  {
    if pastes != [] {
      var n := |pastes| - 1;
      ContiguousPrefix(pastes, start, end);
      PastesAscend(pastes[..n], start, pastes[n].x);
      assert forall k | 0 <= k < n :: End(pastes[k]) <= pastes[n].x by {
        forall k | 0 <= k < n ensures End(pastes[k]) <= pastes[n].x {
          if k < n - 1 {
            assert End(pastes[..n][k]) <= pastes[..n][n - 1].x;
          }
        }
      }
    }
  }

  /** Contiguous pastes partition the target: a column lies in some paste
      exactly when it is in `[start, end)`, and never in two. */
  lemma {:induction false} EveryColumnPastedOnce(pastes: seq<Paste>, start: int, end: int, column: int)
    requires Contiguous(pastes, start, end)
    ensures start <= column < end <==> exists k | 0 <= k < |pastes| :: InPaste(pastes[k], column)
    ensures forall k, l | 0 <= k < l < |pastes| :: !(InPaste(pastes[k], column) && InPaste(pastes[l], column))
  {
    PastesAscend(pastes, start, end);
    if pastes != [] {
      var n := |pastes| - 1;
      ContiguousPrefix(pastes, start, end);
      EveryColumnPastedOnce(pastes[..n], start, pastes[n].x, column);
      if start <= column < end && column < pastes[n].x {
        var k :| 0 <= k < n && InPaste(pastes[..n][k], column);
        assert InPaste(pastes[k], column);
      }
      if exists k | 0 <= k < |pastes| :: InPaste(pastes[k], column) {
        var k :| 0 <= k < |pastes| && InPaste(pastes[k], column);
        if k < n {
          assert InPaste(pastes[..n][k], column);
        }
      }
    }
  }

  /** The font kept by the size search: a TrueType font at `size` whose
      measured text width is `width`, or no measured font at all (the loop
      body never ran, or the font file could not be opened). In the second
      case the text width is unbound and the drawing step fails. */
  datatype FontFit = Measured(size: int, width: int) | Unmeasured

  /** The sizes tried form the sequence `start, start - 2, start - 4, ...`,
      every one above `minSize`. */
  predicate SizesStepDown(tried: seq<int>, start: int, minSize: int) {
    forall k | 0 <= k < |tried| :: tried[k] == start - 2 * k && tried[k] > minSize
  }

  /** What the search computes when the font opens and `start > minSize`:
      it measures the text at each size in turn, stops at the first size
      whose width is at most `maxWidth`, and otherwise keeps the last size
      above `minSize`, even though the text is then too wide. */
  predicate IsFitSearch(measure: int -> int, start: int, minSize: int, maxWidth: int,
                        fit: FontFit, tried: seq<int>)
  {
    && tried != []
    && SizesStepDown(tried, start, minSize)
    && (forall k | 0 <= k < |tried| - 1 :: measure(tried[k]) > maxWidth)
    && fit == Measured(tried[|tried| - 1], measure(tried[|tried| - 1]))
    && (fit.width <= maxWidth || fit.size - 2 <= minSize)
  }

  /** The font-size loop. `measure` gives the text's pixel width at a font
      size; `fontOpens` says whether the TrueType file can be opened (when it
      cannot, the source falls back to the default font and leaves the loop
      without measuring). */
  method FitFont(measure: int -> int, fontOpens: bool, start: int, minSize: int, maxWidth: int)
    returns (fit: FontFit, tried: seq<int>)
    ensures fontOpens && start > minSize ==> IsFitSearch(measure, start, minSize, maxWidth, fit, tried)
    ensures !(fontOpens && start > minSize) ==> fit == Unmeasured && tried == []
  {
    var size := start;
    tried := [];
    fit := Unmeasured;
    while size > minSize
      invariant SizesStepDown(tried, start, minSize)
      invariant size == start - 2 * |tried|
      invariant forall k | 0 <= k < |tried| :: measure(tried[k]) > maxWidth
      invariant tried == [] ==> fit == Unmeasured
      invariant tried != [] ==>
        fontOpens && fit == Measured(tried[|tried| - 1], measure(tried[|tried| - 1]))
      decreases size - minSize
    {
      if !fontOpens {
        break;
      }
      var width := measure(size);
      tried := tried + [size];
      fit := Measured(size, width);
      if width <= maxWidth {
        break;
      }
      size := size - 2;
    }
  }

  /** The search result is determined by its description. */
  lemma {:induction false} FitSearchUnique(measure: int -> int, start: int, minSize: int, maxWidth: int,
                                           fit1: FontFit, tried1: seq<int>, fit2: FontFit, tried2: seq<int>)
    requires IsFitSearch(measure, start, minSize, maxWidth, fit1, tried1)
    requires IsFitSearch(measure, start, minSize, maxWidth, fit2, tried2)
    ensures fit1 == fit2 && tried1 == tried2
  {
    if |tried1| < |tried2| {
      StopsNoLaterThan(measure, measure, start, minSize, maxWidth, fit2, tried2, fit1, tried1);
    } else if |tried2| < |tried1| {
      StopsNoLaterThan(measure, measure, start, minSize, maxWidth, fit1, tried1, fit2, tried2);
    }
  }

  /** If the text measures at least as wide under `wider` as under
      `narrower` at every size, the search for `wider` tries at least as many
      sizes as the search for `narrower`. */
  lemma StopsNoLaterThan(narrower: int -> int, wider: int -> int, start: int, minSize: int, maxWidth: int,
                         fitN: FontFit, triedN: seq<int>, fitW: FontFit, triedW: seq<int>)
    requires IsFitSearch(narrower, start, minSize, maxWidth, fitN, triedN)
    requires IsFitSearch(wider, start, minSize, maxWidth, fitW, triedW)
    requires forall size :: narrower(size) <= wider(size)
    ensures |triedN| <= |triedW|
  {
    if |triedW| < |triedN| {
      var k := |triedW| - 1;
      SearchPassedOver(narrower, start, minSize, maxWidth, fitN, triedN, k);
      assert false;
    }
  }

  /** A size the search moved past was too wide, and the next size tried is
      two smaller. */
  lemma SearchPassedOver(measure: int -> int, start: int, minSize: int, maxWidth: int,
                         fit: FontFit, tried: seq<int>, k: nat)
    requires IsFitSearch(measure, start, minSize, maxWidth, fit, tried)
    requires k < |tried| - 1
    ensures measure(start - 2 * k) > maxWidth
    ensures start - 2 * (k + 1) > minSize
  {
    assert tried[k] == start - 2 * k;
    assert tried[k + 1] == start - 2 * (k + 1);
  }

  /** A text at least as wide at every size never gets a larger font. */
  lemma WiderTextNeverLargerFont(narrower: int -> int, wider: int -> int, start: int, minSize: int, maxWidth: int,
                                 fitN: FontFit, triedN: seq<int>, fitW: FontFit, triedW: seq<int>)
    requires IsFitSearch(narrower, start, minSize, maxWidth, fitN, triedN)
    requires IsFitSearch(wider, start, minSize, maxWidth, fitW, triedW)
    requires forall size :: narrower(size) <= wider(size)
    ensures fitW.size <= fitN.size
  {
    StopsNoLaterThan(narrower, wider, start, minSize, maxWidth, fitN, triedN, fitW, triedW);
  }
}
