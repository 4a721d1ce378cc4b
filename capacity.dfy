/**
 * Capacity arithmetic: how many bytes a carrier can hold, the two forms of
 * the "does it fit" check, and the advisory `calculate_required_capacity`
 * that suggests carrier dimensions for a file size.
 *
 * One data bit goes into each of the three channel values of a pixel, so a
 * `width` x `height` carrier has `width * height * 3` usable bits.
 */
module Capacity {
  import opened Bits

  /** `(width * height * 3) // 8`: whole bytes the carrier can hold. */
  function MaxCapacityBytes(width: nat, height: nat): (bytes: nat)
    ensures 8 * bytes <= width * height * 3 < 8 * (bytes + 1)
  {
    DivMod(width * height * 3, 8);
    (width * height * 3) / 8
  }

  /** The check of the enhanced embedder, in bytes: the stream is refused when it is longer. */
  predicate FitsBytes(streamBytes: nat, width: nat, height: nat) {
    streamBytes <= MaxCapacityBytes(width, height)
  }

  /** The check of the plain embedder, in bits: the bit string is refused when it is longer. */
  predicate FitsBits(streamBits: nat, width: nat, height: nat) {
    streamBits <= width * height * 3
  }

  /** A carrier of `pixels` RGB pixels has a channel count divisible by three. */
  lemma WholePixels(pixels: nat)
    ensures (pixels * 3) % 3 == 0
  {
  }

  /** For a whole number of bytes the bit check and the byte check agree. */
  lemma BitAndByteChecksAgree(streamBytes: nat, width: nat, height: nat)
    ensures FitsBits(8 * streamBytes, width, height) <==> FitsBytes(streamBytes, width, height)
  {
    var bits := width * height * 3;
    assert bits == 8 * (bits / 8) + bits % 8;
  }

  /** A carrier at least as wide and as tall holds at least as many bytes. */
  lemma CapacityMonotone(width: nat, height: nat, width': nat, height': nat)
    requires width <= width' && height <= height'
    ensures MaxCapacityBytes(width, height) <= MaxCapacityBytes(width', height')
  {
    assert width * height <= width' * height by {
      MulLe(width, width', height);
    }
    assert width' * height <= width' * height' by {
      MulLe(height, height', width');
    }
    DivLe(width * height * 3, width' * height' * 3, 8);
  }

  lemma DivLe(a: nat, b: nat, d: nat)
    requires a <= b && d > 0
    ensures a / d <= b / d
  {
    var qa, qb := a / d, b / d;
    if qa > qb {
      DivMod(a, d);
      DivMod(b, d);
      MulLe(qb + 1, qa, d);
      assert false;
    }
  }

  /** Bytes set aside besides the file: the 4-byte length header and 1 KiB of metadata. */
  const Overhead: nat := 4 + 1024

  /** `ceil((fileSize + 1028) * 8 / 3)`: pixels needed at three bits per pixel. */
  function RequiredPixels(fileSize: nat): (pixels: nat)
    ensures 3 * pixels >= 8 * (fileSize + Overhead)
    ensures pixels == 0 || 3 * (pixels - 1) < 8 * (fileSize + Overhead)
  {
    ((fileSize + Overhead) * 8 + 2) / 3
  }

  /** Any carrier with the required pixel count holds the file plus the overhead. */
  lemma RequiredPixelsSuffice(fileSize: nat, width: nat, height: nat)
    requires width * height >= RequiredPixels(fileSize)
    ensures MaxCapacityBytes(width, height) >= fileSize + Overhead
  {
    var p := width * height;
    var total := fileSize + Overhead;
    assert p * 3 >= 8 * total;
    DivLe(8 * total, p * 3, 8);
  }

  /** `int(x ** 0.5)` for a whole number `x`: the integer square root. */
  function Isqrt(n: nat): (r: nat)
    ensures r * r <= n < (r + 1) * (r + 1)
  {
    if n < 4 then (if n == 0 then 0 else 1)
    else
      var t := Isqrt(n / 4);
      var s := 2 * t;
      IsqrtStep(n, t);
      if (s + 1) * (s + 1) <= n then s + 1 else s
  }

  lemma IsqrtStep(n: nat, t: nat)
    requires n >= 4 && t * t <= n / 4 < (t + 1) * (t + 1)
    ensures (2 * t) * (2 * t) <= n < (2 * t + 2) * (2 * t + 2)
  {
    var q := n / 4;
    assert (2 * t) * (2 * t) == 4 * (t * t);
    assert (2 * t + 2) * (2 * t + 2) == 4 * ((t + 1) * (t + 1));
    assert 4 * q <= n < 4 * q + 4;
  }

  /** The height of a carrier of width `width` in aspect ratio `ratioW:ratioH`. */
  function RatioHeight(width: nat, ratioW: nat, ratioH: nat): (height: nat)
    requires ratioW >= 1
    ensures height * ratioW <= width * ratioH < (height + 1) * ratioW
  {
    DivMod(width * ratioH, ratioW);
    width * ratioH / ratioW
  }

  /**
   * True when `width` is the least width whose ratio height gives at least
   * `required` pixels.
   */
  ghost predicate LeastWidth(width: nat, required: nat, ratioW: nat, ratioH: nat)
    requires ratioW >= 1
  {
    && width * RatioHeight(width, ratioW, ratioH) >= required
    && forall w: nat :: w < width ==> w * RatioHeight(w, ratioW, ratioH) < required
  }

  /** Widths below the square-root starting guess all give too few pixels. */
  lemma BelowGuessTooSmall(required: nat, ratioW: nat, ratioH: nat, w: nat)
    requires ratioW >= 1 && ratioH >= 1
    requires w < Isqrt(required * ratioW / ratioH)
    ensures w * RatioHeight(w, ratioW, ratioH) < required
  {
    var q := required * ratioW / ratioH;
    SquareLt(w, Isqrt(q));
    DivMulLe(w * ratioH, ratioW);
    DivMulLe(required * ratioW, ratioH);
    Scaled(w, RatioHeight(w, ratioW, ratioH), ratioW, ratioH, q, required);
  }

  lemma DivMulLe(a: nat, d: nat)
    requires d > 0
    ensures (a / d) * d <= a
  {
    DivMod(a, d);
  }

  lemma MulStrict(a: nat, b: nat, c: nat)
    requires a < b && c > 0
    ensures a * c < b * c
  {
    MulLe(a + 1, b, c);
  }

  lemma SquareLt(a: nat, b: nat)
    requires a < b
    ensures a * a < b * b
  {
    MulLe(a, b, a);
    MulLe(a + 1, b, b);
  }

  lemma Scaled(w: nat, h: nat, ratioW: nat, ratioH: nat, q: nat, required: nat)
    requires ratioW >= 1 && ratioH >= 1
    requires w * w < q
    requires h * ratioW <= w * ratioH
    requires q * ratioH <= required * ratioW
    ensures w * h < required
  {
    MulLe(h * ratioW, w * ratioH, w);
    MulStrict(w * w, q, ratioH);
    assert (h * ratioW) * w == (w * h) * ratioW;
    assert (w * ratioH) * w == (w * w) * ratioH;
    if w * h >= required {
      MulLe(required, w * h, ratioW);
      assert false;
    }
  }

  /** While the pixel count is short, the width is below `required + ratioW`. */
  lemma ShortWidthBound(required: nat, ratioW: nat, ratioH: nat, width: nat)
    requires ratioW >= 1 && ratioH >= 1
    requires width * RatioHeight(width, ratioW, ratioH) < required
    ensures width < required + ratioW
  {
    if width >= ratioW {
      var h := RatioHeight(width, ratioW, ratioH);
      assert h >= 1 by {
        MulLe(ratioW, width, ratioH);
        DivLe(ratioW * ratioH, width * ratioH, ratioW);
        assert ratioW * ratioH / ratioW == ratioH by {
          DivMod(ratioW * ratioH, ratioW);
          DivUnique(ratioW * ratioH, ratioW, ratioH);
        }
      }
      MulLe(1, h, width);
    }
  }

  lemma DivUnique(a: nat, d: nat, q: nat)
    requires d > 0 && a == q * d
    ensures a / d == q
  {
    DivMod(a, d);
    if a / d < q {
      MulLe(a / d + 1, q, d);
    } else if a / d > q {
      MulLe(q + 1, a / d, d);
    }
  }

  /**
   * The per-ratio search: start from the square-root guess and widen one
   * column at a time, recomputing the height, until the pixel count suffices.
   */
  method FitRatio(required: nat, ratioW: nat, ratioH: nat) returns (width: nat, height: nat)
    requires ratioW >= 1 && ratioH >= 1
    ensures height == RatioHeight(width, ratioW, ratioH)
    ensures width * height >= required
    ensures LeastWidth(width, required, ratioW, ratioH)
  {
    width := Isqrt(required * ratioW / ratioH);
    height := RatioHeight(width, ratioW, ratioH);
    forall w: nat | w < width
      ensures w * RatioHeight(w, ratioW, ratioH) < required
    {
      BelowGuessTooSmall(required, ratioW, ratioH, w);
    }
    while width * height < required
      invariant height == RatioHeight(width, ratioW, ratioH)
      invariant forall w: nat :: w < width ==> w * RatioHeight(w, ratioW, ratioH) < required
      decreases required + ratioW - width
    {
      ShortWidthBound(required, ratioW, ratioH, width);
      width := width + 1;
      height := RatioHeight(width, ratioW, ratioH);
    }
  }

  /** One suggested carrier size. */
  datatype Suggestion = Suggestion(
    width: nat,
    height: nat,
    pixels: nat,
    ratioW: nat,
    ratioH: nat,
    capacityBytes: nat)

  datatype CapacityReport = CapacityReport(
    fileSize: nat,
    requiredPixels: nat,
    suggestions: seq<Suggestion>)

  /** Square, classic, widescreen and photo, in the order they are tried. */
  const AspectRatios: seq<(nat, nat)> := [(1, 1), (4, 3), (16, 9), (3, 2)]

  /** What every suggestion for `fileSize` promises. */
  ghost predicate GoodSuggestion(s: Suggestion, fileSize: nat) {
    && s.ratioW >= 1
    && s.height == RatioHeight(s.width, s.ratioW, s.ratioH)
    && s.pixels == s.width * s.height
    && s.pixels >= RequiredPixels(fileSize)
    && s.capacityBytes == MaxCapacityBytes(s.width, s.height)
    && s.capacityBytes >= fileSize + Overhead
    && LeastWidth(s.width, RequiredPixels(fileSize), s.ratioW, s.ratioH)
  }

  predicate SortedByPixels(ss: seq<Suggestion>) {
    forall i, j :: 0 <= i < j < |ss| ==> ss[i].pixels <= ss[j].pixels
  }

  /** Put `s` in front of the first suggestion with at least as many pixels. */
  function InsertByPixels(s: Suggestion, ss: seq<Suggestion>): (r: seq<Suggestion>)
    requires SortedByPixels(ss)
    ensures SortedByPixels(r)
    ensures multiset(r) == multiset(ss) + multiset{s}
    ensures r[0] == s || (ss != [] && r[0] == ss[0])
  {
    if ss == [] || s.pixels <= ss[0].pixels then
      ConsSorted(s, ss);
      [s] + ss
    else
      var rest := InsertByPixels(s, ss[1..]);
      assert ss == [ss[0]] + ss[1..];
      ConsSorted(ss[0], rest);
      [ss[0]] + rest
  }

  lemma ConsSorted(x: Suggestion, ss: seq<Suggestion>)
    requires SortedByPixels(ss) && (ss == [] || x.pixels <= ss[0].pixels)
    ensures SortedByPixels([x] + ss)
  {
  }

  /** `sorted(suggestions, key=lambda x: x['pixels'])`. */
  function SortByPixels(ss: seq<Suggestion>): (r: seq<Suggestion>)
    ensures SortedByPixels(r)
    ensures multiset(r) == multiset(ss)
  {
    if ss == [] then []
    else
      assert ss == [ss[0]] + ss[1..];
      InsertByPixels(ss[0], SortByPixels(ss[1..]))
  }

  /**
   * `calculate_required_capacity`: one least-width suggestion per aspect
   * ratio, sorted by pixel count.
   */
  method CalculateRequiredCapacity(fileSize: nat) returns (report: CapacityReport)
    ensures report.fileSize == fileSize
    ensures report.requiredPixels == RequiredPixels(fileSize)
    ensures |report.suggestions| == |AspectRatios|
    ensures SortedByPixels(report.suggestions)
    ensures forall s :: s in report.suggestions ==> GoodSuggestion(s, fileSize)
    ensures forall k :: 0 <= k < |AspectRatios| ==>
      exists s :: s in report.suggestions && (s.ratioW, s.ratioH) == AspectRatios[k]
  {
    var required := RequiredPixels(fileSize);
    var suggestions: seq<Suggestion> := [];
    for r := 0 to |AspectRatios|
      invariant |suggestions| == r
      invariant forall k :: 0 <= k < r ==> GoodSuggestion(suggestions[k], fileSize)
      invariant forall k :: 0 <= k < r ==>
        (suggestions[k].ratioW, suggestions[k].ratioH) == AspectRatios[k]
    {
      var (ratioW, ratioH) := AspectRatios[r];
      var width, height := FitRatio(required, ratioW, ratioH);
      RequiredPixelsSuffice(fileSize, width, height);
      suggestions := suggestions + [Suggestion(width, height, width * height, ratioW, ratioH,
                                               MaxCapacityBytes(width, height))];
    }
    var sorted := SortByPixels(suggestions);
    SortingKeepsSuggestions(suggestions, sorted, fileSize);
    report := CapacityReport(fileSize, required, sorted);
  }

  /** Reordering the suggestions keeps one good suggestion per aspect ratio. */
  lemma SortingKeepsSuggestions(suggestions: seq<Suggestion>, sorted: seq<Suggestion>, fileSize: nat)
    requires multiset(sorted) == multiset(suggestions)
    requires |suggestions| == |AspectRatios|
    requires forall k :: 0 <= k < |suggestions| ==> GoodSuggestion(suggestions[k], fileSize)
    requires forall k :: 0 <= k < |AspectRatios| ==>
      (suggestions[k].ratioW, suggestions[k].ratioH) == AspectRatios[k]
    ensures |sorted| == |AspectRatios|
    ensures forall s :: s in sorted ==> GoodSuggestion(s, fileSize)
    ensures forall k :: 0 <= k < |AspectRatios| ==>
      exists s :: s in sorted && (s.ratioW, s.ratioH) == AspectRatios[k]
  {
    assert |sorted| == |multiset(sorted)| == |multiset(suggestions)| == |suggestions|;
    assert forall s :: s in sorted ==> s in multiset(suggestions);
    assert forall k :: 0 <= k < |AspectRatios| ==> suggestions[k] in multiset(sorted);
  }
}
