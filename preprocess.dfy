/** The arithmetic of `preprocessImage` (scoolize/src/components/Student/ScoreOCR.tsx):
    the size cap applied before drawing the image, and the black-and-white threshold
    applied in place to the RGBA bytes of the canvas. */
module ImagePreprocess {

  /** The longest side a drawn image may have. */
  const MaxSize: nat := 2000

  /** `width`/`height` start as the image's own dimensions and are reassigned when one
      side is larger than `MaxSize`; the other side is scaled by the same factor. */
  method ResizeDimensions(imageWidth: nat, imageHeight: nat) returns (width: real, height: real)
    ensures !(imageWidth > MaxSize || imageHeight > MaxSize) ==>
              width == imageWidth as real && height == imageHeight as real
    ensures imageWidth > MaxSize || imageHeight > MaxSize ==>
              (if imageWidth > imageHeight then width == MaxSize as real && height <= width
               else height == MaxSize as real && width <= height)
              && 0.0 <= width && 0.0 <= height
              && width * imageHeight as real == height * imageWidth as real
    ensures imageWidth == imageHeight > MaxSize ==> width == height == MaxSize as real
    ensures width <= MaxSize as real && height <= MaxSize as real
  {
    width := imageWidth as real;
    height := imageHeight as real;
    var maxSize := MaxSize as real;
    if width > maxSize || height > maxSize {
      var w, h := width, height;
      if width > height {
        height := (height / width) * maxSize;
        width := maxSize;
        ScaledBelow(h, w, maxSize);
      } else {
        width := (width / height) * maxSize;
        height := maxSize;
        ScaledBelow(w, h, maxSize);
      }
    }
  }

  /** Scaling the smaller side `small` by `m / large` keeps it within `[0, m]` and keeps
      the ratio of the two sides. */
  lemma ScaledBelow(small: real, large: real, m: real)
    requires 0.0 <= small <= large && 0.0 < large && 0.0 < m
    ensures 0.0 <= (small / large) * m <= m
    ensures (small / large) * m * large == m * small
  {
    var q := small / large;
    assert q * large == small;
    assert 0.0 <= q <= 1.0;
    assert q * m <= 1.0 * m;
  }

  /** The gray level of a pixel is `0.299 R + 0.587 G + 0.114 B` (the BT.601 weights);
      scaled by 1000 it is an integer. */
  function Gray1000(r: int, g: int, b: int): int {
    299 * r + 587 * g + 114 * b
  }

  /** `gray > threshold ? 255 : 0` with the threshold 128, in the exact integer form
      (`GrayScaled` relates it to the weighted sum `preprocessImage` computes). */
  function NewValue(r: int, g: int, b: int): int {
    if Gray1000(r, g, b) > 128000 then 255 else 0
  }

  /** The exact form of the threshold test. */
  lemma GrayScaled(r: int, g: int, b: int)
    ensures (r as real) * 0.299 + (g as real) * 0.587 + (b as real) * 0.114 > 128.0
            <==> Gray1000(r, g, b) > 128000
  {
    assert (r as real) * 0.299 + (g as real) * 0.587 + (b as real) * 0.114
           == Gray1000(r, g, b) as real / 1000.0;
  }

  /** A byte index `k` of a buffer of whole pixels lies in the pixel starting at `k - k % 4`. */
  lemma PixelOf(n: nat, k: nat)
    requires n % 4 == 0 && k < n
    ensures k - k % 4 + 3 < n && (k - k % 4) % 4 == 0
  {
  }

  /** The RGBA bytes after the loop: each pixel's R, G and B become its new value, its
      alpha byte is kept. */
  function Binarized(s: seq<int>): (r: seq<int>)
    requires |s| % 4 == 0
    ensures |r| == |s|
  {
    seq(|s|, k requires 0 <= k < |s| =>
      PixelOf(|s|, k);
      if k % 4 == 3 then s[k] else NewValue(s[k - k % 4], s[k - k % 4 + 1], s[k - k % 4 + 2]))
  }

  /** Pixel `p` (bytes `4p` to `4p + 3`) after the loop. */
  lemma BinarizedPixel(s: seq<int>, p: nat)
    requires |s| % 4 == 0 && 4 * p + 3 < |s|
    ensures var v := NewValue(s[4 * p], s[4 * p + 1], s[4 * p + 2]);
            Binarized(s)[4 * p] == v && Binarized(s)[4 * p + 1] == v && Binarized(s)[4 * p + 2] == v
            && Binarized(s)[4 * p + 3] == s[4 * p + 3]
  {
    var k := 4 * p;
    assert k % 4 == 0 && (k + 1) % 4 == 1 && (k + 2) % 4 == 2 && (k + 3) % 4 == 3;
  }

  /** What the loop promises for every pixel `p`: R, G and B are all 0 or all 255, 255
      exactly when the gray level `0.299 R + 0.587 G + 0.114 B` exceeds 128, and alpha is
      unchanged. */
  lemma BinarizedPixels(s: seq<int>)
    requires |s| % 4 == 0
    ensures forall p: nat :: 4 * p + 3 < |s| ==>
              var r := Binarized(s);
              (r[4 * p] == 0 || r[4 * p] == 255)
              && r[4 * p + 1] == r[4 * p] && r[4 * p + 2] == r[4 * p]
              && (r[4 * p] == 255 <==>
                    (s[4 * p] as real) * 0.299 + (s[4 * p + 1] as real) * 0.587 + (s[4 * p + 2] as real) * 0.114 > 128.0)
              && r[4 * p + 3] == s[4 * p + 3]
  {
    forall p: nat | 4 * p + 3 < |s|
      ensures var r := Binarized(s);
              (r[4 * p] == 0 || r[4 * p] == 255)
              && r[4 * p + 1] == r[4 * p] && r[4 * p + 2] == r[4 * p]
              && (r[4 * p] == 255 <==>
                    (s[4 * p] as real) * 0.299 + (s[4 * p + 1] as real) * 0.587 + (s[4 * p + 2] as real) * 0.114 > 128.0)
              && r[4 * p + 3] == s[4 * p + 3]
    {
      BinarizedPixel(s, p);
      GrayScaled(s[4 * p], s[4 * p + 1], s[4 * p + 2]);
    }
  }

  /** Pixel `q` of `out` is pixel `q` of `s` binarized. */
  ghost predicate PixelBinarized(out: seq<int>, s: seq<int>, q: nat)
    requires |out| == |s| && 4 * q + 3 < |s|
  {
    var v := NewValue(s[4 * q], s[4 * q + 1], s[4 * q + 2]);
    out[4 * q] == v && out[4 * q + 1] == v && out[4 * q + 2] == v && out[4 * q + 3] == s[4 * q + 3]
  }

  /** A buffer whose every pixel is binarized is the binarized buffer. */
  lemma BinarizedFromPixels(out: seq<int>, s: seq<int>)
    requires |out| == |s| && |s| % 4 == 0
    requires forall q: nat :: 4 * q + 3 < |s| ==> PixelBinarized(out, s, q)
    ensures out == Binarized(s)
  {
    forall k | 0 <= k < |s| ensures out[k] == Binarized(s)[k] {
      var q := k / 4;
      assert k == 4 * q + k % 4;
      assert 4 * q + 3 < |s|;
      BinarizedPixel(s, q);
      assert PixelBinarized(out, s, q);
    }
  }

  /** Running the loop again on its own output changes nothing. */
  lemma BinarizedIdempotent(s: seq<int>)
    requires |s| % 4 == 0
    ensures Binarized(Binarized(s)) == Binarized(s)
  {
    var r := Binarized(s);
    forall q: nat | 4 * q + 3 < |r| ensures PixelBinarized(r, r, q) {
      BinarizedPixel(s, q);
    }
    BinarizedFromPixels(r, r);
  }

  /** One turn of the loop: writing the new value into R, G and B of pixel `p` binarizes
      it and leaves the pixels before it binarized. */
  lemma PixelStep(before: seq<int>, after: seq<int>, original: seq<int>, p: nat, v: int)
    requires |before| == |original| && 4 * p + 3 < |original|
    requires after == before[4 * p := v][4 * p + 1 := v][4 * p + 2 := v]
    requires forall q: nat :: q < p ==> PixelBinarized(before, original, q)
    requires before[4 * p + 3] == original[4 * p + 3]
    requires v == NewValue(original[4 * p], original[4 * p + 1], original[4 * p + 2])
    ensures forall q: nat :: q <= p ==> PixelBinarized(after, original, q)
  {
    forall q: nat | q <= p ensures PixelBinarized(after, original, q) {
      if q < p {
        assert PixelBinarized(before, original, q);
      }
    }
  }

  /** The loop over the canvas bytes, one pixel (four bytes) per turn.
      Canvas image data always holds whole pixels, four bytes each. */
  method Binarize(data: array<int>)
    requires data.Length % 4 == 0
    modifies data
    ensures data[..] == Binarized(old(data[..]))
  {
    ghost var original := data[..];
    var i := 0;
    ghost var p := 0;
    while i < data.Length
      invariant 0 <= i <= data.Length && i == 4 * p
      invariant forall q: nat :: q < p ==> PixelBinarized(data[..], original, q)
      invariant forall k :: i <= k < data.Length ==> data[k] == original[k]
    {
      assert data[i] == original[i] && data[i + 1] == original[i + 1] && data[i + 2] == original[i + 2];
      var gray1000 := 299 * data[i] + 587 * data[i + 1] + 114 * data[i + 2];
      var newValue := if gray1000 > 128000 then 255 else 0;
      assert newValue == NewValue(original[i], original[i + 1], original[i + 2]);
      ghost var before := data[..];
      data[i] := newValue;
      data[i + 1] := newValue;
      data[i + 2] := newValue;
      assert data[..] == before[i := newValue][i + 1 := newValue][i + 2 := newValue];
      PixelStep(before, data[..], original, p, newValue);
      i, p := i + 4, p + 1;
    }
    BinarizedFromPixels(data[..], original);
  }
}
