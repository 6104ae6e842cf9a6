/** Unit conversions of `src/imaging/PhysicalSize.cpp`, over the reals. */
module PhysicalSize {
  import opened Common

  const CM_PER_INCH: real := 2.54
  const MIN_REASONABLE_DPI: real := 1.0
  const MAX_REASONABLE_DPI: real := 100000.0

  predicate IsReasonableDpi(dpi: real) {
    MIN_REASONABLE_DPI <= dpi <= MAX_REASONABLE_DPI
  }

  datatype PhysicalSizeCm = PhysicalSizeCm(widthCm: real, heightCm: real)

  /** The exact answer, stated by what it must satisfy: the width in inches, times the density,
      is the pixel count. */
  function CalculatePhysicalSizeCm(width: nat, height: nat, dpiX: real, dpiY: real): (r: Option<PhysicalSizeCm>)
    ensures r.Some? <==> width != 0 && height != 0 && IsReasonableDpi(dpiX) && IsReasonableDpi(dpiY)
    ensures r.Some? ==> r.value.widthCm > 0.0 && r.value.heightCm > 0.0
    ensures r.Some? ==> r.value.widthCm * dpiX == width as real * CM_PER_INCH
    ensures r.Some? ==> r.value.heightCm * dpiY == height as real * CM_PER_INCH
  {
    if width == 0 || height == 0 || !IsReasonableDpi(dpiX) || !IsReasonableDpi(dpiY) then None
    else
      LengthCancels(width as real, dpiX);
      LengthCancels(height as real, dpiY);
      Some(PhysicalSizeCm(width as real / dpiX * CM_PER_INCH, height as real / dpiY * CM_PER_INCH))
  }

  lemma LengthCancels(pixels: real, dpi: real)
    requires pixels > 0.0 && dpi > 0.0
    ensures pixels / dpi * CM_PER_INCH > 0.0
    ensures pixels / dpi * CM_PER_INCH * dpi == pixels * CM_PER_INCH
  {
    var inches := pixels / dpi;
    assert inches * dpi == pixels;
    assert inches * CM_PER_INCH * dpi == inches * dpi * CM_PER_INCH;
    assert inches > 0.0;
  }

  /** More pixels never shrink the picture, and a higher density never enlarges it. */
  lemma SizeIsMonotone(width: nat, height: nat, dpiX: real, dpiY: real, width': nat, height': nat, dpiX': real,
      dpiY': real)
    requires width' <= width && height' <= height && dpiX <= dpiX' && dpiY <= dpiY'
    requires CalculatePhysicalSizeCm(width, height, dpiX, dpiY).Some?
    requires CalculatePhysicalSizeCm(width', height', dpiX', dpiY').Some?
    ensures var large, small := CalculatePhysicalSizeCm(width, height, dpiX, dpiY).value,
      CalculatePhysicalSizeCm(width', height', dpiX', dpiY').value;
      small.widthCm <= large.widthCm && small.heightCm <= large.heightCm
  {
    var large := CalculatePhysicalSizeCm(width, height, dpiX, dpiY).value;
    var small := CalculatePhysicalSizeCm(width', height', dpiX', dpiY').value;
    SmallerFactor(small.widthCm, dpiX', large.widthCm, dpiX);
    SmallerFactor(small.heightCm, dpiY', large.heightCm, dpiY);
  }

  lemma SmallerFactor(a: real, m: real, b: real, n: real)
    requires a > 0.0 && b > 0.0 && m >= n > 0.0 && a * m <= b * n
    ensures a <= b
  {
    assert a * m - a * n == a * (m - n) >= 0.0;
    assert (a - b) * n <= 0.0;
  }
}
