/** The result record of the metadata scanners, and the conversions that fill it. */
module EmbeddedDpi {
  import opened Common
  import opened PhysicalSize
  import opened Tiff

  const DPI_PER_PIXELS_PER_METER: real := 0.0254
  const DPI_PER_PIXELS_PER_CENTIMETER: real := 2.54

  datatype Source = Png | PngPhys | JfifApp0 | ExifIfd | TiffIfd | Jpeg | Svg | Pdf | UnknownFormat | Inferred

  datatype Status = ResolutionFound | InvalidDpi | NoPhysicalDpi | Truncated | InvalidFormat | NotApplicable
    | UnsupportedFormat | InferredDpi

  datatype Dpi = Dpi(found: bool, x: real, y: real, source: Source, status: Status) {
    /** What every scanner promises of its answer. */
    predicate Sound() {
      if found then IsReasonableDpi(x) && IsReasonableDpi(y) else x == 0.0 && y == 0.0
    }

    /** Same answer up to where it was found. */
    predicate Agrees(other: Dpi) {
      found == other.found && x == other.x && y == other.y
    }
  }

  function NotFound(source: Source, status: Status): Dpi {
    Dpi(false, 0.0, 0.0, source, status)
  }

  function Reasonable(x: real, y: real, source: Source): (d: Dpi)
    ensures d.Sound()
    ensures d.found <==> IsReasonableDpi(x) && IsReasonableDpi(y)
  {
    if !IsReasonableDpi(x) || !IsReasonableDpi(y) then NotFound(source, InvalidDpi)
      else Dpi(true, x, y, source, ResolutionFound)
  }

  function DpiFromTiffResolution(r: TiffResolution, source: Source): (d: Dpi)
    ensures d.Sound()
    ensures d.found ==> r.unit == 2 || r.unit == 3
  {
    if r.unit == 2 then Reasonable(r.x, r.y, source)
    else if r.unit == 3 then
      Reasonable(r.x * DPI_PER_PIXELS_PER_CENTIMETER, r.y * DPI_PER_PIXELS_PER_CENTIMETER, source)
    else NotFound(source, InvalidDpi)
  }

  function DpiFromJfif(unit: Byte, xDensity: nat, yDensity: nat): (d: Dpi)
    ensures d.Sound()
    ensures d.found ==> unit == 1 || unit == 2
  {
    if unit == 0 then NotFound(JfifApp0, NoPhysicalDpi)
    else if xDensity == 0 || yDensity == 0 then NotFound(JfifApp0, InvalidDpi)
    else if unit == 2 then
      Reasonable(xDensity as real * DPI_PER_PIXELS_PER_CENTIMETER, yDensity as real * DPI_PER_PIXELS_PER_CENTIMETER,
        JfifApp0)
    else if unit == 1 then Reasonable(xDensity as real, yDensity as real, JfifApp0)
    else NotFound(JfifApp0, InvalidDpi)
  }

  function DpiFromPhys(pixelsPerMeterX: nat, pixelsPerMeterY: nat, unit: Byte): (d: Dpi)
    ensures d.Sound()
    ensures d.found ==> unit == 1
  {
    if unit != 1 then NotFound(PngPhys, NoPhysicalDpi)
    else
      Reasonable(pixelsPerMeterX as real * DPI_PER_PIXELS_PER_METER, pixelsPerMeterY as real * DPI_PER_PIXELS_PER_METER,
        PngPhys)
  }

  // ---------------------------------------------------------------- from stored densities to centimetres

  function SizeFor(width: nat, height: nat, d: Dpi): Option<PhysicalSizeCm> {
    CalculatePhysicalSizeCm(width, height, d.x, d.y)
  }

  /** A factor that multiplies the density and is cancelled by the inch leaves pixels over density. */
  lemma FactorCancels(pixels: nat, density: real, factor: real)
    requires pixels > 0 && density > 0.0 && factor > 0.0
    ensures density * factor > 0.0
    ensures pixels as real / (density * factor) * CM_PER_INCH == (CM_PER_INCH / factor) * (pixels as real / density)
  {
    var p := pixels as real;
    var left, right := p / (density * factor) * CM_PER_INCH, (CM_PER_INCH / factor) * (p / density);
    assert density * factor > 0.0;
    var u, v, w := p / (density * factor), CM_PER_INCH / factor, p / density;
    assert u * (density * factor) == p && v * factor == CM_PER_INCH && w * density == p;
    calc {
      left * (density * factor);
      u * CM_PER_INCH * (density * factor);
      (u * (density * factor)) * CM_PER_INCH;
      p * CM_PER_INCH;
      (w * density) * (v * factor);
      (v * w) * (density * factor);
      right * (density * factor);
    }
    Cancel(left, right, density * factor);
  }

  lemma Cancel(a: real, b: real, k: real)
    requires k > 0.0 && a * k == b * k
    ensures a == b
  {
    assert (a - b) * k == 0.0;
  }

  /** JFIF in dots per centimetre: the width in centimetres is the width in pixels over the stored density. */
  lemma JfifCentimetreDensity(width: nat, height: nat, x: nat, y: nat)
    requires width > 0 && height > 0 && DpiFromJfif(2, x, y).found
    ensures SizeFor(width, height, DpiFromJfif(2, x, y)) ==
      Some(PhysicalSizeCm(width as real / x as real, height as real / y as real))
  {
    FactorCancels(width, x as real, 2.54);
    FactorCancels(height, y as real, 2.54);
  }

  /** JFIF in dots per inch: 2.54 centimetres for each inch. */
  lemma JfifInchDensity(width: nat, height: nat, x: nat, y: nat)
    requires width > 0 && height > 0 && DpiFromJfif(1, x, y).found
    ensures SizeFor(width, height, DpiFromJfif(1, x, y)) ==
      Some(PhysicalSizeCm(2.54 * (width as real / x as real), 2.54 * (height as real / y as real)))
  {
    FactorCancels(width, x as real, 1.0);
    FactorCancels(height, y as real, 1.0);
  }

  /** TIFF and EXIF resolution units: unit 3 is per centimetre, unit 2 per inch. */
  lemma TiffDensity(width: nat, height: nat, r: TiffResolution, source: Source)
    requires width > 0 && height > 0 && DpiFromTiffResolution(r, source).found
    ensures r.x > 0.0 && r.y > 0.0
    ensures SizeFor(width, height, DpiFromTiffResolution(r, source)) ==
      var scale := if r.unit == 3 then 1.0 else 2.54;
      Some(PhysicalSizeCm(scale * (width as real / r.x), scale * (height as real / r.y)))
  {
    var factor := if r.unit == 3 then 2.54 else 1.0;
    FactorCancels(width, r.x, factor);
    FactorCancels(height, r.y, factor);
  }

  /** PNG stores pixels per metre: the size is one hundred centimetres for each metre. */
  lemma PhysDensity(width: nat, height: nat, x: nat, y: nat)
    requires width > 0 && height > 0 && DpiFromPhys(x, y, 1).found
    ensures SizeFor(width, height, DpiFromPhys(x, y, 1)) ==
      Some(PhysicalSizeCm(100.0 * (width as real / x as real), 100.0 * (height as real / y as real)))
  {
    FactorCancels(width, x as real, 0.0254);
    FactorCancels(height, y as real, 0.0254);
  }
}
