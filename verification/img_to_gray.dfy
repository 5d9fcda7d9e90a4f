/**
 The image preprocessing helper: where the processed image is written and
 the dimensions it is scaled to before grey-scale conversion and JPEG
 compression. Dimensions are computed in exact arithmetic.
 */
module ImgToGray {
  import opened Wrappers
  import PyPath

  const DefaultOutputDirectory := "processed_images"
  const DefaultMaxDimension := 1800
  const ProcessedSuffix := "_processed.jpg"

  /**
   The output path: the output directory joined with the input's basename,
   its last extension dropped, followed by "_processed.jpg".
   */
  function OutputPath(outputDirectory: string, inputPath: string): (r: string)
    ensures PyPath.Basename(r) == OutputName(inputPath)
    ensures |r| >= |ProcessedSuffix| && r[|r| - |ProcessedSuffix|..] == ProcessedSuffix
  {
    var name := OutputName(inputPath);
    PyPath.JoinBasename(outputDirectory, name);
    EndsWithName(outputDirectory, name);
    PyPath.Join(outputDirectory, name)
  }

  /** The file name written: the input's basename without its extension, then the suffix. */
  function OutputName(inputPath: string): (name: string)
    ensures name == PyPath.SplitExt(PyPath.Basename(inputPath)).0 + ProcessedSuffix
    ensures '/' !in name && |name| >= |ProcessedSuffix|
    ensures name[|name| - |ProcessedSuffix|..] == ProcessedSuffix
  {
    var stem := PyPath.SplitExt(PyPath.Basename(inputPath)).0;
    OutputNameIsPlain(inputPath);
    stem + ProcessedSuffix
  }

  lemma OutputNameIsPlain(inputPath: string)
    ensures '/' !in PyPath.SplitExt(PyPath.Basename(inputPath)).0 + ProcessedSuffix
  {
    var parts := PyPath.SplitExt(PyPath.Basename(inputPath));
    PyPath.PrefixHasNoSlash(parts.0, parts.1);
  }

  lemma EndsWithName(dir: string, name: string)
    requires |name| >= |ProcessedSuffix| && name[|name| - |ProcessedSuffix|..] == ProcessedSuffix
    ensures var r := PyPath.Join(dir, name);
      |r| >= |ProcessedSuffix| && r[|r| - |ProcessedSuffix|..] == ProcessedSuffix
  {
    var r := PyPath.Join(dir, name);
    assert r[|r| - |name|..] == name;
    assert r[|r| - |ProcessedSuffix|..] == name[|name| - |ProcessedSuffix|..];
  }

  /** A photo "dir/stem.ext" is written as "out/stem_processed.jpg", whatever its extension. */
  lemma OutputPathOfPhoto(out: string, dir: string, stem: string, ext: string)
    requires out != "" && out[|out| - 1] != '/'
    requires '/' !in stem && '/' !in ext && '.' !in ext && |stem| > 0 && stem[0] != '.'
    ensures OutputPath(out, dir + "/" + stem + "." + ext) == out + "/" + stem + ProcessedSuffix
  {
    var p := dir + "/" + stem + "." + ext;
    OutputNameOfPhoto(dir, stem, ext);
    OutputPathUnder(out, p);
    assert out + "/" + (stem + ProcessedSuffix) == out + "/" + stem + ProcessedSuffix;
  }

  lemma OutputNameOfPhoto(dir: string, stem: string, ext: string)
    requires '/' !in stem && '/' !in ext && '.' !in ext && |stem| > 0 && stem[0] != '.'
    ensures OutputName(dir + "/" + stem + "." + ext) == stem + ProcessedSuffix
  {
    var file := stem + "." + ext;
    assert dir + "/" + stem + "." + ext == dir + "/" + file;
    PyPath.BasenameOfChild(dir, file);
    PyPath.SplitExtOfName(stem, ext);
  }

  lemma OutputPathUnder(out: string, p: string)
    requires out != "" && out[|out| - 1] != '/'
    ensures OutputPath(out, p) == out + "/" + OutputName(p)
  {
    var name := OutputName(p);
    assert name[0] != '/';
  }

  /** Python's `int()` on a real: truncation toward zero. */
  function Trunc(x: real): (n: int)
    ensures x >= 0.0 ==> n == x.Floor
    ensures x < 0.0 ==> n == -((-x).Floor)
  {
    if x >= 0.0 then x.Floor else -((-x).Floor)
  }

  /**
   The size after the resize step: unchanged when the larger side fits;
   otherwise the larger side (the height on a tie) becomes `maxDimension`
   and the other is scaled by the same factor and truncated. `None` is the
   division by zero of an empty image with a negative limit.
   */
  function NewSize(width: nat, height: nat, maxDimension: int): (r: Option<(int, int)>)
    ensures (if width > height then width else height) <= maxDimension ==> r == Some((width, height))
    ensures r.None? <==> width == 0 && height == 0 && maxDimension < 0
    ensures maxDimension >= 0 && width > height && width > maxDimension ==>
      r == Some((maxDimension, height * maxDimension / width))
    ensures maxDimension >= 0 && height >= width && height > maxDimension ==>
      r == Some((width * maxDimension / height, maxDimension))
  {
    if (if width > height then width else height) <= maxDimension then Some((width, height))
    else if width > height then
      var h := Trunc((height as real) * ((maxDimension as real) / (width as real)));
      ScaledFloor(height, maxDimension, width);
      Some((maxDimension, h))
    else if height == 0 then None
    else
      var w := Trunc((width as real) * ((maxDimension as real) / (height as real)));
      ScaledFloor(width, maxDimension, height);
      Some((w, maxDimension))
  }

  /** `a * (m / d)` truncated is the integer quotient `a * m / d`. */
  lemma ScaledFloor(a: nat, m: int, d: nat)
    requires d > 0
    ensures m >= 0 ==> Trunc((a as real) * ((m as real) / (d as real))) == a * m / d
  {
    if m < 0 { return; }
    var q := a * m / d;
    var rem := a * m % d;
    assert a * m == q * d + rem && 0 <= rem < d;
    var x := (a as real) * ((m as real) / (d as real));
    assert x == ((a * m) as real) / (d as real);
    assert ((a * m) as real) == (q as real) * (d as real) + (rem as real);
    assert x == (q as real) + (rem as real) / (d as real);
    assert 0.0 <= (rem as real) / (d as real) < 1.0;
  }

  /**
   After a resize both sides fit, the larger side is exactly the limit, and
   neither side grows.
   */
  lemma ResizedFits(width: nat, height: nat, maxDimension: nat)
    requires (if width > height then width else height) > maxDimension
    ensures var r := NewSize(width, height, maxDimension);
      && r.Some?
      && 0 <= r.value.0 <= maxDimension && 0 <= r.value.1 <= maxDimension
      && (r.value.0 == maxDimension || r.value.1 == maxDimension)
      && r.value.0 <= width && r.value.1 <= height
  {
    if width > height {
      Shrinks(height, maxDimension, width);
    } else {
      Shrinks(width, maxDimension, height);
    }
  }

  /** Scaling `a <= d` by `m / d` with `m < d` gives at most `m`, and at most `a`. */
  lemma Shrinks(a: nat, m: nat, d: nat)
    requires a <= d && m < d
    ensures 0 <= a * m / d <= m && a * m / d <= a
  {
    assert a * m <= m * d by { MulLeq(a, d, m); }
    assert a * m <= a * d by { MulLeq(m, d, a); }
    QuotientBound(a * m, d, m);
    QuotientBound(a * m, d, a);
  }

  lemma MulLeq(x: nat, y: nat, c: nat)
    requires x <= y
    ensures x * c <= y * c
  {
  }

  /** A quotient is at most `b` when the dividend is at most `b * d`. */
  lemma QuotientBound(n: nat, d: nat, b: nat)
    requires d > 0 && n <= b * d
    ensures n / d <= b
  {
    var q := n / d;
    assert n == q * d + n % d;
    if q > b {
      assert q * d >= (b + 1) * d by { MulLeq(b + 1, q, d); }
    }
  }

  /** The resized image keeps the aspect ratio up to truncation of the shorter side. */
  lemma ResizeKeepsRatio(width: nat, height: nat, maxDimension: nat)
    requires width > height && width > maxDimension
    ensures var r := NewSize(width, height, maxDimension).value;
      r.1 * width <= height * maxDimension < (r.1 + 1) * width
  {
  }

  /** The saved image: where it went and its dimensions. */
  datatype Processed = Processed(path: string, width: int, height: int)

  /**
   `preprocess_and_compress_image_for_ocr`. `found` is `os.path.exists`,
   `original` the original size when PIL can open the file, and `saved` whether
   resizing, conversion and saving all succeed.
   */
  function Preprocess(found: bool, inputPath: string, outputDirectory: string, maxDimension: int,
                      original: Option<(nat, nat)>, saved: bool): (r: Option<Processed>)
    ensures !found ==> r.None?
    ensures r.Some? <==> found && original.Some? && NewSize(original.value.0, original.value.1, maxDimension).Some? && saved
    ensures r.Some? ==>
      && r.value.path == OutputPath(outputDirectory, inputPath)
      && (r.value.width, r.value.height) == NewSize(original.value.0, original.value.1, maxDimension).value
  {
    if !found then None
    else
      var path := OutputPath(outputDirectory, inputPath);
      match original
      case None => None
      case Some(size) =>
        match NewSize(size.0, size.1, maxDimension)
        case None => None
        case Some(dims) => if saved then Some(Processed(path, dims.0, dims.1)) else None
  }

  /** With the default limit a 4000 by 8000 photo is saved at 900 by 1800. */
  lemma TallPhoto(inputPath: string, out: string)
    ensures Preprocess(true, inputPath, out, DefaultMaxDimension, Some((4000, 8000)), true)
      == Some(Processed(OutputPath(out, inputPath), 900, 1800))
  {
    assert NewSize(4000, 8000, 1800) == Some((900, 1800));
  }
}
