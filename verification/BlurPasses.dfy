/** The separable blur of lab-1 over the reals: a normalised symmetric kernel, two clamped
    one-dimensional passes, and eight-bit rounding after each. */
module BlurPasses {

  type Byte = c: int | 0 <= c <= 255

  datatype Pixel = Pixel(r: Byte, g: Byte, b: Byte, a: Byte)
  datatype Channel = R | G | B | A

  function Get(p: Pixel, ch: Channel): Byte
  {
    match ch
    case R => p.r
    case G => p.g
    case B => p.b
    case A => p.a
  }

  /** An image as the blur sees it: its bounds, and the colour at absolute coordinates. */
  datatype Image = Image(minX: int, minY: int, width: nat, height: nat, at: (int, int) -> Pixel)

  function Clamp(v: int, min: int, max: int): int
  {
    if v < min then min else if v > max then max else v
  }

  // ---------- weighted sums ----------

  function Sum(w: seq<real>, n: nat): real
    requires n <= |w|
  {
    if n == 0 then 0.0 else Sum(w, n - 1) + w[n - 1]
  }

  function Dot(w: seq<real>, v: seq<real>, n: nat): real
    requires n <= |w| && n <= |v|
  {
    if n == 0 then 0.0 else Dot(w, v, n - 1) + v[n - 1] * w[n - 1]
  }

  ghost predicate NonNegative(w: seq<real>)
  {
    forall k :: 0 <= k < |w| ==> w[k] >= 0.0
  }

  lemma ScaleMonotone(a: real, b: real, w: real)
    requires a <= b && w >= 0.0
    ensures a * w <= b * w
  {
  }

  lemma {:induction false} DotDiffers(w: seq<real>, u: seq<real>, v: seq<real>, e: real, n: nat)
    requires n <= |w| && n <= |u| && n <= |v| && NonNegative(w)
    requires forall k :: 0 <= k < n ==> u[k] <= v[k] + e
    ensures Dot(w, u, n) <= Dot(w, v, n) + e * Sum(w, n)
  {
    if n > 0 {
      DotDiffers(w, u, v, e, n - 1);
      ScaleMonotone(u[n - 1], v[n - 1] + e, w[n - 1]);
      assert (v[n - 1] + e) * w[n - 1] == v[n - 1] * w[n - 1] + e * w[n - 1];
      assert e * Sum(w, n) == e * Sum(w, n - 1) + e * w[n - 1];
    }
  }

  lemma {:induction false} DotOfConstant(w: seq<real>, v: seq<real>, c: real, n: nat)
    requires n <= |w| && n <= |v|
    requires forall k :: 0 <= k < n ==> v[k] == c
    ensures Dot(w, v, n) == c * Sum(w, n)
  {
    if n > 0 {
      DotOfConstant(w, v, c, n - 1);
      assert c * Sum(w, n) == c * Sum(w, n - 1) + c * w[n - 1];
    }
  }

  lemma {:induction false} DotMonotone(w: seq<real>, u: seq<real>, v: seq<real>, n: nat)
    requires n <= |w| && n <= |u| && n <= |v| && NonNegative(w)
    requires forall k :: 0 <= k < n ==> u[k] <= v[k]
    ensures Dot(w, u, n) <= Dot(w, v, n)
  {
    DotDiffers(w, u, v, 0.0, n);
  }

  lemma {:induction false} DotBetween(w: seq<real>, v: seq<real>, lo: real, hi: real, n: nat)
    requires n <= |w| && n <= |v| && NonNegative(w)
    requires forall k :: 0 <= k < n ==> lo <= v[k] <= hi
    ensures lo * Sum(w, n) <= Dot(w, v, n) <= hi * Sum(w, n)
  {
    var los, his := seq(n, _ => lo), seq(n, _ => hi);
    DotOfConstant(w, los, lo, n);
    DotOfConstant(w, his, hi, n);
    DotMonotone(w, los, v, n);
    DotMonotone(w, v, his, n);
  }

  // ---------- rounding ----------

  /** Adding a half and truncating, for a sum that is not negative. */
  function Rounded(x: real): int
  {
    (x + 0.5).Floor
  }

  lemma RoundedClose(x: real)
    ensures x - 0.5 < Rounded(x) as real <= x + 0.5
  {
  }

  lemma RoundedMonotone(x: real, y: real)
    requires x <= y
    ensures Rounded(x) <= Rounded(y)
  {
  }

  lemma RoundedInteger(x: real, c: int)
    requires x == c as real
    ensures Rounded(x) == c
  {
  }

  /** The weights may overshoot one by less than 1/510. */
  ghost predicate KernelFits(w: seq<real>)
  {
    NonNegative(w) && Sum(w, |w|) < 511.0 / 510.0
  }

  ghost predicate ByteSamples(v: seq<real>)
  {
    forall k :: 0 <= k < |v| ==> 0.0 <= v[k] <= 255.0
  }

  /** A rounded sum is a byte for all byte samples exactly when the weights fit. */
  lemma {:induction false} RangeExact(w: seq<real>)
    requires NonNegative(w)
    ensures KernelFits(w) <==>
            forall v :: |v| == |w| && ByteSamples(v) ==> 0 <= Rounded(Dot(w, v, |w|)) <= 255
  {
    if KernelFits(w) {
      forall v | |v| == |w| && ByteSamples(v) ensures 0 <= Rounded(Dot(w, v, |w|)) <= 255 {
        DotBetween(w, v, 0.0, 255.0, |w|);
      }
    } else {
      var v := seq(|w|, _ => 255.0);
      DotOfConstant(w, v, 255.0, |w|);
      assert ByteSamples(v) && Rounded(Dot(w, v, |w|)) > 255;
    }
  }

  type Kernel = w: seq<real> | KernelFits(w) witness [1.0]

  function Convolved(w: Kernel, v: seq<real>): Byte
    requires |v| == |w| && ByteSamples(v)
  {
    DotBetween(w, v, 0.0, 255.0, |w|);
    Rounded(Dot(w, v, |w|))
  }

  // ---------- one pass along a line ----------

  type Strip = int -> Pixel
  type Picture = (int, int) -> Pixel

  /** The position that entry k of a kernel of n entries reads when centred on p. */
  function Tap(size: nat, n: nat, p: int, k: int): int
  {
    Clamp(p + k - n / 2, 0, size - 1)
  }

  function Sample(g: Strip, size: nat, n: nat, p: int, ch: Channel, k: int): (s: real)
    ensures 0.0 <= s <= 255.0
  {
    Get(g(Tap(size, n, p, k)), ch) as real
  }

  /** The samples under a kernel of n entries centred on position p of a line. */
  function Window(g: Strip, size: nat, n: nat, p: int, ch: Channel): (v: seq<real>)
    ensures |v| == n && ByteSamples(v)
    ensures forall k :: 0 <= k < n ==> v[k] == Sample(g, size, n, p, ch, k)
  {
    seq(n, k => Sample(g, size, n, p, ch, k))
  }

  function Along(g: Strip, size: nat, w: Kernel, p: int): Pixel
  {
    Pixel(Convolved(w, Window(g, size, |w|, p, R)), Convolved(w, Window(g, size, |w|, p, G)),
          Convolved(w, Window(g, size, |w|, p, B)), Convolved(w, Window(g, size, |w|, p, A)))
  }

  lemma {:induction false} AlongChannel(g: Strip, size: nat, w: Kernel, p: int, ch: Channel)
    ensures Get(Along(g, size, w, p), ch) == Rounded(Dot(w, Window(g, size, |w|, p, ch), |w|))
  {
  }

  // ---------- two passes over a picture ----------

  function Row(f: Picture, y: int): Strip { x => f(x, y) }

  function Column(f: Picture, x: int): Strip { y => f(x, y) }

  /** The source in coordinates that start at its own corner. */
  function View(img: Image): Picture { (x, y) => img.at(img.minX + x, img.minY + y) }

  function HorizontalPass(f: Picture, width: nat, w: Kernel): Picture
  {
    (x, y) => Along(Row(f, y), width, w, x)
  }

  function VerticalPass(f: Picture, height: nat, w: Kernel): Picture
  {
    (x, y) => Along(Column(f, x), height, w, y)
  }

  function Blurred(f: Picture, width: nat, height: nat, w: Kernel): Picture
  {
    VerticalPass(HorizontalPass(f, width, w), height, w)
  }

  // ---------- what the passes compute, coordinate by coordinate ----------

  /** The position inside 0..size-1 that is nearest to q. */
  function Nearest(q: int, size: nat): int
  {
    if q < 0 then 0 else if q >= size then size - 1 else q
  }

  /** The colour u columns and v rows from the image's corner. */
  function Color(img: Image, u: int, v: int, ch: Channel): real
  {
    Get(img.at(img.minX + u, img.minY + v), ch) as real
  }

  /** What n entries of a kernel around column x see of row y: entry i sees column x + i - radius,
      or the nearest one inside the image. */
  function RowSamples(img: Image, n: nat, x: int, y: int, ch: Channel): (v: seq<real>)
    ensures |v| == n && forall i :: 0 <= i < n ==> v[i] == Color(img, Nearest(x + i - n / 2, img.width), y, ch)
  {
    seq(n, i => Color(img, Nearest(x + i - n / 2, img.width), y, ch))
  }

  function RowSum(img: Image, w: seq<real>, x: int, y: int, ch: Channel): real
  {
    Dot(w, RowSamples(img, |w|, x, y, ch), |w|)
  }

  /** The rounded rows that the second pass sees around row y. */
  function RoundedRows(img: Image, w: seq<real>, x: int, y: int, ch: Channel): (v: seq<real>)
    ensures |v| == |w|
    ensures forall j :: 0 <= j < |w| ==>
              v[j] == Rounded(RowSum(img, w, x, Nearest(y + j - |w| / 2, img.height), ch)) as real
  {
    seq(|w|, j => Rounded(RowSum(img, w, x, Nearest(y + j - |w| / 2, img.height), ch)) as real)
  }

  function TwoPasses(img: Image, w: seq<real>, x: int, y: int, ch: Channel): real
  {
    Dot(w, RoundedRows(img, w, x, y, ch), |w|)
  }

  function ColumnSamples(f: Picture, height: nat, n: nat, x: int, y: int, ch: Channel): (v: seq<real>)
    ensures |v| == n && forall j :: 0 <= j < n ==> v[j] == Get(f(x, Nearest(y + j - n / 2, height)), ch) as real
  {
    seq(n, j => Get(f(x, Nearest(y + j - n / 2, height)), ch) as real)
  }

  /** Rounding goes to the nearest integer, halves upwards. */
  lemma RoundedIs(x: real, c: int)
    ensures c == Rounded(x) <==> c as real <= x + 0.5 < c as real + 1.0
  {
  }

  /** A tap inside the line reads there, one before it the first position, one behind it the last. */
  lemma TapIsNearest(size: nat, n: nat, p: int, k: int)
    ensures Tap(size, n, p, k) == Nearest(p + k - n / 2, size)
  {
  }

  lemma WindowAt(g: Strip, size: nat, n: nat, p: int, ch: Channel, k: nat)
    requires k < n
    ensures Window(g, size, n, p, ch)[k] == Get(g(Nearest(p + k - n / 2, size)), ch) as real
  {
    TapIsNearest(size, n, p, k);
  }

  lemma {:induction false} RowPass(img: Image, w: Kernel, x: int, y: int, ch: Channel)
    ensures Get(Along(Row(View(img), y), img.width, w, x), ch) == Rounded(RowSum(img, w, x, y, ch))
  {
    var line := Row(View(img), y);
    var v, u := Window(line, img.width, |w|, x, ch), RowSamples(img, |w|, x, y, ch);
    forall k | 0 <= k < |w| ensures v[k] == u[k] {
      WindowAt(line, img.width, |w|, x, ch, k);
    }
    assert v == u;
    AlongChannel(line, img.width, w, x, ch);
  }

  lemma {:induction false} ColumnPass(f: Picture, height: nat, w: Kernel, x: int, y: int, ch: Channel)
    ensures Get(Along(Column(f, x), height, w, y), ch) == Rounded(Dot(w, ColumnSamples(f, height, |w|, x, y, ch), |w|))
  {
    var line := Column(f, x);
    var v, u := Window(line, height, |w|, y, ch), ColumnSamples(f, height, |w|, x, y, ch);
    forall k | 0 <= k < |w| ensures v[k] == u[k] {
      WindowAt(line, height, |w|, y, ch, k);
    }
    assert v == u;
    AlongChannel(line, height, w, y, ch);
  }

  /** Every channel of the blurred picture, in terms of the image's own coordinates. */
  lemma {:induction false} BlurFormula(img: Image, w: Kernel, x: int, y: int, ch: Channel)
    ensures Get(Blurred(View(img), img.width, img.height, w)(x, y), ch) == Rounded(TwoPasses(img, w, x, y, ch))
  {
    var first := HorizontalPass(View(img), img.width, w);
    var v, u := ColumnSamples(first, img.height, |w|, x, y, ch), RoundedRows(img, w, x, y, ch);
    forall j | 0 <= j < |w| ensures v[j] == u[j] {
      FirstPass(img, w, x, Nearest(y + j - |w| / 2, img.height), ch);
    }
    assert v == u;
    ColumnPass(first, img.height, w, x, y, ch);
    SecondPass(first, img.height, w, x, y);
  }

  lemma {:induction false} FirstPass(img: Image, w: Kernel, x: int, q: int, ch: Channel)
    ensures Get(HorizontalPass(View(img), img.width, w)(x, q), ch) == Rounded(RowSum(img, w, x, q, ch))
  {
    RowPass(img, w, x, q, ch);
  }

  lemma {:induction false} SecondPass(f: Picture, height: nat, w: Kernel, x: int, y: int)
    ensures VerticalPass(f, height, w)(x, y) == Along(Column(f, x), height, w, y)
  {
  }

  // ---------- the loops ----------

  /** The running sums of one pixel after k of the kernel's entries. */
  ghost predicate Partial(w: seq<real>, vs: Samples, k: nat, r: real, g: real, b: real, a: real)
    requires k <= |w| && vs.Sized(|w|)
  {
    r == Dot(w, vs.r, k) && g == Dot(w, vs.g, k) && b == Dot(w, vs.b, k) && a == Dot(w, vs.a, k)
  }

  /** The samples under the kernel, channel by channel. */
  datatype Samples = Samples(r: seq<real>, g: seq<real>, b: seq<real>, a: seq<real>)
  {
    ghost predicate Sized(n: nat) { |r| == |g| == |b| == |a| == n }

    ghost predicate Shows(k: nat, p: Pixel)
      requires k < |r| && Sized(|r|)
    {
      r[k] == p.r as real && g[k] == p.g as real && b[k] == p.b as real && a[k] == p.a as real
    }
  }

  function Under(g: Strip, size: nat, n: nat, p: int): (vs: Samples)
    ensures vs.Sized(n)
  {
    Samples(Window(g, size, n, p, R), Window(g, size, n, p, G), Window(g, size, n, p, B), Window(g, size, n, p, A))
  }

  lemma UnderShows(g: Strip, size: nat, n: nat, p: int, k: nat)
    requires k < n
    ensures Under(g, size, n, p).Shows(k, g(Tap(size, n, p, k)))
  {
  }

  lemma {:induction false} AddSample(w: seq<real>, vs: Samples, k: nat, r: real, g: real, b: real, a: real, p: Pixel)
    requires k < |w| && vs.Sized(|w|) && Partial(w, vs, k, r, g, b, a) && vs.Shows(k, p)
    ensures Partial(w, vs, k + 1, r + p.r as real * w[k], g + p.g as real * w[k],
                    b + p.b as real * w[k], a + p.a as real * w[k])
  {
  }

  lemma {:induction false} SumsDone(line: Strip, size: nat, w: Kernel, p: int, r: real, g: real, b: real, a: real)
    requires Partial(w, Under(line, size, |w|, p), |w|, r, g, b, a)
    ensures 0 <= Rounded(r) <= 255 && 0 <= Rounded(g) <= 255 && 0 <= Rounded(b) <= 255 && 0 <= Rounded(a) <= 255
    ensures Pixel(Rounded(r), Rounded(g), Rounded(b), Rounded(a)) == Along(line, size, w, p)
  {
    RangeExact(w);
  }

  /** p shows the weighted row around (x, y). */
  ghost predicate ShowsRow(p: Pixel, img: Image, w: seq<real>, x: int, y: int)
  {
    forall ch :: Get(p, ch) == Rounded(RowSum(img, w, x, y, ch))
  }

  lemma {:induction false} RowShown(img: Image, w: Kernel, x: int, y: int)
    ensures ShowsRow(Along(Row(View(img), y), img.width, w, x), img, w, x, y)
  {
    forall ch ensures Get(Along(Row(View(img), y), img.width, w, x), ch) == Rounded(RowSum(img, w, x, y, ch)) {
      RowPass(img, w, x, y, ch);
    }
  }

  /** p shows the weighted column around (x, y) of a picture. */
  ghost predicate ShowsColumn(p: Pixel, f: Picture, height: nat, w: seq<real>, x: int, y: int)
  {
    forall ch :: Get(p, ch) == Rounded(Dot(w, ColumnSamples(f, height, |w|, x, y, ch), |w|))
  }

  lemma {:induction false} ColumnShown(f: Picture, height: nat, w: Kernel, x: int, y: int)
    ensures ShowsColumn(Along(Column(f, x), height, w, y), f, height, w, x, y)
  {
    forall ch ensures Get(Along(Column(f, x), height, w, y), ch) ==
                      Rounded(Dot(w, ColumnSamples(f, height, |w|, x, y, ch), |w|)) {
      ColumnPass(f, height, w, x, y, ch);
    }
  }

  method ConvolveX(img: Image, w: Kernel, x: int, y: int) returns (p: Pixel)
    ensures p == Along(Row(View(img), y), img.width, w, x)
    ensures ShowsRow(p, img, w, x, y)
  {
    var r, g, b, a := 0.0, 0.0, 0.0, 0.0;
    var radius := |w| / 2;
    ghost var line := Row(View(img), y);
    ghost var vs := Under(line, img.width, |w|, x);
    for k := 0 to |w|
      invariant Partial(w, vs, k, r, g, b, a)
    {
      var kx := Clamp(x + k - radius, 0, img.width - 1);
      var c := img.at(img.minX + kx, img.minY + y);
      UnderShows(line, img.width, |w|, x, k);
      AddSample(w, vs, k, r, g, b, a, c);
      r := r + c.r as real * w[k];
      g := g + c.g as real * w[k];
      b := b + c.b as real * w[k];
      a := a + c.a as real * w[k];
    }
    SumsDone(line, img.width, w, x, r, g, b, a);
    RowShown(img, w, x, y);
    return Pixel(Rounded(r), Rounded(g), Rounded(b), Rounded(a));
  }

  ghost predicate Holds(src: array2<Pixel>, f: Picture)
    reads src
  {
    forall i, j :: 0 <= i < src.Length0 && 0 <= j < src.Length1 ==> src[i, j] == f(i, j)
  }

  method ConvolveY(src: array2<Pixel>, ghost f: Picture, w: Kernel, x: int, y: int) returns (p: Pixel)
    requires Holds(src, f)
    requires 0 <= x < src.Length0 && 0 <= y < src.Length1
    ensures p == Along(Column(f, x), src.Length1, w, y)
    ensures ShowsColumn(p, f, src.Length1, w, x, y)
  {
    var r, g, b, a := 0.0, 0.0, 0.0, 0.0;
    var radius := |w| / 2;
    ghost var line := Column(f, x);
    ghost var vs := Under(line, src.Length1, |w|, y);
    for k := 0 to |w|
      invariant Partial(w, vs, k, r, g, b, a)
    {
      var ky := Clamp(y + k - radius, 0, src.Length1 - 1);
      var c := src[x, ky];
      UnderShows(line, src.Length1, |w|, y, k);
      AddSample(w, vs, k, r, g, b, a, c);
      r := r + c.r as real * w[k];
      g := g + c.g as real * w[k];
      b := b + c.b as real * w[k];
      a := a + c.a as real * w[k];
    }
    SumsDone(line, src.Length1, w, y, r, g, b, a);
    ColumnShown(f, src.Length1, w, x, y);
    return Pixel(Rounded(r), Rounded(g), Rounded(b), Rounded(a));
  }

  ghost predicate IsHorizontal(f: Picture, img: Image, w: Kernel)
  {
    forall x, y :: f(x, y) == Along(Row(View(img), y), img.width, w, x)
  }

  /** The first pair of loops of blur2D. */
  method BlurRows(img: Image, w: Kernel, ghost f: Picture) returns (out: array2<Pixel>)
    requires IsHorizontal(f, img, w)
    ensures fresh(out) && out.Length0 == img.width && out.Length1 == img.height
    ensures Holds(out, f)
  {
    out := new Pixel[img.width, img.height];
    for y := 0 to img.height
      invariant forall i, j :: 0 <= i < img.width && 0 <= j < y ==> out[i, j] == f(i, j)
    {
      BlurRowsAt(img, w, f, out, y);
    }
  }

  method PixelOfRow(img: Image, w: Kernel, ghost f: Picture, x: int, y: int) returns (p: Pixel)
    requires IsHorizontal(f, img, w)
    ensures p == f(x, y)
  {
    p := ConvolveX(img, w, x, y);
  }

  /** One round of the outer loop: row y of the first pass. */
  method BlurRowsAt(img: Image, w: Kernel, ghost f: Picture, out: array2<Pixel>, y: nat)
    requires IsHorizontal(f, img, w)
    requires out.Length0 == img.width && out.Length1 == img.height && y < img.height
    modifies out
    ensures forall i :: 0 <= i < img.width ==> out[i, y] == f(i, y)
    ensures forall i, j :: 0 <= i < img.width && 0 <= j < img.height && j != y ==> out[i, j] == old(out[i, j])
  {
    for x := 0 to img.width
      invariant forall i :: 0 <= i < x ==> out[i, y] == f(i, y)
      invariant forall i, j :: 0 <= i < img.width && 0 <= j < img.height && j != y ==> out[i, j] == old(out[i, j])
    {
      var p := PixelOfRow(img, w, f, x, y);
      out[x, y] := p;
    }
  }

  ghost predicate IsVertical(g: Picture, f: Picture, height: nat, w: Kernel)
  {
    forall x, y :: g(x, y) == Along(Column(f, x), height, w, y)
  }

  /** The second pair of loops of blur2D. */
  method BlurColumns(src: array2<Pixel>, w: Kernel, ghost f: Picture, ghost g: Picture) returns (out: array2<Pixel>)
    requires Holds(src, f) && IsVertical(g, f, src.Length1, w)
    ensures fresh(out) && out.Length0 == src.Length0 && out.Length1 == src.Length1
    ensures Holds(out, g)
  {
    out := new Pixel[src.Length0, src.Length1];
    for y := 0 to src.Length1
      invariant Holds(src, f)
      invariant forall i, j :: 0 <= i < src.Length0 && 0 <= j < y ==> out[i, j] == g(i, j)
    {
      BlurColumnsAt(src, w, f, g, out, y);
    }
  }

  method PixelOfColumn(src: array2<Pixel>, w: Kernel, ghost f: Picture, ghost g: Picture, x: int, y: int)
    returns (p: Pixel)
    requires Holds(src, f) && IsVertical(g, f, src.Length1, w)
    requires 0 <= x < src.Length0 && 0 <= y < src.Length1
    ensures p == g(x, y)
  {
    p := ConvolveY(src, f, w, x, y);
  }

  /** One round of the outer loop: row y of the result. */
  method BlurColumnsAt(src: array2<Pixel>, w: Kernel, ghost f: Picture, ghost g: Picture, out: array2<Pixel>, y: nat)
    requires Holds(src, f) && IsVertical(g, f, src.Length1, w) && src != out
    requires out.Length0 == src.Length0 && out.Length1 == src.Length1 && y < src.Length1
    modifies out
    ensures forall i :: 0 <= i < src.Length0 ==> out[i, y] == g(i, y)
    ensures forall i, j :: 0 <= i < src.Length0 && 0 <= j < src.Length1 && j != y ==> out[i, j] == old(out[i, j])
  {
    for x := 0 to src.Length0
      invariant Holds(src, f)
      invariant forall i :: 0 <= i < x ==> out[i, y] == g(i, y)
      invariant forall i, j :: 0 <= i < src.Length0 && 0 <= j < src.Length1 && j != y ==> out[i, j] == old(out[i, j])
    {
      var p := PixelOfColumn(src, w, f, g, x, y);
      out[x, y] := p;
    }
  }

  /** out shows the two passes over the image. */
  ghost predicate ShowsBlur(out: array2<Pixel>, img: Image, w: seq<real>)
    reads out
  {
    forall x, y, ch :: 0 <= x < out.Length0 && 0 <= y < out.Length1 ==>
      Get(out[x, y], ch) == Rounded(TwoPasses(img, w, x, y, ch))
  }

  method Blur2D(img: Image, w: Kernel) returns (out: array2<Pixel>)
    ensures fresh(out) && out.Length0 == img.width && out.Length1 == img.height
    ensures Holds(out, Blurred(View(img), img.width, img.height, w))
    ensures ShowsBlur(out, img, w)
  {
    ghost var first := HorizontalPass(View(img), img.width, w);
    var horizontal := BlurRows(img, w, first);
    out := BlurColumns(horizontal, w, first, VerticalPass(first, img.height, w));
    forall x, y, ch | 0 <= x < out.Length0 && 0 <= y < out.Length1
      ensures Get(out[x, y], ch) == Rounded(TwoPasses(img, w, x, y, ch))
    {
      BlurFormula(img, w, x, y, ch);
    }
  }
}
