/** What the two-pass blur guarantees: closeness to the one-pass convolution, range,
    monotonicity, and independence of everything outside the picture; and the bell's kernel. */
module BlurProperties {
  import opened BlurPasses

  ghost predicate Normalised(w: seq<real>)
  {
    NonNegative(w) && Sum(w, |w|) == 1.0
  }

  ghost predicate Symmetric(w: seq<real>)
  {
    |w| % 2 == 1 && forall k :: 0 <= k < |w| ==> w[k] == w[|w| - 1 - k]
  }

  // ---------- exchanging the two sums ----------

  type Matrix = (int, int) -> real

  function RowOf(m: Matrix, i: int, n: nat): (r: seq<real>)
    ensures |r| == n && forall j :: 0 <= j < n ==> r[j] == m(i, j)
  {
    seq(n, j => m(i, j))
  }

  function ColumnOf(m: Matrix, j: int, n: nat): (r: seq<real>)
    ensures |r| == n && forall i :: 0 <= i < n ==> r[i] == m(i, j)
  {
    seq(n, i => m(i, j))
  }

  function RowDots(w: seq<real>, m: Matrix, b: nat): (r: seq<real>)
    requires b <= |w|
    ensures |r| == |w| && forall i :: 0 <= i < |w| ==> r[i] == Dot(w, RowOf(m, i, |w|), b)
  {
    seq(|w|, i requires b <= |w| => Dot(w, RowOf(m, i, |w|), b))
  }

  function ColumnDots(w: seq<real>, m: Matrix, a: nat): (r: seq<real>)
    requires a <= |w|
    ensures |r| == |w| && forall j :: 0 <= j < |w| ==> r[j] == Dot(w, ColumnOf(m, j, |w|), a)
  {
    seq(|w|, j requires a <= |w| => Dot(w, ColumnOf(m, j, |w|), a))
  }

  lemma {:induction false} DotLinear(w: seq<real>, t: seq<real>, u: seq<real>, v: seq<real>, c: real, n: nat)
    requires n <= |w| && n <= |t| && n <= |u| && n <= |v|
    requires forall j :: 0 <= j < n ==> t[j] == u[j] + v[j] * c
    ensures Dot(w, t, n) == Dot(w, u, n) + Dot(w, v, n) * c
  {
    if n > 0 {
      DotLinear(w, t, u, v, c, n - 1);
      var x, y, z := u[n - 1], v[n - 1], w[n - 1];
      assert (x + y * c) * z == x * z + (y * z) * c;
      assert (Dot(w, v, n - 1) + y * z) * c == Dot(w, v, n - 1) * c + (y * z) * c;
    }
  }

  /** Summing a weighted table by rows or by columns gives the same. */
  lemma {:induction false} Exchange(w: seq<real>, m: Matrix, a: nat, b: nat)
    requires a <= |w| && b <= |w|
    ensures Dot(w, RowDots(w, m, b), a) == Dot(w, ColumnDots(w, m, a), b)
    decreases a
  {
    if a == 0 {
      DotOfConstant(w, ColumnDots(w, m, 0), 0.0, b);
    } else {
      Exchange(w, m, a - 1, b);
      OneMoreRow(w, m, a, b);
    }
  }

  lemma {:induction false} DotStep(w: seq<real>, v: seq<real>, n: nat)
    requires 0 < n <= |w| && n <= |v|
    ensures Dot(w, v, n) == Dot(w, v, n - 1) + v[n - 1] * w[n - 1]
  {
  }

  lemma {:induction false} ColumnDotsStep(w: seq<real>, m: Matrix, a: nat)
    requires 0 < a <= |w|
    ensures forall j :: 0 <= j < |w| ==>
              ColumnDots(w, m, a)[j] == ColumnDots(w, m, a - 1)[j] + RowOf(m, a - 1, |w|)[j] * w[a - 1]
  {
    forall j | 0 <= j < |w|
      ensures ColumnDots(w, m, a)[j] == ColumnDots(w, m, a - 1)[j] + RowOf(m, a - 1, |w|)[j] * w[a - 1]
    {
      DotStep(w, ColumnOf(m, j, |w|), a);
    }
  }

  lemma {:induction false} OneMoreRow(w: seq<real>, m: Matrix, a: nat, b: nat)
    requires 0 < a <= |w| && b <= |w|
    ensures Dot(w, ColumnDots(w, m, a), b) == Dot(w, ColumnDots(w, m, a - 1), b) + RowDots(w, m, b)[a - 1] * w[a - 1]
  {
    var t, u, v := ColumnDots(w, m, a), ColumnDots(w, m, a - 1), RowOf(m, a - 1, |w|);
    ColumnDotsStep(w, m, a);
    DotLinear(w, t, u, v, w[a - 1], b);
  }

  // ---------- accuracy ----------

  /** The pixels under a kernel of n entries centred on (x, y), or the nearest ones inside. */
  function At(f: Picture, width: nat, height: nat, n: nat, x: int, y: int, ch: Channel): Matrix
  {
    (i, j) => Get(f(Nearest(x + i - n / 2, width), Nearest(y + j - n / 2, height)), ch) as real
  }

  /** The two-dimensional convolution with the product kernel, without any rounding. */
  function Exact(f: Picture, width: nat, height: nat, w: seq<real>, x: int, y: int, ch: Channel): real
  {
    Dot(w, RowDots(w, At(f, width, height, |w|, x, y, ch), |w|), |w|)
  }

  lemma {:induction false} FirstPassClose(f: Picture, width: nat, height: nat, w: Kernel, x: int, y: int, ch: Channel, j: nat)
    requires j < |w|
    ensures var h := Window(Column(HorizontalPass(f, width, w), x), height, |w|, y, ch)[j];
            var e := ColumnDots(w, At(f, width, height, |w|, x, y, ch), |w|)[j];
            e - 0.5 <= h <= e + 0.5
  {
    FirstSample(f, width, height, w, x, y, ch, j);
    RoundedClose(ColumnDots(w, At(f, width, height, |w|, x, y, ch), |w|)[j]);
  }

  lemma {:induction false} FirstSample(f: Picture, width: nat, height: nat, w: Kernel, x: int, y: int, ch: Channel, j: nat)
    requires j < |w|
    ensures Window(Column(HorizontalPass(f, width, w), x), height, |w|, y, ch)[j] ==
            Rounded(ColumnDots(w, At(f, width, height, |w|, x, y, ch), |w|)[j]) as real
  {
    WindowAt(Column(HorizontalPass(f, width, w), x), height, |w|, y, ch, j);
    AlongChannel(Row(f, Nearest(y + j - |w| / 2, height)), width, w, x, ch);
    ColumnUnder(f, width, height, |w|, x, y, ch, j);
  }

  lemma ColumnUnder(f: Picture, width: nat, height: nat, n: nat, x: int, y: int, ch: Channel, j: nat)
    requires j < n
    ensures Window(Row(f, Nearest(y + j - n / 2, height)), width, n, x, ch) ==
            ColumnOf(At(f, width, height, n, x, y, ch), j, n)
  {
    var line := Row(f, Nearest(y + j - n / 2, height));
    forall k | 0 <= k < n ensures Window(line, width, n, x, ch)[k] == ColumnOf(At(f, width, height, n, x, y, ch), j, n)[k] {
      WindowAt(line, width, n, x, ch, k);
    }
  }

  lemma {:induction false} DotClose(w: seq<real>, h: seq<real>, e: seq<real>)
    requires Normalised(w) && |h| == |e| == |w|
    requires forall j :: 0 <= j < |w| ==> e[j] - 0.5 <= h[j] <= e[j] + 0.5
    ensures Dot(w, e, |w|) - 0.5 <= Dot(w, h, |w|) <= Dot(w, e, |w|) + 0.5
  {
    DotDiffers(w, h, e, 0.5, |w|);
    DotDiffers(w, e, h, 0.5, |w|);
  }

  /** Rounding after each pass costs at most one level in every channel. */
  lemma {:induction false} BlurAccuracy(f: Picture, width: nat, height: nat, w: Kernel, x: int, y: int, ch: Channel)
    requires Normalised(w)
    ensures var out := Get(Blurred(f, width, height, w)(x, y), ch) as real;
            var exact := Exact(f, width, height, w, x, y, ch);
            exact - 1.0 <= out <= exact + 1.0
  {
    var m := At(f, width, height, |w|, x, y, ch);
    var line := Column(HorizontalPass(f, width, w), x);
    var h := Window(line, height, |w|, y, ch);
    var e := ColumnDots(w, m, |w|);
    forall j | 0 <= j < |w| ensures e[j] - 0.5 <= h[j] <= e[j] + 0.5 {
      FirstPassClose(f, width, height, w, x, y, ch, j);
    }
    DotClose(w, h, e);
    Exchange(w, m, |w|, |w|);
    AlongChannel(line, height, w, y, ch);
    RoundedClose(Dot(w, h, |w|));
  }

  // ---------- range ----------

  lemma WindowBetween(g: Strip, size: nat, n: nat, p: int, ch: Channel, lo: int, hi: int)
    requires forall k :: 0 <= k < n ==> lo <= Get(g(Tap(size, n, p, k)), ch) <= hi
    ensures forall k :: 0 <= k < n ==> lo as real <= Window(g, size, n, p, ch)[k] <= hi as real
  {
    forall k | 0 <= k < n ensures lo as real <= Sample(g, size, n, p, ch, k) <= hi as real {
    }
  }

  lemma {:induction false} DotOfNormalised(w: seq<real>, v: seq<real>, lo: real, hi: real)
    requires Normalised(w) && |v| == |w|
    requires forall k :: 0 <= k < |w| ==> lo <= v[k] <= hi
    ensures lo <= Dot(w, v, |w|) <= hi
  {
    DotBetween(w, v, lo, hi, |w|);
  }

  lemma {:induction false} AlongBetween(g: Strip, size: nat, w: Kernel, p: int, ch: Channel, lo: int, hi: int)
    requires Normalised(w)
    requires forall k :: 0 <= k < |w| ==> lo <= Get(g(Tap(size, |w|, p, k)), ch) <= hi
    ensures lo <= Get(Along(g, size, w, p), ch) <= hi
  {
    var v := Window(g, size, |w|, p, ch);
    WindowBetween(g, size, |w|, p, ch, lo, hi);
    DotOfNormalised(w, v, lo as real, hi as real);
    AlongChannel(g, size, w, p, ch);
    RoundedBetween(Dot(w, v, |w|), lo, hi);
  }

  lemma RoundedBetween(x: real, lo: int, hi: int)
    requires lo as real <= x <= hi as real
    ensures lo <= Rounded(x) <= hi
  {
    RoundedMonotone(lo as real, x);
    RoundedMonotone(x, hi as real);
    RoundedInteger(lo as real, lo);
    RoundedInteger(hi as real, hi);
  }

  /** Every output lies between the least and the greatest value of its clamped window; in
      particular a constant picture is a fixed point. */
  lemma {:induction false} BlurBetween(f: Picture, width: nat, height: nat, w: Kernel, x: int, y: int, ch: Channel, lo: int, hi: int)
    requires Normalised(w)
    requires forall i, j :: 0 <= i < |w| && 0 <= j < |w| ==>
               lo <= Get(f(Tap(width, |w|, x, i), Tap(height, |w|, y, j)), ch) <= hi
    ensures lo <= Get(Blurred(f, width, height, w)(x, y), ch) <= hi
  {
    var line := Column(HorizontalPass(f, width, w), x);
    forall j | 0 <= j < |w|
      ensures lo <= Get(line(Tap(height, |w|, y, j)), ch) <= hi
    {
      AlongBetween(Row(f, Tap(height, |w|, y, j)), width, w, x, ch, lo, hi);
    }
    AlongBetween(line, height, w, y, ch, lo, hi);
  }

  lemma {:induction false} ConstantIsFixed(f: Picture, width: nat, height: nat, w: Kernel, x: int, y: int, c: Pixel)
    requires Normalised(w) && forall i, j :: f(i, j) == c
    ensures Blurred(f, width, height, w)(x, y) == c
  {
    forall ch ensures Get(Blurred(f, width, height, w)(x, y), ch) == Get(c, ch) {
      BlurBetween(f, width, height, w, x, y, ch, Get(c, ch), Get(c, ch));
    }
    SamePixel(Blurred(f, width, height, w)(x, y), c);
  }

  lemma SamePixel(p: Pixel, q: Pixel)
    requires forall ch :: Get(p, ch) == Get(q, ch)
    ensures p == q
  {
    assert Get(p, R) == Get(q, R) && Get(p, G) == Get(q, G);
    assert Get(p, B) == Get(q, B) && Get(p, A) == Get(q, A);
  }

  // ---------- monotonicity ----------

  lemma TapInside(size: nat, n: nat, p: int, k: int)
    requires size > 0
    ensures 0 <= Tap(size, n, p, k) < size
  {
  }

  lemma WindowMonotone(g: Strip, h: Strip, size: nat, n: nat, p: int, ch: Channel)
    requires size > 0 && forall i :: 0 <= i < size ==> Get(g(i), ch) <= Get(h(i), ch)
    ensures forall k :: 0 <= k < n ==> Window(g, size, n, p, ch)[k] <= Window(h, size, n, p, ch)[k]
  {
    forall k | 0 <= k < n ensures Sample(g, size, n, p, ch, k) <= Sample(h, size, n, p, ch, k) {
      TapInside(size, n, p, k);
    }
  }

  lemma {:induction false} AlongMonotone(g: Strip, h: Strip, size: nat, w: Kernel, p: int, ch: Channel)
    requires size > 0 && forall i :: 0 <= i < size ==> Get(g(i), ch) <= Get(h(i), ch)
    ensures Get(Along(g, size, w, p), ch) <= Get(Along(h, size, w, p), ch)
  {
    var u, v := Window(g, size, |w|, p, ch), Window(h, size, |w|, p, ch);
    WindowMonotone(g, h, size, |w|, p, ch);
    DotMonotone(w, u, v, |w|);
    AlongChannel(g, size, w, p, ch);
    AlongChannel(h, size, w, p, ch);
    RoundedMonotone(Dot(w, u, |w|), Dot(w, v, |w|));
  }

  /** A picture that is nowhere darker blurs to one that is nowhere darker, and nothing outside
      the bounds matters. */
  lemma {:induction false} BlurMonotone(f: Picture, g: Picture, width: nat, height: nat, w: Kernel, x: int, y: int, ch: Channel)
    requires width > 0 && height > 0
    requires forall i, j :: 0 <= i < width && 0 <= j < height ==> Get(f(i, j), ch) <= Get(g(i, j), ch)
    ensures Get(Blurred(f, width, height, w)(x, y), ch) <= Get(Blurred(g, width, height, w)(x, y), ch)
  {
    var a, b := Column(HorizontalPass(f, width, w), x), Column(HorizontalPass(g, width, w), x);
    forall j | 0 <= j < height ensures Get(a(j), ch) <= Get(b(j), ch) {
      AlongMonotone(Row(f, j), Row(g, j), width, w, x, ch);
    }
    AlongMonotone(a, b, height, w, y, ch);
  }

  /** Where an image sits in its own coordinate system does not matter, nor what its colour
      function says outside its bounds. */
  lemma {:induction false} BoundsDoNotMatter(img: Image, other: Image, w: Kernel, x: int, y: int)
    requires img.width == other.width > 0 && img.height == other.height > 0
    requires forall i, j :: 0 <= i < img.width && 0 <= j < img.height ==>
               View(img)(i, j) == View(other)(i, j)
    ensures Blurred(View(img), img.width, img.height, w)(x, y) == Blurred(View(other), img.width, img.height, w)(x, y)
  {
    var f, g := View(img), View(other);
    forall ch ensures Get(Blurred(f, img.width, img.height, w)(x, y), ch) == Get(Blurred(g, img.width, img.height, w)(x, y), ch) {
      BlurMonotone(f, g, img.width, img.height, w, x, y, ch);
      BlurMonotone(g, f, img.width, img.height, w, x, y, ch);
    }
    SamePixel(Blurred(f, img.width, img.height, w)(x, y), Blurred(g, img.width, img.height, w)(x, y));
  }

  // ---------- symmetry ----------

  lemma {:induction false} DotFromFront(w: seq<real>, v: seq<real>, n: nat)
    requires 0 < n <= |w| && n <= |v|
    ensures Dot(w, v, n) == v[0] * w[0] + Dot(w[1..], v[1..], n - 1)
  {
    if n > 1 { DotFromFront(w, v, n - 1); }
  }

  lemma {:induction false} DotReversed(w: seq<real>, v: seq<real>, w': seq<real>, v': seq<real>, n: nat)
    requires |w| == |v| == |w'| == |v'| == n
    requires forall k :: 0 <= k < n ==> w'[k] == w[n - 1 - k] && v'[k] == v[n - 1 - k]
    ensures Dot(w', v', n) == Dot(w, v, n)
    decreases n
  {
    if n > 0 {
      DotFromFront(w, v, n);
      DotReversed(w[1..], v[1..], w'[..n - 1], v'[..n - 1], n - 1);
      DotOfPrefix(w', v', n - 1);
    }
  }

  lemma {:induction false} DotOfPrefix(w: seq<real>, v: seq<real>, n: nat)
    requires n <= |w| && n <= |v|
    ensures Dot(w[..n], v[..n], n) == Dot(w, v, n)
  {
    DotSame(w[..n], v[..n], w, v, n);
  }

  lemma {:induction false} DotSame(w: seq<real>, v: seq<real>, w': seq<real>, v': seq<real>, n: nat)
    requires n <= |w| && n <= |v| && n <= |w'| && n <= |v'|
    requires forall k :: 0 <= k < n ==> w'[k] == w[k] && v'[k] == v[k]
    ensures Dot(w, v, n) == Dot(w', v', n)
  {
    if n > 0 { DotSame(w, v, w', v', n - 1); }
  }

  // ---------- the kernel ----------

  /** The bell curve, of which only positivity and evenness matter. */
  ghost predicate Bell(weight: int -> real)
  {
    forall x :: weight(x) > 0.0 && weight(-x) == weight(x)
  }

  function Ceil(x: real): int { -(-x).Floor }

  /** The least integer that is at least x. */
  lemma CeilIs(x: real, c: int)
    ensures c == Ceil(x) <==> c as real - 1.0 < x <= c as real
  {
  }

  lemma {:induction false} SumScaled(u: seq<real>, w: seq<real>, c: real, n: nat)
    requires n <= |u| && n <= |w| && c != 0.0
    requires forall k :: 0 <= k < n ==> w[k] == u[k] / c
    ensures Sum(w, n) == Sum(u, n) / c
  {
    if n > 0 { SumScaled(u, w, c, n - 1); }
  }

  lemma {:induction false} SumPositive(u: seq<real>, n: nat)
    requires n <= |u| && forall k :: 0 <= k < n ==> u[k] > 0.0
    ensures n > 0 ==> Sum(u, n) > 0.0
    ensures Sum(u, n) >= 0.0
  {
    if n > 0 { SumPositive(u, n - 1); }
  }

  /** w holds the bell's values around the centre, divided by their sum. */
  ghost predicate BellShaped(w: seq<real>, weight: int -> real)
  {
    forall i, j :: 0 <= i < |w| && 0 <= j < |w| ==>
      w[i] > 0.0 && w[i] * weight(j - |w| / 2) == w[j] * weight(i - |w| / 2)
  }

  /** raw holds the bell's values around the centre. */
  ghost predicate RawBell(raw: seq<real>, weight: int -> real)
  {
    |raw| % 2 == 1 && forall j :: 0 <= j < |raw| ==> raw[j] == weight(j - |raw| / 2)
  }

  ghost predicate Divided(w: seq<real>, raw: seq<real>, sum: real)
    requires sum != 0.0
  {
    |w| == |raw| && forall j :: 0 <= j < |w| ==> w[j] == raw[j] / sum
  }

  lemma {:induction false} RawSum(raw: seq<real>, weight: int -> real)
    requires Bell(weight) && RawBell(raw, weight)
    ensures Sum(raw, |raw|) > 0.0
  {
    SumPositive(raw, |raw|);
  }

  lemma {:induction false} KernelOk(raw: seq<real>, w: seq<real>, sum: real, weight: int -> real)
    requires Bell(weight) && RawBell(raw, weight)
    requires sum == Sum(raw, |raw|) > 0.0 && Divided(w, raw, sum)
    ensures Normalised(w) && Symmetric(w) && BellShaped(w, weight)
  {
    SumOne(raw, w, sum);
    AllPositive(raw, w, sum, weight);
    KernelSymmetric(raw, w, sum, weight);
    KernelShape(raw, w, sum, weight);
  }

  lemma {:induction false} KernelShape(raw: seq<real>, w: seq<real>, sum: real, weight: int -> real)
    requires RawBell(raw, weight) && sum > 0.0 && Divided(w, raw, sum)
    requires forall j :: 0 <= j < |w| ==> w[j] > 0.0
    ensures BellShaped(w, weight)
  {
    forall i, j | 0 <= i < |w| && 0 <= j < |w|
      ensures w[i] * weight(j - |w| / 2) == w[j] * weight(i - |w| / 2)
    {
      CrossRatio(raw[i], raw[j], sum);
    }
  }

  lemma {:induction false} SumOne(raw: seq<real>, w: seq<real>, sum: real)
    requires sum == Sum(raw, |raw|) > 0.0 && Divided(w, raw, sum)
    ensures Sum(w, |w|) == 1.0
  {
    SumScaled(raw, w, sum, |w|);
    SelfQuotient(sum);
  }

  lemma SelfQuotient(c: real)
    requires c != 0.0
    ensures c / c == 1.0
  {
  }

  lemma {:induction false} AllPositive(raw: seq<real>, w: seq<real>, sum: real, weight: int -> real)
    requires Bell(weight) && RawBell(raw, weight) && sum > 0.0 && Divided(w, raw, sum)
    ensures forall j :: 0 <= j < |w| ==> w[j] > 0.0
  {
    forall j | 0 <= j < |w| ensures w[j] > 0.0 {
      Quotient(raw[j], sum);
    }
  }

  lemma Quotient(a: real, c: real)
    requires a > 0.0 && c > 0.0
    ensures a / c > 0.0
  {
  }

  lemma {:induction false} KernelSymmetric(raw: seq<real>, w: seq<real>, sum: real, weight: int -> real)
    requires Bell(weight) && RawBell(raw, weight) && sum != 0.0 && Divided(w, raw, sum)
    ensures Symmetric(w)
  {
    forall j | 0 <= j < |w| ensures w[j] == w[|w| - 1 - j] {
      assert |w| - 1 - j - |w| / 2 == -(j - |w| / 2);
      assert raw[|w| - 1 - j] == weight(-(j - |w| / 2));
    }
  }

  lemma CrossRatio(a: real, b: real, c: real)
    requires c != 0.0
    ensures (a / c) * b == (b / c) * a
  {
  }

  method GaussianKernel(sigma: real, weight: int -> real) returns (kernel: array<real>)
    requires sigma > 0.0 && Bell(weight)
    ensures fresh(kernel) && IsBellKernel(kernel[..], weight, 2 * (Ceil(sigma * 3.0) + 1) + 1)
    ensures var radius := kernel.Length / 2 - 1; radius as real - 1.0 < sigma * 3.0 <= radius as real
  {
    var radius := Ceil(sigma * 3.0) + 1;
    var size := 2 * radius + 1;
    kernel := new real[size];
    var sum := FillBell(kernel, weight);
    ghost var raw := kernel[..];
    RawSum(raw, weight);
    DivideAll(kernel, sum);
    KernelOk(raw, kernel[..], sum, weight);
  }

  /** The first loop of gaussianKernel. */
  method FillBell(kernel: array<real>, weight: int -> real) returns (sum: real)
    requires kernel.Length % 2 == 1
    modifies kernel
    ensures RawBell(kernel[..], weight) && sum == Sum(kernel[..], kernel.Length)
  {
    var radius := kernel.Length / 2;
    sum := 0.0;
    for i := 0 to kernel.Length
      invariant forall j :: 0 <= j < i ==> kernel[j] == weight(j - radius)
      invariant sum == Sum(kernel[..], i)
    {
      ghost var before := kernel[..];
      var x := weight(i - radius);
      kernel[i] := x;
      SumGrows(before, kernel[..], i, x);
      sum := sum + x;
    }
  }

  /** The second loop of gaussianKernel. */
  method DivideAll(kernel: array<real>, sum: real)
    requires sum != 0.0
    modifies kernel
    ensures Divided(kernel[..], old(kernel[..]), sum)
  {
    for i := 0 to kernel.Length
      invariant forall j :: 0 <= j < i ==> kernel[j] == old(kernel[j]) / sum
      invariant forall j :: i <= j < kernel.Length ==> kernel[j] == old(kernel[j])
    {
      kernel[i] := kernel[i] / sum;
    }
  }

  lemma {:induction false} SumGrows(before: seq<real>, after: seq<real>, i: nat, x: real)
    requires i < |before| && after == before[i := x]
    ensures Sum(after, i + 1) == Sum(before, i) + x
  {
    SumAgrees(before, after, i);
  }

  lemma {:induction false} SumAgrees(u: seq<real>, v: seq<real>, n: nat)
    requires n <= |u| && n <= |v| && forall k :: 0 <= k < n ==> u[k] == v[k]
    ensures Sum(u, n) == Sum(v, n)
  {
    if n > 0 { SumAgrees(u, v, n - 1); }
  }

  /** w is the kernel of a bell for a given number of weights. */
  ghost predicate IsBellKernel(w: seq<real>, weight: int -> real, size: int)
  {
    |w| == size && Normalised(w) && Symmetric(w) && BellShaped(w, weight)
  }

  lemma {:induction false} SumProportional(v: seq<real>, w: seq<real>, a: real, b: real, n: nat)
    requires n <= |v| && n <= |w| && forall k :: 0 <= k < n ==> v[k] * a == w[k] * b
    ensures Sum(v, n) * a == Sum(w, n) * b
  {
    if n > 0 { SumProportional(v, w, a, b, n - 1); }
  }

  lemma Proportional(x: real, x0: real, y: real, y0: real, b: real, b0: real)
    requires b0 > 0.0 && x * b0 == x0 * b && y * b0 == y0 * b
    ensures x * y0 == y * x0
  {
    assert (x * y0) * b0 == x0 * b * y0 == (y * x0) * b0;
  }

  /** Proportional weights that sum to one are determined: the bell leaves one kernel of each
      size. */
  lemma {:induction false} BellKernelUnique(v: seq<real>, w: seq<real>, weight: int -> real, size: int)
    requires Bell(weight) && IsBellKernel(v, weight, size) && IsBellKernel(w, weight, size)
    ensures v == w
  {
    if size > 0 {
      forall k | 0 <= k < size ensures v[k] * w[0] == w[k] * v[0] {
        SameRatio(v, w, weight, k);
      }
      assert w[0] > 0.0;
      ProportionalEqual(v, w);
    }
  }

  lemma {:induction false} ProportionalEqual(v: seq<real>, w: seq<real>)
    requires |v| == |w| > 0 && Normalised(v) && Normalised(w) && w[0] > 0.0
    requires forall k :: 0 <= k < |v| ==> v[k] * w[0] == w[k] * v[0]
    ensures v == w
  {
    SumProportional(v, w, w[0], v[0], |v|);
    assert 1.0 * w[0] == 1.0 * v[0];
    forall k | 0 <= k < |v| ensures v[k] == w[k] {
      CancelFactor(v[k], w[k], w[0], v[0]);
    }
  }

  lemma {:induction false} SameRatio(v: seq<real>, w: seq<real>, weight: int -> real, k: nat)
    requires Bell(weight) && BellShaped(v, weight) && BellShaped(w, weight) && k < |v| == |w|
    ensures v[k] * w[0] == w[k] * v[0]
  {
    var c := |v| / 2;
    assert v[k] * weight(0 - c) == v[0] * weight(k - c);
    assert w[k] * weight(0 - c) == w[0] * weight(k - c);
    Proportional(v[k], v[0], w[k], w[0], weight(k - c), weight(0 - c));
  }

  lemma CancelFactor(x: real, y: real, c: real, d: real)
    requires c == d > 0.0 && x * c == y * d
    ensures x == y
  {
  }

  /** The service: a copy when sigma is not positive, otherwise a blur with the bell's kernel
      reaching three sigma and one pixel to either side. */
  method Blur(img: Image, sigma: real, weight: int -> real) returns (out: array2<Pixel>)
    requires Bell(weight)
    ensures out.Length0 == img.width && out.Length1 == img.height
    ensures sigma <= 0.0 ==>
              forall x, y :: 0 <= x < img.width && 0 <= y < img.height ==> out[x, y] == img.at(img.minX + x, img.minY + y)
    ensures sigma > 0.0 ==>
              exists w: Kernel :: IsBellKernel(w, weight, 2 * (Ceil(sigma * 3.0) + 1) + 1) &&
                                  Holds(out, Blurred(View(img), img.width, img.height, w)) && ShowsBlur(out, img, w)
  {
    if sigma <= 0.0 {
      out := new Pixel[img.width, img.height];
      for y := 0 to img.height
        invariant forall i, j :: 0 <= i < img.width && 0 <= j < y ==> out[i, j] == View(img)(i, j)
      {
        for x := 0 to img.width
          invariant forall i, j :: 0 <= i < img.width && 0 <= j < y ==> out[i, j] == View(img)(i, j)
          invariant forall i :: 0 <= i < x ==> out[i, y] == View(img)(i, y)
        {
          out[x, y] := img.at(img.minX + x, img.minY + y);
        }
      }
      return;
    }
    var kernel := GaussianKernel(sigma, weight);
    var w: Kernel := kernel[..];
    out := Blur2D(img, w);
  }
}
