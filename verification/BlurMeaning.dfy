/** The blur in plain coordinates: the double sum it stands for, its response to one bright pixel,
    and its symmetry. */
module BlurMeaning {
  import opened BlurPasses
  import opened BlurProperties

  // ---------- the double sum ----------

  /** The unrounded rows around row y. */
  function Rows(img: Image, w: seq<real>, x: int, y: int, ch: Channel): (v: seq<real>)
    ensures |v| == |w|
    ensures forall j :: 0 <= j < |w| ==> v[j] == RowSum(img, w, x, Nearest(y + j - |w| / 2, img.height), ch)
  {
    seq(|w|, j => RowSum(img, w, x, Nearest(y + j - |w| / 2, img.height), ch))
  }

  /** The two-dimensional convolution with the product kernel, without any rounding: each pixel
      under the kernel, or the nearest one inside the image, times the weights of its column and
      its row. */
  function Convolution(img: Image, w: seq<real>, x: int, y: int, ch: Channel): real
  {
    Dot(w, Rows(img, w, x, y, ch), |w|)
  }

  /** Every channel of the blurred image is within one level of the double sum. */
  lemma {:induction false} BlurIsConvolution(img: Image, w: Kernel, x: int, y: int, ch: Channel)
    requires Normalised(w)
    ensures var out := Get(Blurred(View(img), img.width, img.height, w)(x, y), ch) as real;
            Convolution(img, w, x, y, ch) - 1.0 <= out <= Convolution(img, w, x, y, ch) + 1.0
  {
    var h, e := RoundedRows(img, w, x, y, ch), Rows(img, w, x, y, ch);
    forall j | 0 <= j < |w| ensures e[j] - 0.5 <= h[j] <= e[j] + 0.5 {
      RoundedClose(e[j]);
    }
    DotClose(w, h, e);
    BlurFormula(img, w, x, y, ch);
    RoundedClose(TwoPasses(img, w, x, y, ch));
  }

  // ---------- away from the edges ----------

  /** The kernel centred on (x, y) lies inside the image. */
  ghost predicate Interior(img: Image, n: nat, x: int, y: int)
  {
    && 0 <= x - n / 2 && x - n / 2 + n <= img.width
    && 0 <= y - n / 2 && y - n / 2 + n <= img.height
  }

  /** The pixels of row y from column x - radius on. */
  function PlainRow(img: Image, n: nat, x: int, y: int, ch: Channel): (v: seq<real>)
    ensures |v| == n && forall i :: 0 <= i < n ==> v[i] == Color(img, x + i - n / 2, y, ch)
  {
    seq(n, i => Color(img, x + i - n / 2, y, ch))
  }

  function PlainRows(img: Image, w: seq<real>, x: int, y: int, ch: Channel): (v: seq<real>)
    ensures |v| == |w|
    ensures forall j :: 0 <= j < |w| ==> v[j] == Dot(w, PlainRow(img, |w|, x, y + j - |w| / 2, ch), |w|)
  {
    seq(|w|, j => Dot(w, PlainRow(img, |w|, x, y + j - |w| / 2, ch), |w|))
  }

  /** The double sum of pixel(x + i - radius, y + j - radius) * w[i] * w[j]. */
  function PlainConvolution(img: Image, w: seq<real>, x: int, y: int, ch: Channel): real
  {
    Dot(w, PlainRows(img, w, x, y, ch), |w|)
  }

  /** Away from the edges every channel is within one level of the plain double sum. */
  lemma {:induction false} InteriorBlur(img: Image, w: Kernel, x: int, y: int, ch: Channel)
    requires Normalised(w) && Interior(img, |w|, x, y)
    ensures var out := Get(Blurred(View(img), img.width, img.height, w)(x, y), ch) as real;
            PlainConvolution(img, w, x, y, ch) - 1.0 <= out <= PlainConvolution(img, w, x, y, ch) + 1.0
  {
    var u, v := Rows(img, w, x, y, ch), PlainRows(img, w, x, y, ch);
    forall j | 0 <= j < |w| ensures u[j] == v[j] {
      InteriorRow(img, |w|, x, y, ch, j);
    }
    assert u == v;
    BlurIsConvolution(img, w, x, y, ch);
  }

  lemma InteriorRow(img: Image, n: nat, x: int, y: int, ch: Channel, j: nat)
    requires Interior(img, n, x, y) && j < n
    ensures Nearest(y + j - n / 2, img.height) == y + j - n / 2
    ensures RowSamples(img, n, x, y + j - n / 2, ch) == PlainRow(img, n, x, y + j - n / 2, ch)
  {
    var v := y + j - n / 2;
    var a, b := RowSamples(img, n, x, v, ch), PlainRow(img, n, x, v, ch);
    forall i | 0 <= i < n ensures a[i] == b[i] {
      assert Nearest(x + i - n / 2, img.width) == x + i - n / 2;
    }
    assert a == b;
  }

  // ---------- one bright pixel ----------

  /** The channel is white at (px, py) and black elsewhere. */
  ghost predicate BrightAt(img: Image, px: int, py: int, ch: Channel)
  {
    forall u, v :: 0 <= u < img.width && 0 <= v < img.height ==>
      Color(img, u, v, ch) == if u == px && v == py then 255.0 else 0.0
  }

  function Weight(w: seq<real>, k: int): real
  {
    if 0 <= k < |w| then w[k] else 0.0
  }

  lemma {:induction false} DotSingle(w: seq<real>, v: seq<real>, k: int, c: real, n: nat)
    requires n <= |w| == |v|
    requires forall i :: 0 <= i < |v| ==> v[i] == if i == k then c else 0.0
    ensures Dot(w, v, n) == if 0 <= k < n then c * w[k] else 0.0
  {
    if n > 0 { DotSingle(w, v, k, c, n - 1); }
  }

  lemma {:induction false} DotOfSingle(w: seq<real>, v: seq<real>, k: int, c: real)
    requires |v| == |w| && forall i :: 0 <= i < |v| ==> v[i] == if i == k then c else 0.0
    ensures Dot(w, v, |w|) == c * Weight(w, k)
  {
    DotSingle(w, v, k, c, |w|);
  }

  lemma {:induction false} BrightRow(img: Image, w: seq<real>, x: int, y: int, px: int, py: int, ch: Channel, j: nat)
    requires Interior(img, |w|, x, y) && BrightAt(img, px, py, ch) && j < |w|
    ensures RowSum(img, w, x, y + j - |w| / 2, ch) ==
            if j == py - y + |w| / 2 then 255.0 * Weight(w, px - x + |w| / 2) else 0.0
  {
    var k := px - x + |w| / 2;
    var v := y + j - |w| / 2;
    var u := RowSamples(img, |w|, x, v, ch);
    InteriorRow(img, |w|, x, y, ch, j);
    forall i | 0 <= i < |w| ensures u[i] == if i == k then (if v == py then 255.0 else 0.0) else 0.0 {
      assert u[i] == Color(img, x + i - |w| / 2, v, ch);
    }
    DotOfSingle(w, u, k, if v == py then 255.0 else 0.0);
  }

  /** White weighted by column dx of the kernel, rounded. */
  function WhiteRow(w: seq<real>, dx: int): real { Rounded(255.0 * Weight(w, dx)) as real }

  /** And then weighted by row dy. */
  function Spread(w: seq<real>, dx: int, dy: int): real { WhiteRow(w, dx) * Weight(w, dy) }

  /** One bright pixel spreads by the product of two weights, each pass rounded. */
  lemma {:induction false} BrightPixel(img: Image, w: Kernel, x: int, y: int, px: int, py: int, ch: Channel)
    requires Interior(img, |w|, x, y) && BrightAt(img, px, py, ch)
    ensures Get(Blurred(View(img), img.width, img.height, w)(x, y), ch) ==
            Rounded(Spread(w, px - x + |w| / 2, py - y + |w| / 2))
  {
    BlurFormula(img, w, x, y, ch);
    BrightSum(img, w, x, y, px, py, ch);
  }

  lemma {:induction false} BrightSum(img: Image, w: Kernel, x: int, y: int, px: int, py: int, ch: Channel)
    requires Interior(img, |w|, x, y) && BrightAt(img, px, py, ch)
    ensures TwoPasses(img, w, x, y, ch) == Spread(w, px - x + |w| / 2, py - y + |w| / 2)
  {
    var dx, dy := px - x + |w| / 2, py - y + |w| / 2;
    var v := RoundedRows(img, w, x, y, ch);
    forall j | 0 <= j < |w| ensures v[j] == if j == dy then WhiteRow(w, dx) else 0.0 {
      BrightRounded(img, w, x, y, px, py, ch, j);
    }
    DotSpread(w, v, dx, dy);
  }

  lemma {:induction false} DotSpread(w: seq<real>, v: seq<real>, dx: int, dy: int)
    requires |v| == |w| && forall j :: 0 <= j < |v| ==> v[j] == if j == dy then WhiteRow(w, dx) else 0.0
    ensures Dot(w, v, |w|) == Spread(w, dx, dy)
  {
    DotOfSingle(w, v, dy, WhiteRow(w, dx));
  }

  lemma {:induction false} BrightRounded(img: Image, w: Kernel, x: int, y: int, px: int, py: int, ch: Channel, j: nat)
    requires Interior(img, |w|, x, y) && BrightAt(img, px, py, ch) && j < |w|
    ensures RoundedRows(img, w, x, y, ch)[j] ==
            if j == py - y + |w| / 2 then WhiteRow(w, px - x + |w| / 2) else 0.0
  {
    BrightRow(img, w, x, y, px, py, ch, j);
    InteriorRow(img, |w|, x, y, ch, j);
    RoundedInteger(0.0, 0);
  }

  // ---------- mirrors ----------

  /** h shows f with left and right exchanged. */
  ghost predicate LeftRight(f: Image, h: Image)
  {
    && f.width == h.width && f.height == h.height
    && forall u, v, ch :: 0 <= u < f.width && 0 <= v < f.height ==> Color(h, u, v, ch) == Color(f, f.width - 1 - u, v, ch)
  }

  /** h shows f with top and bottom exchanged. */
  ghost predicate UpsideDown(f: Image, h: Image)
  {
    && f.width == h.width && f.height == h.height
    && forall u, v, ch :: 0 <= u < f.width && 0 <= v < f.height ==> Color(h, u, v, ch) == Color(f, u, f.height - 1 - v, ch)
  }

  /** Mirroring exchanges the k-th sample from the one end with the k-th from the other. */
  lemma NearestMirrors(size: nat, n: nat, p: int, k: int)
    requires size > 0 && n % 2 == 1
    ensures 0 <= Nearest(p + k - n / 2, size) < size
    ensures Nearest(size - 1 - p + (n - 1 - k) - n / 2, size) == size - 1 - Nearest(p + k - n / 2, size)
  {
  }

  lemma {:induction false} RowMirrored(f: Image, h: Image, w: seq<real>, x: int, y: int, ch: Channel)
    requires Symmetric(w) && LeftRight(f, h) && f.width > 0 && 0 <= y < f.height
    ensures RowSum(h, w, x, y, ch) == RowSum(f, w, f.width - 1 - x, y, ch)
  {
    var n := |w|;
    var u, v := RowSamples(f, n, f.width - 1 - x, y, ch), RowSamples(h, n, x, y, ch);
    forall k | 0 <= k < n ensures v[k] == u[n - 1 - k] {
      NearestMirrors(f.width, n, x, k);
    }
    DotReversed(w, u, w, v, n);
  }

  /** Blurring commutes exactly with mirroring left and right, clamped edges included. */
  lemma {:induction false} MirrorHorizontally(f: Image, h: Image, w: Kernel, x: int, y: int)
    requires Symmetric(w) && LeftRight(f, h) && f.width > 0 && f.height > 0
    ensures Blurred(View(h), h.width, h.height, w)(x, y) == Blurred(View(f), f.width, f.height, w)(f.width - 1 - x, y)
  {
    forall ch ensures TwoPasses(h, w, x, y, ch) == TwoPasses(f, w, f.width - 1 - x, y, ch) {
      RowsMirrored(f, h, w, x, y, ch);
    }
    SameBlur(h, f, w, x, y, f.width - 1 - x, y);
  }

  lemma {:induction false} RowsMirrored(f: Image, h: Image, w: seq<real>, x: int, y: int, ch: Channel)
    requires Symmetric(w) && LeftRight(f, h) && f.width > 0 && f.height > 0
    ensures RoundedRows(h, w, x, y, ch) == RoundedRows(f, w, f.width - 1 - x, y, ch)
  {
    var u, v := RoundedRows(f, w, f.width - 1 - x, y, ch), RoundedRows(h, w, x, y, ch);
    forall j | 0 <= j < |w| ensures v[j] == u[j] {
      NearestMirrors(f.height, |w|, y, j);
      RowMirrored(f, h, w, x, Nearest(y + j - |w| / 2, f.height), ch);
    }
  }

  /** Blurring commutes exactly with mirroring top and bottom. */
  lemma {:induction false} MirrorVertically(f: Image, h: Image, w: Kernel, x: int, y: int)
    requires Symmetric(w) && UpsideDown(f, h) && f.width > 0 && f.height > 0
    ensures Blurred(View(h), h.width, h.height, w)(x, y) == Blurred(View(f), f.width, f.height, w)(x, f.height - 1 - y)
  {
    forall ch ensures TwoPasses(h, w, x, y, ch) == TwoPasses(f, w, x, f.height - 1 - y, ch) {
      ColumnMirrored(f, h, w, x, y, ch);
    }
    SameBlur(h, f, w, x, y, x, f.height - 1 - y);
  }

  lemma {:induction false} ColumnMirrored(f: Image, h: Image, w: seq<real>, x: int, y: int, ch: Channel)
    requires Symmetric(w) && UpsideDown(f, h) && f.width > 0 && f.height > 0
    ensures TwoPasses(h, w, x, y, ch) == TwoPasses(f, w, x, f.height - 1 - y, ch)
  {
    var n := |w|;
    var u, v := RoundedRows(f, w, x, f.height - 1 - y, ch), RoundedRows(h, w, x, y, ch);
    forall j | 0 <= j < n ensures v[j] == u[n - 1 - j] {
      NearestMirrors(f.height, n, y, j);
      SameRow(f, h, w, x, Nearest(y + j - n / 2, f.height), ch);
    }
    DotReversed(w, u, w, v, n);
  }

  lemma {:induction false} SameRow(f: Image, h: Image, w: seq<real>, x: int, q: int, ch: Channel)
    requires Symmetric(w) && UpsideDown(f, h) && f.width > 0 && 0 <= q < f.height
    ensures RowSum(h, w, x, q, ch) == RowSum(f, w, x, f.height - 1 - q, ch)
  {
    var u, v := RowSamples(f, |w|, x, f.height - 1 - q, ch), RowSamples(h, |w|, x, q, ch);
    forall k | 0 <= k < |w| ensures v[k] == u[k] {
      NearestMirrors(f.width, |w|, x, k);
    }
    assert u == v;
  }

  lemma {:induction false} SameBlur(h: Image, f: Image, w: Kernel, x: int, y: int, u: int, v: int)
    requires forall ch :: TwoPasses(h, w, x, y, ch) == TwoPasses(f, w, u, v, ch)
    ensures Blurred(View(h), h.width, h.height, w)(x, y) == Blurred(View(f), f.width, f.height, w)(u, v)
  {
    var p, q := Blurred(View(h), h.width, h.height, w)(x, y), Blurred(View(f), f.width, f.height, w)(u, v);
    forall ch ensures Get(p, ch) == Get(q, ch) {
      BlurFormula(h, w, x, y, ch);
      BlurFormula(f, w, u, v, ch);
    }
    SamePixel(p, q);
  }
}
