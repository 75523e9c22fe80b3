/** RGB to HSL and HSV and back, over exact reals.

    Before rounding the way there and back is the identity; after it, the identity on integer
    channels. Each hue sector is a lemma of its own. */
module Colors {
  import opened Rounding

  datatype Rgb = Rgb(r: real, g: real, b: real)

  /** Hue in degrees; saturation and lightness (or value) in percent. */
  datatype Cylinder = Cylinder(hue: real, sat: real, level: real)

  datatype Pixel = Pixel(r: int, g: int, b: int)

  function Abs(x: real): real { if x < 0.0 then -x else x }
  function Max(x: real, y: real): real { if x < y then y else x }
  function Min(x: real, y: real): real { if y < x then y else x }

  /** Python's `%` with a positive divisor. */
  function Mod(x: real, d: real): real
    requires d > 0.0
  {
    x - d * (x / d).Floor as real
  }

  predicate Unit(x: real) { 0.0 <= x <= 1.0 }

  predicate InRange(p: Rgb) { Unit(p.r) && Unit(p.g) && Unit(p.b) }

  function Cmax(p: Rgb): real { Max(p.r, Max(p.g, p.b)) }
  function Cmin(p: Rgb): real { Min(p.r, Min(p.g, p.b)) }

  // ---- The conversions, before rounding; channels are fractions of 255 ----

  function Hue(p: Rgb): real
    requires Cmax(p) > Cmin(p)
  {
    var delta := Cmax(p) - Cmin(p);
    var hue :=
      if Cmax(p) == p.r then 60.0 * Mod((p.g - p.b) / delta, 6.0)
      else if Cmax(p) == p.g then 60.0 * ((p.b - p.r) / delta + 2.0)
      else 60.0 * ((p.r - p.g) / delta + 4.0);
    if hue < 0.0 then hue + 360.0 else hue
  }

  function Spread(light: real): real { 1.0 - Abs(2.0 * light - 1.0) }

  lemma SpreadPositive(p: Rgb)
    requires InRange(p) && Cmax(p) > Cmin(p)
    ensures Cmax(p) - Cmin(p) <= Spread((Cmax(p) + Cmin(p)) / 2.0)
  {
  }

  function ToHsl(p: Rgb): Cylinder
    requires InRange(p)
  {
    var light := (Cmax(p) + Cmin(p)) / 2.0;
    if Cmax(p) == Cmin(p) then Cylinder(0.0, 0.0, light * 100.0)
    else
      SpreadPositive(p);
      Cylinder(Hue(p), (Cmax(p) - Cmin(p)) / Spread(light) * 100.0, light * 100.0)
  }

  function ToHsv(p: Rgb): Cylinder
    requires InRange(p)
  {
    if Cmax(p) == 0.0 then Cylinder(0.0, 0.0, 0.0)
    else if Cmax(p) == Cmin(p) then Cylinder(0.0, 0.0, Cmax(p) * 100.0)
    else Cylinder(Hue(p), (Cmax(p) - Cmin(p)) / Cmax(p) * 100.0, Cmax(p) * 100.0)
  }

  /** The six-sector table both ways back share. */
  function Sector(hh: real, c: real, x: real): Rgb {
    if hh < 1.0 then Rgb(c, x, 0.0)
    else if hh < 2.0 then Rgb(x, c, 0.0)
    else if hh < 3.0 then Rgb(0.0, c, x)
    else if hh < 4.0 then Rgb(0.0, x, c)
    else if hh < 5.0 then Rgb(x, 0.0, c)
    else Rgb(c, 0.0, x)
  }

  function Lift(p: Rgb, m: real): Rgb { Rgb(p.r + m, p.g + m, p.b + m) }

  function Assemble(hh: real, c: real, m: real): Rgb {
    Lift(Sector(hh, c, c * Height(hh)), m)
  }

  function Height(hh: real): real { 1.0 - Abs(Mod(hh, 2.0) - 1.0) }

  /** Position on the circle in sixths, chroma, and the level of the lowest channel. */
  datatype Parts = Parts(hh: real, c: real, m: real)

  function HslParts(k: Cylinder): Parts {
    var s, light := k.sat / 100.0, k.level / 100.0;
    var c := Spread(light) * s;
    Parts(k.hue / 60.0, c, light - c / 2.0)
  }

  function HsvParts(k: Cylinder): Parts {
    var s, v := k.sat / 100.0, k.level / 100.0;
    var c := v * s;
    Parts(k.hue / 60.0, c, v - c)
  }

  function Color(q: Parts): Rgb { Assemble(q.hh, q.c, q.m) }

  function FromHsl(k: Cylinder): Rgb { Color(HslParts(k)) }

  function FromHsv(k: Cylinder): Rgb { Color(HsvParts(k)) }

  // ---- With the rounding ----

  /** `round(x, 2)`. */
  function Round2(x: real): (r: real)
    ensures x - 0.005 <= r <= x + 0.005
  {
    Round(x * 100.0) as real / 100.0
  }

  function Rounded(k: Cylinder): Cylinder { Cylinder(Round2(k.hue), Round2(k.sat), Round2(k.level)) }

  function Clamp255(x: real): int {
    var n := Round(x);
    if n < 0 then 0 else if n > 255 then 255 else n
  }

  function ToPixel(p: Rgb): Pixel { Pixel(Clamp255(p.r * 255.0), Clamp255(p.g * 255.0), Clamp255(p.b * 255.0)) }

  function FromPixel(q: Pixel): Rgb { Rgb(q.r as real / 255.0, q.g as real / 255.0, q.b as real / 255.0) }

  predicate Channels(q: Pixel) { 0 <= q.r <= 255 && 0 <= q.g <= 255 && 0 <= q.b <= 255 }

  function RgbToHsl(q: Pixel): Cylinder
    requires Channels(q)
  {
    Rounded(ToHsl(FromPixel(q)))
  }

  function RgbToHsv(q: Pixel): Cylinder
    requires Channels(q)
  {
    Rounded(ToHsv(FromPixel(q)))
  }

  function HslToRgb(k: Cylinder): Pixel { ToPixel(FromHsl(k)) }

  function HsvToRgb(k: Cylinder): Pixel { ToPixel(FromHsv(k)) }

  // ---- The sector table as three clamped ramps of the hue ----

  function Clamp01(x: real): real { if x < 0.0 then 0.0 else if x > 1.0 then 1.0 else x }

  function Ramps(hh: real): Rgb {
    Rgb(Clamp01(Abs(hh - 3.0) - 1.0), Clamp01(2.0 - Abs(hh - 2.0)), Clamp01(2.0 - Abs(hh - 4.0)))
  }

  function Blend(c: real, w: real, m: real): real { c * w + m }

  function Mix(c: real, w: Rgb, m: real): Rgb { Rgb(Blend(c, w.r, m), Blend(c, w.g, m), Blend(c, w.b, m)) }

  /** The table, whose pieces meet, equals the ramps on the closed circle, 360 degrees included. */
  lemma SectorRamps(hh: real, c: real, m: real)
    requires 0.0 <= hh <= 6.0
    ensures Assemble(hh, c, m) == Mix(c, Ramps(hh), m)
  {
    UnitSector(hh);
    Scaled(hh, c, Height(hh), m);
  }

  lemma UnitSector(hh: real)
    requires 0.0 <= hh <= 6.0
    ensures Sector(hh, 1.0, Height(hh)) == Ramps(hh)
  {
    var k := (hh / 2.0).Floor;
    assert k == if hh < 2.0 then 0 else if hh < 4.0 then 1 else if hh < 6.0 then 2 else 3;
  }

  lemma Scaled(hh: real, c: real, y: real, m: real)
    ensures Lift(Sector(hh, c, c * y), m) == Mix(c, Sector(hh, 1.0, y), m)
  {
    var u := Sector(hh, 1.0, y);
    assert c * 1.0 == c && c * 0.0 == 0.0;
  }

  lemma Quotient(x: real, d: real)
    requires d > 0.0 && -d <= x <= d
    ensures -1.0 <= x / d <= 1.0 && d * (x / d) == x && (x < 0.0 <==> x / d < 0.0)
  {
  }

  function Positive(t: real): real { if t < 0.0 then 0.0 else t }

  lemma RedRamp(t: real)
    requires -1.0 <= t <= 1.0
    ensures var hh := Mod(t, 6.0);
            0.0 <= hh < 6.0 && Ramps(hh) == Rgb(1.0, Positive(t), Positive(-t))
  {
    assert (t / 6.0).Floor == if t < 0.0 then -1 else 0;
  }

  lemma GreenRamp(t: real)
    requires -1.0 <= t <= 1.0
    ensures Ramps(t + 2.0) == Rgb(Positive(-t), 1.0, Positive(t))
  {
  }

  lemma BlueRamp(t: real)
    requires -1.0 <= t <= 1.0
    ensures Ramps(t + 4.0) == Rgb(Positive(t), Positive(-t), 1.0)
  {
  }

  lemma Stretched(d: real, t: real, x: real)
    requires d > 0.0 && d * t == x
    ensures d * Positive(t) == Positive(x) && d * Positive(-t) == Positive(-x)
  {
    assert d * (-t) == -x;
    assert d * 0.0 == 0.0;
    assert t < 0.0 <==> x < 0.0;
  }

  lemma RedMix(p: Rgb, d: real, t: real)
    requires Cmax(p) == p.r && d == p.r - Cmin(p) > 0.0 && d * t == p.g - p.b
    ensures Mix(d, Rgb(1.0, Positive(t), Positive(-t)), Cmin(p)) == p
  {
    Stretched(d, t, p.g - p.b);
  }

  lemma GreenMix(p: Rgb, d: real, t: real)
    requires Cmax(p) == p.g && d == p.g - Cmin(p) > 0.0 && d * t == p.b - p.r
    ensures Mix(d, Rgb(Positive(-t), 1.0, Positive(t)), Cmin(p)) == p
  {
    Stretched(d, t, p.b - p.r);
  }

  lemma BlueMix(p: Rgb, d: real, t: real)
    requires Cmax(p) == p.b && d == p.b - Cmin(p) > 0.0 && d * t == p.r - p.g
    ensures Mix(d, Rgb(Positive(t), Positive(-t), 1.0), Cmin(p)) == p
  {
    Stretched(d, t, p.r - p.g);
  }

  /** The hue determines how far each channel stands above the lowest. */
  lemma HueRamps(p: Rgb, d: real)
    requires d == Cmax(p) - Cmin(p) > 0.0
    ensures 0.0 <= Hue(p) < 360.0
    ensures Mix(d, Ramps(Hue(p) / 60.0), Cmin(p)) == p
  {
    if Cmax(p) == p.r {
      RedHue(p, d, (p.g - p.b) / d);
    } else if Cmax(p) == p.g {
      GreenHue(p, d, (p.b - p.r) / d);
    } else {
      BlueHue(p, d, (p.r - p.g) / d);
    }
  }

  lemma RedHue(p: Rgb, d: real, t: real)
    requires d == Cmax(p) - Cmin(p) > 0.0 && Cmax(p) == p.r && t == (p.g - p.b) / d
    ensures 0.0 <= Hue(p) < 360.0
    ensures Mix(d, Ramps(Hue(p) / 60.0), Cmin(p)) == p
  {
    Quotient(p.g - p.b, d);
    RedRamp(t);
    assert Hue(p) / 60.0 == Mod(t, 6.0);
    RedMix(p, d, t);
  }

  lemma GreenHue(p: Rgb, d: real, t: real)
    requires d == Cmax(p) - Cmin(p) > 0.0 && Cmax(p) == p.g != p.r && t == (p.b - p.r) / d
    ensures 0.0 <= Hue(p) < 360.0
    ensures Mix(d, Ramps(Hue(p) / 60.0), Cmin(p)) == p
  {
    Quotient(p.b - p.r, d);
    GreenRamp(t);
    assert Hue(p) / 60.0 == t + 2.0;
    GreenMix(p, d, t);
  }

  lemma BlueHue(p: Rgb, d: real, t: real)
    requires d == Cmax(p) - Cmin(p) > 0.0 && Cmax(p) == p.b && Cmax(p) != p.r && Cmax(p) != p.g && t == (p.r - p.g) / d
    ensures 0.0 <= Hue(p) < 360.0
    ensures Mix(d, Ramps(Hue(p) / 60.0), Cmin(p)) == p
  {
    Quotient(p.r - p.g, d);
    BlueRamp(t);
    assert Hue(p) / 60.0 == t + 4.0;
    BlueMix(p, d, t);
  }

  // ---- Before rounding: the identity on all real channels ----

  predicate Sensible(k: Cylinder) { 0.0 <= k.hue <= 360.0 && 0.0 <= k.sat <= 100.0 && 0.0 <= k.level <= 100.0 }

  /** A part d of a whole a, as a percentage of it. */
  lemma Percentage(d: real, a: real)
    requires 0.0 < d <= a
    ensures 0.0 <= d / a * 100.0 <= 100.0 && a * (d / a * 100.0 / 100.0) == d
  {
    Quotient(d, a);
    var q := d / a;
    assert q * 100.0 / 100.0 == q;
  }

  lemma HslKeepsAt(k: Cylinder, hi: real, lo: real, d: real, light: real, a: real)
    requires 0.0 <= lo < hi <= 1.0 && d == hi - lo && light == (hi + lo) / 2.0 && a == Spread(light)
    requires k.sat == d / a * 100.0 && k.level == light * 100.0
    ensures 0.0 <= k.sat <= 100.0 && 0.0 <= k.level <= 100.0
    ensures HslParts(k).c == d && HslParts(k).m == lo
  {
    Percentage(d, a);
    assert k.level / 100.0 == light;
  }

  /** The way back starts from the chroma and the lowest channel. */
  lemma HslKeeps(p: Rgb, d: real)
    requires InRange(p) && d == Cmax(p) - Cmin(p)
    ensures var k := ToHsl(p);
            Sensible(k) && HslParts(k).c == d && HslParts(k).m == Cmin(p) && (d > 0.0 ==> k.hue == Hue(p))
  {
    var light := (Cmax(p) + Cmin(p)) / 2.0;
    if d > 0.0 {
      SpreadPositive(p);
      HueRamps(p, d);
      HslKeepsAt(ToHsl(p), Cmax(p), Cmin(p), d, light, Spread(light));
    } else {
      assert light * 100.0 / 100.0 == light;
    }
  }

  lemma Restored(p: Rgb, d: real, q: Parts)
    requires d == Cmax(p) - Cmin(p) && q.c == d && q.m == Cmin(p) && 0.0 <= q.hh <= 6.0
    requires d > 0.0 ==> q.hh == Hue(p) / 60.0
    ensures Color(q) == Mix(q.c, Ramps(q.hh), q.m) == p
  {
    SectorRamps(q.hh, q.c, q.m);
    if d > 0.0 { HueRamps(p, d); } else { Gray(Ramps(q.hh), q.m); }
  }

  lemma Gray(w: Rgb, m: real)
    ensures Mix(0.0, w, m) == Rgb(m, m, m)
  {
  }

  /** Level and saturation of HSL in terms of the highest and lowest channel: half their sum, and
      their difference as a share of the sum, or of what the sum leaves to 2. */
  lemma HslComponents(p: Rgb, hi: real, lo: real)
    requires InRange(p) && Extremes(p, hi, lo)
    ensures var k := ToHsl(p);
            && k.level == 50.0 * (hi + lo)
            && (hi == lo ==> k.sat == 0.0 && k.hue == 0.0)
            && (hi > lo ==> Percent(k.sat, hi - lo, Shorter(hi + lo)))
  {
    ExtremesAre(p, hi, lo);
    if hi > lo { HslShare(p, Cmax(p), Cmin(p)); }
  }

  lemma HslShare(p: Rgb, hi: real, lo: real)
    requires InRange(p) && hi == Cmax(p) && lo == Cmin(p) && hi > lo
    ensures Percent(ToHsl(p).sat, hi - lo, Shorter(hi + lo))
  {
    SpreadPositive(p);
    SpreadShorter(hi + lo);
    Share(hi - lo, Spread((hi + lo) / 2.0));
  }

  predicate Extremes(p: Rgb, hi: real, lo: real) {
    && hi >= p.r && hi >= p.g && hi >= p.b && (hi == p.r || hi == p.g || hi == p.b)
    && lo <= p.r && lo <= p.g && lo <= p.b && (lo == p.r || lo == p.g || lo == p.b)
  }

  lemma ExtremesAre(p: Rgb, hi: real, lo: real)
    requires Extremes(p, hi, lo)
    ensures hi == Cmax(p) && lo == Cmin(p)
  {
  }

  lemma SpreadShorter(sum: real)
    ensures Spread(sum / 2.0) == Shorter(sum)
  {
  }

  function Shorter(sum: real): real { if sum <= 1.0 then sum else 2.0 - sum }

  /** x percent of `whole` are `part`. */
  predicate Percent(x: real, part: real, whole: real) { x * whole == 100.0 * part }

  lemma Share(d: real, a: real)
    requires a > 0.0
    ensures Percent(d / a * 100.0, d, a)
  {
    var q := d / a;
    assert q * a == d;
    assert q * 100.0 * a == 100.0 * (q * a);
  }

  /** The same for HSV: the highest channel, and the difference as its share. */
  lemma HsvComponents(p: Rgb, hi: real, lo: real)
    requires InRange(p) && Extremes(p, hi, lo)
    ensures var k := ToHsv(p);
            && k.level == 100.0 * hi
            && (hi == lo ==> k.sat == 0.0 && k.hue == 0.0)
            && (hi > lo ==> Percent(k.sat, hi - lo, hi))
  {
    ExtremesAre(p, hi, lo);
    if hi > lo { Share(hi - lo, hi); }
  }

  lemma HslExact(p: Rgb)
    requires InRange(p)
    ensures FromHsl(ToHsl(p)) == p
  {
    var d := Cmax(p) - Cmin(p);
    HslKeeps(p, d);
    Restored(p, d, HslParts(ToHsl(p)));
  }

  /** The value scale: chroma is the saturation's share of the highest channel. */
  lemma HsvKeeps(p: Rgb, d: real)
    requires InRange(p) && d == Cmax(p) - Cmin(p)
    ensures var k := ToHsv(p);
            Sensible(k) && HsvParts(k).c == d && HsvParts(k).m == Cmin(p) && (d > 0.0 ==> k.hue == Hue(p))
  {
    if d > 0.0 {
      HueRamps(p, d);
      HsvKeepsAt(ToHsv(p), Cmax(p), Cmin(p), d);
    } else {
      Level(Cmax(p));
    }
  }

  lemma HsvKeepsAt(k: Cylinder, hi: real, lo: real, d: real)
    requires 0.0 <= lo < hi <= 1.0 && d == hi - lo
    requires k.sat == d / hi * 100.0 && k.level == hi * 100.0
    ensures 0.0 <= k.sat <= 100.0 && 0.0 <= k.level <= 100.0
    ensures HsvParts(k).c == d && HsvParts(k).m == lo
  {
    Percentage(d, hi);
    assert k.level / 100.0 == hi;
  }

  lemma Level(v: real)
    ensures v * 100.0 / 100.0 * (0.0 / 100.0) == 0.0 && v * 100.0 / 100.0 == v
  {
  }

  lemma HsvExact(p: Rgb)
    requires InRange(p)
    ensures FromHsv(ToHsv(p)) == p
  {
    var d := Cmax(p) - Cmin(p);
    HsvKeeps(p, d);
    Restored(p, d, HsvParts(ToHsv(p)));
  }

  // ---- After rounding: less than half a channel step away ----

  predicate Near(x: real, y: real, e: real) { y - e <= x <= y + e }

  predicate RgbNear(x: Rgb, y: Rgb, e: real) { Near(x.r, y.r, e) && Near(x.g, y.g, e) && Near(x.b, y.b, e) }

  lemma ProductNear(x: real, y: real, x': real, y': real, ex: real, ey: real)
    requires Near(x', x, ex) && Near(y', y, ey) && Unit(y) && Unit(x') && ex >= 0.0 && ey >= 0.0
    ensures Near(x' * y', x * y, ex + ey)
  {
    assert x' * y' - x * y == (x' - x) * y + x' * (y' - y);
    Shrunk(x' - x, y, ex);
    Shrunk(y' - y, x', ey);
  }

  lemma Shrunk(z: real, u: real, e: real)
    requires -e <= z <= e && Unit(u) && e >= 0.0
    ensures -e <= z * u <= e && -e <= u * z <= e
  {
    assert (e - z) * u >= 0.0 && (e + z) * u >= 0.0;
    assert e * u <= e by { assert e * (1.0 - u) >= 0.0; }
  }

  lemma RampsNear(hh: real, hh': real, e: real)
    requires Near(hh', hh, e)
    ensures var w, w' := Ramps(hh), Ramps(hh');
            InRange(w) && InRange(w') && RgbNear(w', w, e)
  {
  }

  lemma ChannelNear(c: real, w: real, m: real, c': real, w': real, m': real, eh: real, ec: real, em: real)
    requires Near(w', w, eh) && Near(c', c, ec) && Near(m', m, em)
    requires Unit(c') && Unit(w) && eh >= 0.0 && ec >= 0.0
    ensures Near(Blend(c', w', m'), Blend(c, w, m), eh + ec + em)
  {
    ProductNear(c, w, c', w', ec, eh);
  }

  lemma MixNear(c: real, w: Rgb, m: real, c': real, w': Rgb, m': real, eh: real, ec: real, em: real)
    requires InRange(w) && RgbNear(w', w, eh) && Near(c', c, ec) && Near(m', m, em)
    requires Unit(c') && eh >= 0.0 && ec >= 0.0
    ensures RgbNear(Mix(c', w', m'), Mix(c, w, m), eh + ec + em)
  {
    ChannelNear(c, w.r, m, c', w'.r, m', eh, ec, em);
    ChannelNear(c, w.g, m, c', w'.g, m', eh, ec, em);
    ChannelNear(c, w.b, m, c', w'.b, m', eh, ec, em);
  }

  lemma Round2Range(x: real, top: int)
    requires 0.0 <= x <= top as real
    ensures 0.0 <= Round2(x) <= top as real
  {
    Monotone(0.0, x * 100.0);
    Monotone(x * 100.0, top as real * 100.0);
    Nearest(0.0, 0);
    Nearest(top as real * 100.0, top * 100);
  }

  lemma RoundedSensible(k: Cylinder)
    requires Sensible(k)
    ensures Sensible(Rounded(k))
  {
    Round2Range(k.hue, 360);
    Round2Range(k.sat, 100);
    Round2Range(k.level, 100);
  }

  lemma ChromaNear(a: real, s: real, a': real, s': real, ea: real, es: real)
    requires Near(a', a, ea) && Near(s', s, es) && ea >= 0.0 && es >= 0.0
    requires Unit(a) && Unit(s) && Unit(a') && Unit(s')
    ensures Near(a' * s', a * s, ea + es) && Unit(a' * s')
  {
    ProductNear(a, s, a', s', ea, es);
    UnitProduct(a', s');
  }

  lemma HundredthsNear(x: real, y: real)
    requires Near(y, x, 0.005) && 0.0 <= x <= 100.0 && 0.0 <= y <= 100.0
    ensures Unit(x / 100.0) && Unit(y / 100.0) && Near(y / 100.0, x / 100.0, 0.00005)
    ensures Unit(Spread(x / 100.0)) && Unit(Spread(y / 100.0)) && Near(Spread(y / 100.0), Spread(x / 100.0), 0.0001)
  {
  }

  lemma UnitProduct(x: real, y: real)
    requires Unit(x) && Unit(y)
    ensures Unit(x * y)
  {
    Shrunk(x, y, 1.0);
    assert x * y >= 0.0;
  }

  lemma HslPartsNear(k: Cylinder)
    requires Sensible(k)
    ensures PartsNear(HslParts(k), HslParts(Rounded(k)))
  {
    RoundedSensible(k);
    var k' := Rounded(k);
    HundredthsNear(k.sat, k'.sat);
    HundredthsNear(k.level, k'.level);
    HslPartsNearAt(k, k', Spread(k.level / 100.0), k.sat / 100.0, Spread(k'.level / 100.0), k'.sat / 100.0);
  }

  lemma HslPartsNearAt(k: Cylinder, k': Cylinder, a: real, s: real, a': real, s': real)
    requires Near(a', a, 0.0001) && Near(s', s, 0.00005) && Unit(a) && Unit(s) && Unit(a') && Unit(s')
    requires a == Spread(k.level / 100.0) && a' == Spread(k'.level / 100.0)
    requires s == k.sat / 100.0 && s' == k'.sat / 100.0
    requires Near(k'.hue, k.hue, 0.005) && Near(k'.level, k.level, 0.005)
    ensures PartsNear(HslParts(k), HslParts(k'))
  {
    ChromaNear(a, s, a', s', 0.0001, 0.00005);
    assert HslParts(k).c == a * s && HslParts(k').c == a' * s';
  }

  lemma HsvPartsNear(k: Cylinder)
    requires Sensible(k)
    ensures PartsNear(HsvParts(k), HsvParts(Rounded(k)))
  {
    RoundedSensible(k);
    var k' := Rounded(k);
    HundredthsNear(k.sat, k'.sat);
    HundredthsNear(k.level, k'.level);
    HsvPartsNearAt(k, k', k.level / 100.0, k.sat / 100.0, k'.level / 100.0, k'.sat / 100.0);
  }

  lemma HsvPartsNearAt(k: Cylinder, k': Cylinder, v: real, s: real, v': real, s': real)
    requires Near(v', v, 0.00005) && Near(s', s, 0.00005) && Unit(v) && Unit(s) && Unit(v') && Unit(s')
    requires v == k.level / 100.0 && v' == k'.level / 100.0 && s == k.sat / 100.0 && s' == k'.sat / 100.0
    requires Near(k'.hue, k.hue, 0.005)
    ensures PartsNear(HsvParts(k), HsvParts(k'))
  {
    ChromaNear(v, s, v', s', 0.00005, 0.00005);
    assert HsvParts(k).c == v * s && HsvParts(k').c == v' * s';
  }

  predicate PartsNear(x: Parts, y: Parts) {
    Near(y.hh, x.hh, 0.0001) && Near(y.c, x.c, 0.00015) && Near(y.m, x.m, 0.00015) && Unit(y.c)
  }

  lemma SamePixel(q: Pixel, p: Rgb)
    requires Channels(q) && RgbNear(p, FromPixel(q), 0.001)
    ensures ToPixel(p) == q
  {
    Nearest(p.r * 255.0, q.r);
    Nearest(p.g * 255.0, q.g);
    Nearest(p.b * 255.0, q.b);
  }

  /** Two decimals are enough: every integer triple survives the way there and back. */
  lemma HslRecovers(q: Pixel)
    requires Channels(q)
    ensures HslToRgb(RgbToHsl(q)) == q
  {
    var p := FromPixel(q);
    var k, d := ToHsl(p), Cmax(p) - Cmin(p);
    HslKeeps(p, d);
    RoundedSensible(k);
    HslPartsNear(k);
    Recovered(q, d, HslParts(k), HslParts(Rounded(k)));
  }

  lemma HsvRecovers(q: Pixel)
    requires Channels(q)
    ensures HsvToRgb(RgbToHsv(q)) == q
  {
    var p := FromPixel(q);
    var k, d := ToHsv(p), Cmax(p) - Cmin(p);
    HsvKeeps(p, d);
    RoundedSensible(k);
    HsvPartsNear(k);
    Recovered(q, d, HsvParts(k), HsvParts(Rounded(k)));
  }

  lemma Recovered(q: Pixel, d: real, x: Parts, y: Parts)
    requires Channels(q)
    requires var p := FromPixel(q);
             && d == Cmax(p) - Cmin(p) && x.c == d && x.m == Cmin(p)
             && (d > 0.0 ==> x.hh == Hue(p) / 60.0)
    requires 0.0 <= x.hh <= 6.0 && 0.0 <= y.hh <= 6.0 && PartsNear(x, y)
    ensures ToPixel(Color(y)) == q
  {
    Restored(FromPixel(q), d, x);
    SectorRamps(y.hh, y.c, y.m);
    RampsNear(x.hh, y.hh, 0.0001);
    MixNear(x.c, Ramps(x.hh), x.m, y.c, Ramps(y.hh), y.m, 0.0001, 0.00015, 0.00015);
    SamePixel(q, Color(y));
  }
}
