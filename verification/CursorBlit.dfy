/** Alpha-blending an RGBA sprite onto a BGRA frame in place. */
module CursorBlit {
  import opened Bytes

  datatype Sprite = Sprite(width: nat, height: nat, data: Bytes)

  const I32: int := 0x8000_0000

  /** A 32-bit signed result, wrapped as in a release build. */
  function Wrap32(n: int): int { (n + I32) % (2 * I32) - I32 }

  datatype Rgba = Rgba(r: byte, g: byte, b: byte, a: byte)

  /** One colour channel over another with coverage `a` of 255. */
  function Mix(s: byte, d: byte, a: byte): byte {
    MixRange(s, d, a);
    ((s as int * a as int + d as int * (255 - a as int)) / 255) as byte
  }

  lemma MulNonneg(a: int, b: int)
    requires a >= 0 && b >= 0
    ensures a * b >= 0
  {
  }

  /** A weighted sum lies between its extremes. */
  lemma Weighted(lo: int, hi: int, c: int)
    requires lo <= hi && 0 <= c <= 255
    ensures 255 * lo <= lo * c + hi * (255 - c) <= 255 * hi
  {
    MulNonneg(hi - lo, 255 - c);
    MulNonneg(hi - lo, c);
    assert lo * c + hi * (255 - c) == 255 * lo + (hi - lo) * (255 - c);
    assert lo * c + hi * (255 - c) == 255 * hi - (hi - lo) * c;
  }

  lemma MixRange(s: byte, d: byte, a: byte)
    ensures var m := (s as int * a as int + d as int * (255 - a as int)) / 255;
            && (if s <= d then s as int <= m <= d as int else d as int <= m <= s as int)
            && (a == 255 ==> m == s as int) && (a == 0 ==> m == d as int)
  {
    if s <= d {
      Weighted(s as int, d as int, a as int);
    } else {
      Weighted(d as int, s as int, 255 - a as int);
    }
  }

  /** A blended channel lies between the sprite's and the frame's, whichever is larger, and is one of
      them at full or no coverage. */
  lemma MixBetween(s: byte, d: byte, a: byte)
    ensures if s <= d then s <= Mix(s, d, a) <= d else d <= Mix(s, d, a) <= s
    ensures (a == 255 ==> Mix(s, d, a) == s) && (a == 0 ==> Mix(s, d, a) == d)
  {
    MixRange(s, d, a);
  }

  /** `m` is `s` over `d` with coverage `a` of 255, rounded down. */
  predicate IsMix(m: byte, s: byte, d: byte, a: byte) {
    255 * m as int <= s as int * a as int + d as int * (255 - a as int) < 255 * (m as int + 1)
  }

  lemma MixRoundsDown(s: byte, d: byte, a: byte)
    ensures IsMix(Mix(s, d, a), s, d, a)
  {
    MixRange(s, d, a);
    var n := s as int * a as int + d as int * (255 - a as int);
    assert n == 255 * (n / 255) + n % 255;
  }

  /** Byte `c` (0 blue, 1 green, 2 red, 3 alpha) of a frame pixel after the sprite pixel `s`. */
  function Channel(s: Rgba, c: nat, was: byte): byte {
    if s.a == 0 then was
    else match c case 0 => Mix(s.b, was, s.a) case 1 => Mix(s.g, was, s.a) case 2 => Mix(s.r, was, s.a) case _ => 255
  }

  /** The sprite pixel over column `fx`, row `fy`, if the sprite placed at (x, y) has one there. */
  predicate Overlaps(fw: nat, fh: nat, sprite: Sprite, x: int, y: int, fx: int, fy: int) {
    && 0 <= fx < fw && 0 <= fy < fh && 0 <= fx - x < sprite.width && 0 <= fy - y < sprite.height
    && 4 * ((fy - y) * sprite.width + (fx - x)) + 3 < |sprite.data|
  }

  function PixelAt(data: Bytes, i: int): Rgba
    requires 0 <= i && i + 3 < |data|
  {
    Rgba(data[i], data[i + 1], data[i + 2], data[i + 3])
  }

  function SpritePixel(sprite: Sprite, sx: int, sy: int): Rgba
    requires 0 <= sx && 0 <= sy && 4 * (sy * sprite.width + sx) + 3 < |sprite.data|
  {
    PixelAt(sprite.data, 4 * (sy * sprite.width + sx))
  }

  /** Byte `i` of the frame once the sprite is drawn. */
  function Drawn(fw: nat, fh: nat, sprite: Sprite, x: int, y: int, frame: Bytes, i: nat): byte
    requires i < |frame|
  {
    var k := i / 4;
    if fw > 0 && 4 * k + 3 < |frame| && Overlaps(fw, fh, sprite, x, y, k % fw, k / fw)
    then Channel(SpritePixel(sprite, k % fw - x, k / fw - y), i % 4, frame[i])
    else frame[i]
  }

  /** Whether the loop has passed the pixel of byte `i` on its way to sprite row `sy`, column `sx`. */
  predicate Passed(fw: nat, x: int, y: int, i: nat, sy: int, sx: int) {
    fw > 0 && var k := i / 4; k / fw - y < sy || (k / fw - y == sy && k % fw - x < sx)
  }

  ghost predicate Progress(fw: nat, fh: nat, sprite: Sprite, x: int, y: int, was: Bytes, now: Bytes, sy: int, sx: int) {
    |now| == |was| && forall i :: 0 <= i < |was| ==>
      now[i] == if Passed(fw, x, y, i, sy, sx) then Drawn(fw, fh, sprite, x, y, was, i) else was[i]
  }

  lemma Split(fw: nat, fx: int, fy: int)
    requires 0 <= fx < fw && 0 <= fy
    ensures (fy * fw + fx) / fw == fy && (fy * fw + fx) % fw == fx
  {
    DivModUnique(fy * fw + fx, fw, fy, fx);
  }

  lemma AtLeast(a: int, d: int)
    requires a >= 1 && d > 0
    ensures a * d >= d
  {
    MulNonneg(a - 1, d);
    assert a * d == (a - 1) * d + d;
  }

  lemma DivModUnique(n: int, d: int, q: int, r: int)
    requires 0 <= r < d && n == q * d + r
    ensures n / d == q && n % d == r
  {
    var q', r' := n / d, n % d;
    assert n == d * q' + r';
    assert (q - q') * d == q * d - d * q' && (q' - q) * d == d * q' - q * d;
    if q > q' {
      AtLeast(q - q', d);
    } else if q < q' {
      AtLeast(q' - q, d);
    }
  }

  /** What the loop knows about its arguments. */
  datatype Job = Job(fw: nat, fh: nat, sprite: Sprite, x: int, y: int) {
    /** What the types of the source guarantee. */
    predicate Typed() {
      && fw < 2 * I32 && fh < 2 * I32 && sprite.width < 2 * I32 && sprite.height < 2 * I32
      && -I32 <= x < I32 && -I32 <= y < I32
    }

    /** Sizes for which 32-bit index arithmetic does not overflow. */
    predicate Fits() {
      && fw < I32 && fh < I32 && sprite.width < I32 && sprite.height < I32
      && 4 * (fw * fh) <= I32 && 4 * (sprite.width * sprite.height) <= I32
      && -I32 <= x < I32 && -I32 <= y < I32
    }
  }

  ghost predicate At(j: Job, was: Bytes, now: Bytes, sy: int, sx: int) {
    Progress(j.fw, j.fh, j.sprite, j.x, j.y, was, now, sy, sx)
  }

  /** Moving on is right when the pixels passed over keep their bytes. */
  lemma MoveOn(j: Job, was: Bytes, now: Bytes, sy: int, sx: int, sy': int, sx': int)
    requires At(j, was, now, sy, sx) && (sy < sy' || (sy == sy' && sx <= sx'))
    requires forall i :: 0 <= i < |was| && Passed(j.fw, j.x, j.y, i, sy', sx') && !Passed(j.fw, j.x, j.y, i, sy, sx)
                         ==> Drawn(j.fw, j.fh, j.sprite, j.x, j.y, was, i) == was[i]
    ensures At(j, was, now, sy', sx')
  {
    assert forall i: nat :: Passed(j.fw, j.x, j.y, i, sy, sx) ==> Passed(j.fw, j.x, j.y, i, sy', sx');
  }

  lemma EndRow(j: Job, was: Bytes, now: Bytes, sy: int)
    requires At(j, was, now, sy, j.sprite.width)
    ensures At(j, was, now, sy + 1, 0)
  {
    MoveOn(j, was, now, sy, j.sprite.width, sy + 1, 0);
  }

  /** The pixel at sprite row `sy`, column `sx` is drawn: it lies on the frame, both its indices are
      in bounds, and it is not fully transparent. */
  predicate Draws(j: Job, frameSize: nat, sy: int, sx: int) {
    var fx, fy := j.x + sx, j.y + sy;
    && Overlaps(j.fw, j.fh, j.sprite, j.x, j.y, fx, fy) && 4 * (fy * j.fw + fx) + 3 < frameSize
    && SpritePixel(j.sprite, sx, sy).a != 0
  }

  /** The bytes passed between a column and the next are those of one pixel. */
  lemma PassedHere(j: Job, i: nat, sy: int, sx: int)
    requires Passed(j.fw, j.x, j.y, i, sy, sx + 1) && !Passed(j.fw, j.x, j.y, i, sy, sx)
    ensures var k := i / 4; k % j.fw == j.x + sx && k / j.fw == j.y + sy && k == (j.y + sy) * j.fw + (j.x + sx)
  {
  }

  lemma SkipPixel(j: Job, was: Bytes, now: Bytes, sy: int, sx: int)
    requires At(j, was, now, sy, sx) && !Draws(j, |was|, sy, sx)
    ensures At(j, was, now, sy, sx + 1)
  {
    forall i | 0 <= i < |was| && Passed(j.fw, j.x, j.y, i, sy, sx + 1) && !Passed(j.fw, j.x, j.y, i, sy, sx)
      ensures Drawn(j.fw, j.fh, j.sprite, j.x, j.y, was, i) == was[i]
    {
      PassedHere(j, i, sy, sx);
    }
    MoveOn(j, was, now, sy, sx, sy, sx + 1);
  }

  lemma DrawPixel(j: Job, was: Bytes, now: Bytes, now': Bytes, sy: int, sx: int, at: int)
    requires At(j, was, now, sy, sx) && Draws(j, |was|, sy, sx) && at == 4 * ((j.y + sy) * j.fw + (j.x + sx))
    requires 0 <= at && at + 3 < |was| && |now'| == |now|
    requires forall i :: 0 <= i < |now| && !(at <= i < at + 4) ==> now'[i] == now[i]
    requires forall i :: at <= i < at + 4 ==> now'[i] == Channel(SpritePixel(j.sprite, sx, sy), i - at, now[i])
    ensures At(j, was, now', sy, sx + 1)
  {
    var k := (j.y + sy) * j.fw + (j.x + sx);
    Split(j.fw, j.x + sx, j.y + sy);
    forall i | 0 <= i < |was|
      ensures now'[i] ==
              if Passed(j.fw, j.x, j.y, i, sy, sx + 1) then Drawn(j.fw, j.fh, j.sprite, j.x, j.y, was, i) else was[i]
    {
      if at <= i < at + 4 {
        assert i / 4 == k && i % 4 == i - at;
      } else if Passed(j.fw, j.x, j.y, i, sy, sx + 1) && !Passed(j.fw, j.x, j.y, i, sy, sx) {
        PassedHere(j, i, sy, sx);
        assert false;
      }
    }
  }

  lemma IndexInRange(w: nat, h: nat, px: int, py: int)
    requires 0 <= px < w && 0 <= py < h && 4 * (w * h) <= I32
    ensures 0 <= py * w + px && 4 * (py * w + px) + 3 < I32
    ensures Wrap32((py * w + px) * 4) == 4 * (py * w + px)
  {
    MulNonneg(py, w);
    MulNonneg(h - 1 - py, w);
    assert w * h == py * w + (h - 1 - py) * w + w;
  }

  // ---------- The code, on values ----------

  /** `((py * width + px) * 4) as usize`: a negative index lies beyond every buffer. */
  function Index(width: int, px: int, py: int): int { Wrap32((py * width + px) * 4) }

  predicate InBuffer(i: int, data: Bytes) { 0 <= i && i + 3 < |data| }

  function Put(frame: Bytes, at: int, s: Rgba): (now: Bytes)
    requires InBuffer(at, frame)
    ensures |now| == |frame|
    ensures forall i :: 0 <= i < |frame| ==>
              now[i] == if at <= i < at + 4 then Channel(s, i - at, frame[i]) else frame[i]
  {
    frame[..at]
    + [Channel(s, 0, frame[at]), Channel(s, 1, frame[at + 1]), Channel(s, 2, frame[at + 2]),
       Channel(s, 3, frame[at + 3])]
    + frame[at + 4..]
  }

  /** One turn of the inner loop, all arithmetic in 32 bits. */
  function PixelStep(j: Job, frame: Bytes, sy: int, sx: int): (now: Bytes)
    ensures |now| == |frame|
  {
    var fx, fy := Wrap32(j.x + sx), Wrap32(j.y + sy);
    if !(0 <= fy < Wrap32(j.fh)) || !(0 <= fx < Wrap32(j.fw)) then frame
    else
      var si, fi := Index(j.sprite.width, sx, sy), Index(j.fw, fx, fy);
      if !InBuffer(si, j.sprite.data) || !InBuffer(fi, frame) || PixelAt(j.sprite.data, si).a == 0 then frame
      else Put(frame, fi, PixelAt(j.sprite.data, si))
  }

  function RowSteps(j: Job, frame: Bytes, sy: int, n: nat): (now: Bytes)
    ensures |now| == |frame|
  {
    if n == 0 then frame else PixelStep(j, RowSteps(j, frame, sy, n - 1), sy, n - 1)
  }

  /** `0..n as i32` has no turns for a size that turns negative. */
  function Turns(n: nat): nat { if Wrap32(n) < 0 then 0 else Wrap32(n) }

  function FrameSteps(j: Job, frame: Bytes, n: nat): (now: Bytes)
    ensures |now| == |frame|
  {
    if n == 0 then frame else RowSteps(j, FrameSteps(j, frame, n - 1), n - 1, Turns(j.sprite.width))
  }

  function Blitted(j: Job, frame: Bytes): Bytes { FrameSteps(j, frame, Turns(j.sprite.height)) }

  lemma {:induction false} RowOffFrame(j: Job, frame: Bytes, sy: int, n: nat)
    requires !(0 <= Wrap32(j.y + sy) < Wrap32(j.fh))
    ensures RowSteps(j, frame, sy, n) == frame
  {
    if n > 0 { RowOffFrame(j, frame, sy, n - 1); }
  }

  /** `blit_sprite_bgra`, for every frame, sprite and position. */
  method Blit(frame: array<byte>, j: Job)
    requires j.Typed()
    modifies frame
    ensures frame[..] == Blitted(j, old(frame[..]))
  {
    ghost var was := frame[..];
    var fh := Wrap32(j.fh);
    for sy := 0 to Turns(j.sprite.height)
      invariant frame[..] == FrameSteps(j, was, sy)
    {
      ghost var before := frame[..];
      var fy := Wrap32(j.y + sy);
      if fy < 0 || fy >= fh {
        RowOffFrame(j, before, sy, Turns(j.sprite.width));
        continue;
      }
      for sx := 0 to Turns(j.sprite.width)
        invariant frame[..] == RowSteps(j, before, sy, sx)
      {
        BlitPixel(frame, j, sy, sx, fy);
      }
    }
  }

  method BlitPixel(frame: array<byte>, j: Job, sy: int, sx: int, fy: int)
    requires fy == Wrap32(j.y + sy) && 0 <= fy < Wrap32(j.fh)
    modifies frame
    ensures frame[..] == PixelStep(j, old(frame[..]), sy, sx)
  {
    var fx := Wrap32(j.x + sx);
    if fx < 0 || fx >= Wrap32(j.fw) {
      return;
    }
    var spriteIdx, frameIdx := Index(j.sprite.width, sx, sy), Index(j.fw, fx, fy);
    if spriteIdx < 0 || spriteIdx + 3 >= |j.sprite.data| || frameIdx < 0 || frameIdx + 3 >= frame.Length {
      return;
    }
    var s := PixelAt(j.sprite.data, spriteIdx);
    if s.a == 0 {
      return;
    }
    WritePixel(frame, frameIdx, s);
  }

  /** Opaque pixels are copied, the others mixed; RGBA goes to BGRA and the result is opaque. */
  method WritePixel(frame: array<byte>, at: nat, s: Rgba)
    requires at + 3 < frame.Length && s.a != 0
    modifies frame
    ensures frame[..] == Put(old(frame[..]), at, s)
    ensures IsMix(frame[at], s.b, old(frame[at]), s.a) && IsMix(frame[at + 1], s.g, old(frame[at + 1]), s.a)
    ensures IsMix(frame[at + 2], s.r, old(frame[at + 2]), s.a) && frame[at + 3] == 255
    ensures forall i :: 0 <= i < frame.Length && !(at <= i < at + 4) ==> frame[i] == old(frame[i])
  {
    MixRoundsDown(s.b, frame[at], s.a);
    MixRoundsDown(s.g, frame[at + 1], s.a);
    MixRoundsDown(s.r, frame[at + 2], s.a);
    if s.a == 255 {
      MixBetween(s.b, frame[at], s.a);
      MixBetween(s.g, frame[at + 1], s.a);
      MixBetween(s.r, frame[at + 2], s.a);
      frame[at] := s.b;
      frame[at + 1] := s.g;
      frame[at + 2] := s.r;
      frame[at + 3] := 255;
    } else {
      frame[at] := Mix(s.b, frame[at], s.a);
      frame[at + 1] := Mix(s.g, frame[at + 1], s.a);
      frame[at + 2] := Mix(s.r, frame[at + 2], s.a);
      frame[at + 3] := 255;
    }
  }

  /** A wrapped coordinate is on the frame exactly when the true one is, and then it is the true one. */
  lemma WrapAgrees(n: int, size: nat)
    requires -I32 <= n < 2 * I32 && size < I32
    ensures 0 <= Wrap32(n) < size <==> 0 <= n < size
    ensures 0 <= n < size ==> Wrap32(n) == n
  {
  }

  // ---------- What it draws ----------

  lemma SmallSize(n: nat)
    requires n < I32
    ensures Wrap32(n) == n && Turns(n) == n
  {
  }

  /** The 32-bit computations of one turn give the true values. */
  lemma TrueIndices(j: Job, sy: int, sx: int)
    requires j.Fits() && 0 <= sx < j.sprite.width && 0 <= sy < j.sprite.height
    ensures Index(j.sprite.width, sx, sy) == 4 * (sy * j.sprite.width + sx) >= 0
    ensures 0 <= Wrap32(j.x + sx) < Wrap32(j.fw) <==> 0 <= j.x + sx < j.fw
    ensures 0 <= Wrap32(j.y + sy) < Wrap32(j.fh) <==> 0 <= j.y + sy < j.fh
    ensures 0 <= j.x + sx < j.fw && 0 <= j.y + sy < j.fh ==>
              Index(j.fw, Wrap32(j.x + sx), Wrap32(j.y + sy)) == 4 * ((j.y + sy) * j.fw + (j.x + sx)) >= 0
  {
    SmallSize(j.fw);
    SmallSize(j.fh);
    WrapAgrees(j.x + sx, j.fw);
    WrapAgrees(j.y + sy, j.fh);
    IndexInRange(j.sprite.width, j.sprite.height, sx, sy);
    if 0 <= j.x + sx < j.fw && 0 <= j.y + sy < j.fh { IndexInRange(j.fw, j.fh, j.x + sx, j.y + sy); }
  }

  /** Where sizes fit, one turn of the loop draws one pixel. */
  lemma PixelStepDraws(j: Job, was: Bytes, now: Bytes, sy: int, sx: int)
    requires j.Fits() && 0 <= sx < j.sprite.width && 0 <= sy < j.sprite.height && At(j, was, now, sy, sx)
    ensures At(j, was, PixelStep(j, now, sy, sx), sy, sx + 1)
  {
    TrueIndices(j, sy, sx);
    if Draws(j, |was|, sy, sx) {
      var at := 4 * ((j.y + sy) * j.fw + (j.x + sx));
      assert PixelStep(j, now, sy, sx) == Put(now, at, SpritePixel(j.sprite, sx, sy));
      DrawPixel(j, was, now, PixelStep(j, now, sy, sx), sy, sx, at);
    } else {
      assert PixelStep(j, now, sy, sx) == now;
      SkipPixel(j, was, now, sy, sx);
    }
  }

  lemma {:induction false} RowDraws(j: Job, was: Bytes, now: Bytes, sy: int, n: nat)
    requires j.Fits() && n <= j.sprite.width && 0 <= sy < j.sprite.height && At(j, was, now, sy, 0)
    ensures At(j, was, RowSteps(j, now, sy, n), sy, n)
  {
    if n > 0 {
      RowDraws(j, was, now, sy, n - 1);
      PixelStepDraws(j, was, RowSteps(j, now, sy, n - 1), sy, n - 1);
    }
  }

  lemma {:induction false} FrameDraws(j: Job, was: Bytes, n: nat)
    requires j.Fits() && n <= j.sprite.height
    ensures At(j, was, FrameSteps(j, was, n), n, 0)
  {
    if n > 0 {
      FrameDraws(j, was, n - 1);
      var now, w := FrameSteps(j, was, n - 1), j.sprite.width;
      RowDraws(j, was, now, n - 1, w);
      EndRow(j, was, RowSteps(j, now, n - 1, w), n - 1);
      SmallSize(w);
    }
  }

  lemma AllPassed(j: Job, was: Bytes, now: Bytes)
    requires At(j, was, now, j.sprite.height, 0)
    ensures forall i :: 0 <= i < |was| ==> now[i] == Drawn(j.fw, j.fh, j.sprite, j.x, j.y, was, i)
  {
  }

  /** Every byte ends as drawn: the overlap blended, the rest untouched. */
  ghost predicate DrawsRight(j: Job, was: Bytes) {
    forall i :: 0 <= i < |was| ==> Blitted(j, was)[i] == Drawn(j.fw, j.fh, j.sprite, j.x, j.y, was, i)
  }

  lemma BlittedIsDrawn(j: Job, was: Bytes)
    requires j.Fits()
    ensures DrawsRight(j, was)
  {
    SmallSize(j.sprite.height);
    FrameDraws(j, was, j.sprite.height);
    AllPassed(j, was, Blitted(j, was));
  }

  predicate SmallSprite(sprite: Sprite) {
    sprite.width < I32 && sprite.height < I32 && 4 * (sprite.width * sprite.height) <= I32
  }

  /** One opaque white pixel. */
  const DOT := Sprite(1, 1, [255, 255, 255, 255])

  lemma DotStep(j: Job, was: Bytes)
    requires j.sprite == DOT
    ensures Blitted(j, was) == PixelStep(j, was, 0, 0)
  {
    SmallSize(1);
    assert FrameSteps(j, was, 1) == RowSteps(j, FrameSteps(j, was, 0), 0, Turns(1));
    assert RowSteps(j, was, 0, 1) == PixelStep(j, RowSteps(j, was, 0, 0), 0, 0);
  }

  /** The first pixel of a frame whose index or size does not fit in 32 bits. */
  function Beyond(fw: nat, fh: nat): nat { if fw >= I32 || fh >= I32 then 0 else I32 / 4 }

  /** A size that does not fit turns negative, and so does the index of that pixel. */
  lemma DotIsSkipped(j: Job, was: Bytes)
    requires j.fw < 2 * I32 && j.fh < 2 * I32 && 0 <= j.x && 0 <= j.y
    requires j.y * j.fw + j.x == Beyond(j.fw, j.fh)
    requires j.fw < I32 && j.fh < I32 ==> j.x < I32 && j.y < I32
    ensures PixelStep(j, was, 0, 0) == was
  {
    if j.fw >= I32 {
      assert Wrap32(j.fw) < 0;
    } else if j.fh >= I32 {
      assert Wrap32(j.fh) < 0;
    } else {
      assert Wrap32(j.x) == j.x && Wrap32(j.y) == j.y;
      assert Index(j.fw, j.x, j.y) == Wrap32(I32) < 0;
    }
  }

  lemma DotOverlaps(fw: nat, fh: nat, x: int, y: int)
    requires 0 <= x < fw && 0 <= y < fh
    ensures Overlaps(fw, fh, DOT, x, y, x, y)
  {
  }

  lemma DotChannel(was: byte)
    ensures Channel(SpritePixel(DOT, 0, 0), 0, was) == 255
  {
    MixBetween(255, was, 255);
  }

  lemma DotShouldShow(j: Job, was: Bytes)
    requires j.sprite == DOT && 0 <= j.x < j.fw && 0 <= j.y < j.fh && 4 * (j.y * j.fw + j.x) + 3 < |was|
    ensures var i := 4 * (j.y * j.fw + j.x); 0 <= i < |was| && Drawn(j.fw, j.fh, DOT, j.x, j.y, was, i) == 255
  {
    MulNonneg(j.y, j.fw);
    DotOverlaps(j.fw, j.fh, j.x, j.y);
    DrawnPixel(j, was, j.x, j.y, 0);
    DotChannel(was[4 * (j.y * j.fw + j.x)]);
  }

  /** A dot on that pixel of a black frame is not drawn. */
  lemma DotIsLost(j: Job, was: Bytes)
    requires j.Typed() && j.sprite == DOT && 0 <= j.x < j.fw && 0 <= j.y < j.fh
    requires j.y * j.fw + j.x == Beyond(j.fw, j.fh)
    requires 4 * Beyond(j.fw, j.fh) + 3 < |was| && forall i :: 0 <= i < |was| ==> was[i] == 0
    ensures !DrawsRight(j, was)
  {
    DotStep(j, was);
    DotIsSkipped(j, was);
    DotShouldShow(j, was);
    var i := 4 * (j.y * j.fw + j.x);
    assert Blitted(j, was)[i] != Drawn(j.fw, j.fh, j.sprite, j.x, j.y, was, i);
  }

  /** Pixel `k` of a frame lies on it. */
  lemma DotInside(fw: nat, fh: nat, k: nat)
    requires fw > 0 && k < fw * fh
    ensures 0 <= k % fw < fw && 0 <= k / fw < fh && k == k / fw * fw + k % fw && k / fw <= k && k % fw <= k
  {
    if k / fw >= fh { MulNonneg(k / fw - fh, fw); }
    MulNonneg(k / fw, fw - 1);
  }

  /** A small sprite anywhere on a well-sized frame. */
  predicate SmallJob(fw: nat, fh: nat, j: Job, was: Bytes) {
    j.Typed() && j.fw == fw && j.fh == fh && SmallSprite(j.sprite) && |was| == 4 * (fw * fh)
  }

  ghost predicate AlwaysDrawsRight(fw: nat, fh: nat) {
    forall j: Job, was: Bytes :: SmallJob(fw, fh, j, was) ==> DrawsRight(j, was)
  }

  lemma SmallFrame(fw: nat, fh: nat, j: Job, was: Bytes)
    requires 0 < fw && 0 < fh && 4 * (fw * fh) <= I32 && SmallJob(fw, fh, j, was)
    ensures DrawsRight(j, was)
  {
    MulNonneg(fw - 1, fh - 1);
    assert fw * fh == (fw - 1) * (fh - 1) + fw + fh - 1;
    BlittedIsDrawn(j, was);
  }

  lemma LargeFrame(fw: nat, fh: nat)
    requires 0 < fw < 2 * I32 && 0 < fh < 2 * I32 && 4 * (fw * fh) > I32
    ensures !AlwaysDrawsRight(fw, fh)
  {
    var was: Bytes := seq(4 * (fw * fh), i => 0);
    var k := Beyond(fw, fh);
    DotInside(fw, fh, k);
    var j := Job(fw, fh, DOT, k % fw, k / fw);
    DotIsLost(j, was);
    assert SmallJob(fw, fh, j, was);
  }

  /** Every small sprite is drawn right everywhere on every well-sized frame of these dimensions if and
      only if the frame's bytes can be counted in 31 bits. */
  lemma FrameFitsIff(fw: nat, fh: nat)
    requires 0 < fw < 2 * I32 && 0 < fh < 2 * I32
    ensures AlwaysDrawsRight(fw, fh) <==> 4 * (fw * fh) <= I32
  {
    if 4 * (fw * fh) <= I32 {
      forall j: Job, was: Bytes | SmallJob(fw, fh, j, was) ensures DrawsRight(j, was) { SmallFrame(fw, fh, j, was); }
    } else {
      LargeFrame(fw, fh);
    }
  }

  /** In frame coordinates: a pixel under the sprite becomes the channel-swapped blend of itself and
      the sprite pixel over it; every other pixel keeps its bytes. */
  lemma DrawnPixel(j: Job, was: Bytes, fx: nat, fy: nat, c: nat)
    requires fx < j.fw && fy < j.fh && c < 4 && 4 * (fy * j.fw + fx) + 3 < |was|
    ensures var i := 4 * (fy * j.fw + fx) + c;
            i < |was| && Drawn(j.fw, j.fh, j.sprite, j.x, j.y, was, i) ==
              if Overlaps(j.fw, j.fh, j.sprite, j.x, j.y, fx, fy)
              then Channel(SpritePixel(j.sprite, fx - j.x, fy - j.y), c, was[i]) else was[i]
  {
    Split(j.fw, fx, fy);
    var i := 4 * (fy * j.fw + fx) + c;
    assert i / 4 == fy * j.fw + fx && i % 4 == c;
  }
}
