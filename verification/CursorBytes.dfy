/** What drawing a sprite does to the frame's bytes, from the sprite's bytes. */
module CursorBytes {
  import opened Bytes
  import opened CursorBlit

  /** The sprite pixel at byte `si` over the frame pixel at byte `i`: blue, green and red of an RGBA
      pixel go to the first three bytes of a BGRA one, and the result is opaque. */
  predicate IsOver(now: Bytes, was: Bytes, i: nat, sprite: Bytes, si: nat)
    requires |now| == |was| && i + 3 < |was| && si + 3 < |sprite|
  {
    var a := sprite[si + 3];
    && IsMix(now[i], sprite[si + 2], was[i], a)
    && IsMix(now[i + 1], sprite[si + 1], was[i + 1], a)
    && IsMix(now[i + 2], sprite[si], was[i + 2], a)
    && now[i + 3] == 255
  }

  /** An opaque sprite pixel is copied, bytes 2, 1, 0 first. */
  lemma OpaqueIsCopied(now: Bytes, was: Bytes, i: nat, sprite: Bytes, si: nat)
    requires |now| == |was| && i + 3 < |was| && si + 3 < |sprite| && sprite[si + 3] == 255
    ensures IsOver(now, was, i, sprite, si) <==> now[i..i + 4] == [sprite[si + 2], sprite[si + 1], sprite[si], 255]
  {
  }

  /** Byte `si` of the sprite starts the pixel that falls on column `fx`, row `fy` of the frame. */
  predicate Covers(j: Job, fx: nat, fy: nat, si: nat) {
    && j.x <= fx < j.x + j.sprite.width && j.y <= fy < j.y + j.sprite.height
    && si == 4 * ((fy - j.y) * j.sprite.width + (fx - j.x)) && si + 3 < |j.sprite.data|
  }

  lemma CoversPixel(j: Job, fx: nat, fy: nat, si: nat)
    requires fx < j.fw && fy < j.fh && Covers(j, fx, fy, si)
    ensures Overlaps(j.fw, j.fh, j.sprite, j.x, j.y, fx, fy)
    ensures SpritePixel(j.sprite, fx - j.x, fy - j.y) == PixelAt(j.sprite.data, si)
  {
  }

  lemma OverlapCovers(j: Job, fx: nat, fy: nat) returns (si: nat)
    requires Overlaps(j.fw, j.fh, j.sprite, j.x, j.y, fx, fy)
    ensures Covers(j, fx, fy, si) && SpritePixel(j.sprite, fx - j.x, fy - j.y) == PixelAt(j.sprite.data, si)
  {
    MulNonneg(fy - j.y, j.sprite.width);
    si := 4 * ((fy - j.y) * j.sprite.width + (fx - j.x));
  }

  lemma DrawnByte(j: Job, was: Bytes, i: nat)
    requires j.Fits() && i < |was|
    ensures |Blitted(j, was)| == |was| && Blitted(j, was)[i] == Drawn(j.fw, j.fh, j.sprite, j.x, j.y, was, i)
  {
    BlittedIsDrawn(j, was);
  }

  lemma ByteUnder(j: Job, was: Bytes, fx: nat, fy: nat, at: nat, c: nat, si: nat)
    requires j.Fits() && fx < j.fw && fy < j.fh && at == 4 * (fy * j.fw + fx) && at + 3 < |was| && c < 4
    requires Covers(j, fx, fy, si)
    ensures |Blitted(j, was)| == |was| && Blitted(j, was)[at + c] == Channel(PixelAt(j.sprite.data, si), c, was[at + c])
  {
    DrawnByte(j, was, at + c);
    DrawnPixel(j, was, fx, fy, c);
    CoversPixel(j, fx, fy, si);
  }

  /** A frame pixel under a sprite pixel that is not fully transparent, for sizes that fit in 32 bits. */
  lemma CoveredBytes(j: Job, was: Bytes, fx: nat, fy: nat, at: nat, si: nat)
    requires j.Fits() && fx < j.fw && fy < j.fh && at == 4 * (fy * j.fw + fx) && at + 3 < |was|
    requires Covers(j, fx, fy, si) && j.sprite.data[si + 3] != 0
    ensures |Blitted(j, was)| == |was| && IsOver(Blitted(j, was), was, at, j.sprite.data, si)
  {
    var sprite := j.sprite.data;
    ByteUnder(j, was, fx, fy, at, 0, si);
    ByteUnder(j, was, fx, fy, at, 1, si);
    ByteUnder(j, was, fx, fy, at, 2, si);
    ByteUnder(j, was, fx, fy, at, 3, si);
    MixRoundsDown(sprite[si + 2], was[at], sprite[si + 3]);
    MixRoundsDown(sprite[si + 1], was[at + 1], sprite[si + 3]);
    MixRoundsDown(sprite[si], was[at + 2], sprite[si + 3]);
  }

  /** Under no sprite pixel, or under a fully transparent one, a frame pixel keeps its bytes. */
  lemma ClearBytes(j: Job, was: Bytes, fx: nat, fy: nat, at: nat, c: nat)
    requires j.Fits() && fx < j.fw && fy < j.fh && at == 4 * (fy * j.fw + fx) && at + 3 < |was| && c < 4
    requires forall si: nat :: Covers(j, fx, fy, si) ==> j.sprite.data[si + 3] == 0
    ensures |Blitted(j, was)| == |was| && Blitted(j, was)[at + c] == was[at + c]
  {
    DrawnByte(j, was, at + c);
    DrawnPixel(j, was, fx, fy, c);
    if Overlaps(j.fw, j.fh, j.sprite, j.x, j.y, fx, fy) { var _ := OverlapCovers(j, fx, fy); }
  }

  /** Bytes that belong to no whole pixel of the frame are left alone. */
  lemma OutsideUntouched(j: Job, was: Bytes, i: nat)
    requires j.Fits() && i < |was| && (4 * (j.fw * j.fh) <= i || |was| <= i / 4 * 4 + 3)
    ensures |Blitted(j, was)| == |was| && Blitted(j, was)[i] == was[i]
  {
    DrawnByte(j, was, i);
    if j.fw > 0 && j.fw * j.fh <= i / 4 { BelowFrame(j.fw, j.fh, i / 4); }
  }

  lemma BelowFrame(fw: nat, fh: nat, k: nat)
    requires fw > 0 && fw * fh <= k
    ensures fh <= k / fw
  {
    if k / fw < fh { MulNonneg(fh - 1 - k / fw, fw); }
  }
}
