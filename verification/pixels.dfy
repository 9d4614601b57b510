/** Pixel synthesis (the image loop of handle_get_image in
    srcs/host_app/server_main.c): every output word of the accelerator
    becomes one RGB pixel, black where the word equals the maximum depth,
    otherwise the palette colour selected by two bit fields of the word. */
module Pixels {
  import opened Wire

  /** A C int, as the words of data_array are. */
  newtype int32 = x: int | -0x8000_0000 <= x < 0x8000_0000

  /** color_scheme has GROUPS groups; the transition field is 6 bits wide. */
  const GROUPS: nat := 8
  const TRANSITIONS: nat := 64

  datatype Color = Color(red: byte, green: byte, blue: byte) {
    /** color[k] of the palette entry. */
    function Component(k: nat): byte
      requires k < 3
    {
      if k == 0 then red else if k == 1 then green else blue
    }
  }

  const BLACK := Color(0, 0, 0)

  /** color_scheme[g].color_transition[t]: loaded at start-up by a provider
      that is not part of this model, and never changed. */
  type Palette = seq<seq<Color>>

  predicate ValidPalette(p: Palette) {
    |p| == GROUPS && forall g :: 0 <= g < |p| ==> |p[g]| >= TRANSITIONS
  }

  function Pow2(n: nat): (r: nat)
    ensures r >= 1
  {
    if n == 0 then 1 else 2 * Pow2(n - 1)
  }

  /** The 32-bit pattern of a word, as an unsigned number. */
  function Unsigned(w: int32): (u: nat)
    ensures u < 0x1_0000_0000
    ensures u % 0x1_0000_0000 == (w as int) % 0x1_0000_0000
  {
    if w < 0 then w as int + 0x1_0000_0000 else w as int
  }

  /** extract_bits(w, hi, lo): bits lo up to, not including, hi of the word.
      Its definition is in utility.h, which is not part of this model. */
  function ExtractBits(w: int32, hi: nat, lo: nat): (r: nat)
    requires lo <= hi <= 32
    ensures r < Pow2(hi - lo)
  {
    (Unsigned(w) / Pow2(lo)) % Pow2(hi - lo)
  }

  lemma Pow2Values()
    ensures Pow2(0) == 1 && Pow2(3) == 8 && Pow2(6) == 64 && Pow2(20) == 0x10_0000
  {
    assert Pow2(3) == 8;
    assert Pow2(6) == 64;
    assert Pow2(10) == 1024;
    assert Pow2(20) == 0x10_0000;
  }

  /** transition = extract_bits(w, 6, 0), group = extract_bits(w, 26, 6). */
  function Transition(w: int32): (t: nat)
    ensures t < TRANSITIONS
  {
    Pow2Values();
    ExtractBits(w, 6, 0)
  }

  function Group(w: int32): (g: nat)
    ensures g < 0x10_0000
  {
    Pow2Values();
    ExtractBits(w, 26, 6)
  }

  /** The colour of the pixel of word w. */
  function Pixel(w: int32, maxDepth: int, palette: Palette): Color
    requires ValidPalette(palette)
  {
    if w as int == maxDepth then BLACK
    else palette[Group(w) % GROUPS][Transition(w)]
  }

  /** The image of a row-major run of words: three bytes per word. */
  function Render(words: seq<int32>, maxDepth: int, palette: Palette): (image: seq<byte>)
    requires ValidPalette(palette)
    ensures |image| == 3 * |words|
  {
    if words == [] then []
    else PixelBytes(Pixel(words[0], maxDepth, palette)) + Render(words[1..], maxDepth, palette)
  }

  function PixelBytes(c: Color): seq<byte> {
    [c.red, c.green, c.blue]
  }

  /** Byte q of the image is component q % 3 of the pixel of word q / 3. */
  lemma {:induction false} RenderAt(words: seq<int32>, maxDepth: int, palette: Palette, q: nat)
    requires ValidPalette(palette) && q < 3 * |words|
    ensures Render(words, maxDepth, palette)[q] == Pixel(words[q / 3], maxDepth, palette).Component(q % 3)
  {
    if q >= 3 {
      RenderAt(words[1..], maxDepth, palette, q - 3);
      assert (q - 3) / 3 == q / 3 - 1 && (q - 3) % 3 == q % 3;
    }
  }

  /** The pixel rule in terms of the word's bits: the sentinel is black
      whatever its bits; otherwise bits 6..8 choose the group (group % 8 never
      leaves the table) and bits 0..5 the transition. */
  lemma PixelRule(w: int32, maxDepth: int, palette: Palette)
    requires ValidPalette(palette)
    ensures w as int == maxDepth ==> Pixel(w, maxDepth, palette) == BLACK
    ensures w as int != maxDepth ==>
              Group(w) % GROUPS == ExtractBits(w, 9, 6) < GROUPS &&
              Pixel(w, maxDepth, palette) == palette[ExtractBits(w, 9, 6)][ExtractBits(w, 6, 0)]
  {
    Pow2Values();
    var a := Unsigned(w) / 64;
    ModOfMod(a, 0x2_0000);
    assert Pow2(9 - 6) == 8;
  }

  lemma ModOfMod(a: nat, m: nat)
    requires m > 0
    ensures a % (8 * m) % 8 == a % 8
  {
    var q := a / (8 * m);
    var r := a % (8 * m);
    assert a == 8 * (m * q) + r;
    assert (8 * (m * q) + r) % 8 == r % 8;
  }

  /** The two fields tile the low 26 bits of the word: transition and group
      together give back bits 0..25. */
  lemma FieldsRecompose(w: int32)
    ensures Transition(w) + TRANSITIONS * Group(w) == Unsigned(w) % 0x400_0000
  {
    Pow2Values();
    var u := Unsigned(w);
    var q := u / 64;
    assert u == 64 * q + u % 64;
    var hi := q / 0x10_0000;
    assert q == 0x10_0000 * hi + q % 0x10_0000;
    assert u == 0x400_0000 * hi + (64 * (q % 0x10_0000) + u % 64);
    assert 0 <= 64 * (q % 0x10_0000) + u % 64 < 0x400_0000;
  }

  /** The image loop: one pass per pixel, i stepping by 3, j counting words. */
  method BuildImage(words: array<int32>, width: nat, height: nat, maxDepth: int, palette: Palette)
    returns (image: array<byte>)
    requires ValidPalette(palette)
    requires words.Length == width * height
    ensures fresh(image)
    ensures image.Length == width * height * 3
    ensures image[..] == Render(words[..], maxDepth, palette)
  {
    var n := width * height;
    image := new byte[n * 3];
    var j := 0;
    var i := 0;
    while i < n * 3
      invariant 0 <= j <= n && i == 3 * j
      invariant forall q :: 0 <= q < i ==>
                  image[q] == Pixel(words[q / 3], maxDepth, palette).Component(q % 3)
    {
      var transition := ExtractBits(words[j], 6, 0);
      var group := ExtractBits(words[j], 26, 6);
      for k := 0 to 3
        invariant forall q :: 0 <= q < i + k ==>
                    image[q] == Pixel(words[q / 3], maxDepth, palette).Component(q % 3)
      {
        assert (i + k) / 3 == j && (i + k) % 3 == k;
        if words[j] as int == maxDepth {
          image[i + k] := 0;
        } else {
          image[i + k] := palette[group % GROUPS][transition].Component(k);
        }
      }
      j := j + 1;
      i := i + 3;
    }
    forall q | 0 <= q < n * 3
      ensures image[q] == Render(words[..], maxDepth, palette)[q]
    {
      RenderAt(words[..], maxDepth, palette, q);
    }
  }
}
