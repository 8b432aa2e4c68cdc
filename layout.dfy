/** The fixed-width unsigned integers of the AVR C code and the little-endian
    byte image through which rtc.c writes into them by casting their address to
    a byte pointer or a half-word pointer. */
module Layout {

  type Byte = x: int | 0 <= x < 0x100    // uint8_t
  type Word = x: int | 0 <= x < 0x1_0000    // uint16_t
  type DWord = x: int | 0 <= x < 0x1_0000_0000    // uint32_t

  const U16: nat := 0x1_0000
  const U32: nat := 0x1_0000_0000

  function Pow256(n: nat): (p: nat)
    ensures p >= 1
  {
    if n == 0 then 1 else 256 * Pow256(n - 1)
  }

  /** The unsigned value held by a little-endian image: byte 0 is the least significant. */
  function ValueOf(img: seq<Byte>): (v: nat)
    ensures v < Pow256(|img|)
  {
    if img == [] then 0 else img[0] + 256 * ValueOf(img[1..])
  }

  /** The n-byte little-endian image of x, as the AVR lays out an n-byte integer in memory. */
  function ImageOf(x: nat, n: nat): (img: seq<Byte>)
    requires x < Pow256(n)
    ensures |img| == n && ValueOf(img) == x
  {
    if n == 0 then [] else [x % 256] + ImageOf(x / 256, n - 1)
  }

  /** Reading an image back and laying it out again gives the same bytes. */
  lemma {:induction false} ImageOfValueOf(img: seq<Byte>)
    ensures ImageOf(ValueOf(img), |img|) == img
  {
    if img != [] {
      var rest := ValueOf(img[1..]);
      assert ValueOf(img) == img[0] + 256 * rest;
      assert ValueOf(img) % 256 == img[0] && ValueOf(img) / 256 == rest;
      ImageOfValueOf(img[1..]);
      assert img == [img[0]] + img[1..];
    }
  }

  /** The byte at offset 0 of a uint16_t, which a cast to uint8_t keeps. */
  function LowByte(w: Word): Byte { w % 256 }

  /** The byte at offset 1 of a uint16_t, read through a byte pointer. */
  function HighByte(w: Word): Byte { w / 256 }

  lemma WordImage(w: Word)
    ensures ImageOf(w, 2) == [LowByte(w), HighByte(w)]
    ensures LowByte(w) + 256 * HighByte(w) == w
  {
    assert ImageOf(w, 2) == [w % 256] + ImageOf(w / 256, 1);
    assert ImageOf(w / 256, 1) == [w / 256 % 256] + ImageOf(w / 256 / 256, 0);
  }

  /** Half-word k of a 4-byte image, read through a uint16_t pointer. */
  function HalfAt(img: seq<Byte>, k: nat): Word
    requires |img| == 4 && k < 2
  {
    img[2 * k] as int + 256 * img[2 * k + 1] as int
  }

  /** A store of v through a uint16_t pointer into half-word k: the half-word k
      is replaced and the other keeps its bytes. */
  function WithHalf(img: seq<Byte>, k: nat, v: Word): (r: seq<Byte>)
    requires |img| == 4 && k < 2
    ensures |r| == 4 && HalfAt(r, k) == v
    ensures HalfAt(r, 1 - k) == HalfAt(img, 1 - k)
  {
    WordImage(v);
    img[2 * k := LowByte(v)][2 * k + 1 := HighByte(v)]
  }

  /** A uint32_t is its upper half-word times 2^16 plus its lower half-word. */
  lemma ValueOfHalves(img: seq<Byte>)
    requires |img| == 4
    ensures ValueOf(img) == HalfAt(img, 0) + U16 * HalfAt(img, 1)
  {
    assert img[1..][1..] == img[2..];
    assert img[2..][1..] == img[3..];
    assert img[3..][1..] == [];
    assert ValueOf(img[3..]) == img[3];
    assert ValueOf(img[2..]) == img[2] as int + 256 * img[3] as int;
    assert ValueOf(img[1..]) == img[1] + 256 * ValueOf(img[2..]);
  }
}
