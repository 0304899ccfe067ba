/** Machine words, and one pointer and one length packed into a signed 64-bit value. */
module Words {
  import opened Wrappers

  const TWO_31: int := 0x8000_0000
  const TWO_32: int := 0x1_0000_0000
  const TWO_63: int := 0x8000_0000_0000_0000
  const TWO_64: int := 0x1_0000_0000_0000_0000

  /** A guest address or size, read as an unsigned 32-bit number. */
  type Word = x: nat | x < TWO_32

  /** The signed 32-bit number with the low 32 bits of `x`. */
  function AsI32(x: int): (r: int)
    ensures -TWO_31 <= r < TWO_31 && (r - x) % TWO_32 == 0
  {
    var low := x % TWO_32;
    if low < TWO_31 then low else low - TWO_32
  }

  function AsU32(x: int): Word {
    x % TWO_32
  }

  function AsI64(x: int): (r: int)
    ensures -TWO_63 <= r < TWO_63 && (r - x) % TWO_64 == 0
  {
    var low := x % TWO_64;
    if low < TWO_63 then low else low - TWO_64
  }

  /** A 32-bit pointer used as an offset by a 64-bit host: the sign is carried along. */
  function HostOffset(ptr: int): nat
    requires -TWO_31 <= ptr < TWO_31
  {
    if ptr < 0 then ptr + TWO_64 else ptr
  }

  /** The top bit is set. */
  predicate IsHigh(w: Word) {
    w >= TWO_31
  }

  lemma WordsAndSigns(w: Word)
    ensures AsU32(AsI32(w)) == w
    ensures AsI32(w) < 0 <==> IsHigh(w)
    ensures HostOffset(AsI32(w)) == if IsHigh(w) then w - TWO_32 + TWO_64 else w
  {
  }

  // ---------------------------------------------------------------
  // Packing
  // ---------------------------------------------------------------

  /** The bitwise `or` of two words, bit by bit. */
  function Or(x: nat, y: nat): nat
    decreases x + y
  {
    if x == 0 then y
    else if y == 0 then x
    else (if x % 2 == 1 || y % 2 == 1 then 1 else 0) + 2 * Or(x / 2, y / 2)
  }

  /** The pointer shifted to the high half of 64 bits, and the length's low 32 bits `or`ed in. */
  function Pack(ptr: Word, len: nat): int {
    AsI64(Or(ptr * TWO_32, len % TWO_32))
  }

  function Pow2(n: nat): (r: nat)
    ensures r > 0
  {
    if n == 0 then 1 else 2 * Pow2(n - 1)
  }

  lemma TwiceTimes(a: nat, p: nat)
    ensures a * (2 * p) == 2 * (a * p)
  {
  }

  /** What is shifted up by `n` bits has `n` zero bits below it, so `or`ing in fewer bits adds them. */
  lemma {:induction false} OrBelowShift(a: nat, n: nat, low: nat)
    requires low < Pow2(n)
    ensures Or(a * Pow2(n), low) == a * Pow2(n) + low
    decreases n
  {
    if n > 0 && a * Pow2(n) != 0 && low != 0 {
      TwiceTimes(a, Pow2(n - 1));
      OrBelowShift(a, n - 1, low / 2);
    }
  }

  lemma {:induction false} Pow2Halves(n: nat)
    ensures n >= 8 ==> Pow2(n) == 256 * Pow2(n - 8)
  {
    if n >= 8 {
      assert Pow2(n) == 2 * Pow2(n - 1) && Pow2(n - 1) == 2 * Pow2(n - 2) && Pow2(n - 2) == 2 * Pow2(n - 3);
      assert Pow2(n - 3) == 2 * Pow2(n - 4) && Pow2(n - 4) == 2 * Pow2(n - 5) && Pow2(n - 5) == 2 * Pow2(n - 6);
      assert Pow2(n - 6) == 2 * Pow2(n - 7) && Pow2(n - 7) == 2 * Pow2(n - 8);
    }
  }

  lemma Pow2Of32()
    ensures Pow2(32) == TWO_32
  {
    Pow2Halves(32);
    Pow2Halves(24);
    Pow2Halves(16);
    Pow2Halves(8);
  }

  /** The command-line host: a signed shift (which rounds down) and a mask, each cut to 32 bits. */
  function Unpack(packed: int): (int, int) {
    (AsI32(packed / TWO_32), AsI32(packed % TWO_32))
  }

  /** The browser host first wants the value as an unsigned 64-bit number. */
  function UnpackUnsigned(packed: int): Option<(Word, Word)> {
    if packed < 0 then None else Some((AsU32(packed / TWO_32), AsU32(packed)))
  }

  /** The browser host reads a pointer from a floating-point number, and a negative one as zero. */
  function PointerFromNumber(ptr: int): nat {
    if ptr < 0 then 0 else ptr
  }

  lemma OrIsSum(ptr: Word, len: nat)
    ensures Or(ptr * TWO_32, len % TWO_32) == ptr * TWO_32 + len % TWO_32
  {
    Pow2Of32();
    OrBelowShift(ptr, 32, len % TWO_32);
  }

  lemma SignOf64(high: Word, low: Word)
    ensures AsI64(high * TWO_32 + low) == high * TWO_32 + low - (if IsHigh(high) then TWO_64 else 0)
    ensures AsI64(high * TWO_32 + low) < 0 <==> IsHigh(high)
  {
    var x := high * TWO_32 + low;
    assert 0 <= x < TWO_64 && (x >= TWO_63 <==> IsHigh(high));
    assert x % TWO_64 == x;
  }

  lemma PackedSign(ptr: Word, len: nat)
    ensures Pack(ptr, len) == ptr * TWO_32 + len % TWO_32 - (if IsHigh(ptr) then TWO_64 else 0)
    ensures Pack(ptr, len) < 0 <==> IsHigh(ptr)
  {
    var low: Word := len % TWO_32;
    OrIsSum(ptr, len);
    SignOf64(ptr, low);
    assert Pack(ptr, len) == AsI64(ptr * TWO_32 + low);
  }

  /** Whatever the pointer and the length, top bits included, the command-line host reads both back. */
  lemma UnpackUndoesPack(ptr: Word, len: Word)
    ensures Unpack(Pack(ptr, len)) == (AsI32(ptr), AsI32(len))
    ensures AsU32(Unpack(Pack(ptr, len)).0) == ptr && AsU32(Unpack(Pack(ptr, len)).1) == len
  {
    PackedSign(ptr, len);
    var packed := Pack(ptr, len);
    var top := if IsHigh(ptr) then ptr - TWO_32 else ptr;
    assert packed == top * TWO_32 + len;
    assert packed / TWO_32 == top && packed % TWO_32 == len;
    WordsAndSigns(ptr);
    WordsAndSigns(len);
  }

  /** What the command-line host unpacks of an answer: its length, and a pointer negative just for a high address. */
  lemma UnpackedAnswer(ptr: Word, len: Word)
    requires len < TWO_31
    ensures var (p, n) := Unpack(Pack(ptr, len));
      n == len && AsU32(p) == ptr && -TWO_31 <= p < TWO_31 && (if IsHigh(ptr) then p < 0 else p == ptr)
  {
    WordsAndSigns(ptr);
    UnpackUndoesPack(ptr, len);
  }

  /**
   The browser host recovers a pointer, alone or packed with a length, exactly when its top bit is clear;
   otherwise it gives up on the packed one, and takes the other for zero.
   */
  lemma BrowserReadsLowPointers(ptr: Word, len: Word)
    ensures UnpackUnsigned(Pack(ptr, len)) == (if ptr < 0x8000_0000 then Some((ptr, len)) else None)
    ensures PointerFromNumber(AsI32(ptr)) == (if ptr < 0x8000_0000 then ptr else 0)
  {
    UnpacksLow(ptr, len);
    PointerIsLow(ptr);
  }

  lemma UnpacksLow(ptr: Word, len: Word)
    ensures UnpackUnsigned(Pack(ptr, len)) == (if IsHigh(ptr) then None else Some((ptr, len)))
  {
    PackedSign(ptr, len);
    if !IsHigh(ptr) {
      HalvesOf(ptr, len);
      var packed := Pack(ptr, len);
      assert packed / TWO_32 == ptr && packed % TWO_32 == len;
      assert AsU32(ptr) == ptr;
    }
  }

  lemma PointerIsLow(ptr: Word)
    ensures PointerFromNumber(AsI32(ptr)) == (if IsHigh(ptr) then 0 else ptr)
  {
  }

  lemma HalvesOf(high: Word, low: Word)
    ensures (high * TWO_32 + low) / TWO_32 == high && (high * TWO_32 + low) % TWO_32 == low
  {
  }
}
