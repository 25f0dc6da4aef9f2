/** Fixed-width big-endian integers, as encoding/binary's BigEndian byte order reads and
    writes them. Unsigned values are plain base-256 numerals; signed values are their
    two's-complement reinterpretation at the given width. */
module BigEndian {

  /** A Go byte. */
  newtype byte = b: int | 0 <= b < 256

  type Bytes = seq<byte>

  /** 256^w: the number of distinct values a w-byte word can hold. */
  function Pow256(w: nat): (p: nat)
    ensures p >= 1
    ensures w >= 1 ==> p % 2 == 0
  {
    if w == 0 then 1 else 256 * Pow256(w - 1)
  }

  /** The unsigned value of `s`, most significant byte first. */
  function Unsigned(s: Bytes): (n: nat)
    ensures n < Pow256(|s|)
  {
    if s == [] then 0 else Unsigned(s[..|s| - 1]) * 256 + s[|s| - 1] as nat
  }

  /** The `w`-byte big-endian representation of `n`. */
  function Encode(n: nat, w: nat): (s: Bytes)
    requires n < Pow256(w)
    ensures |s| == w
  {
    if w == 0 then [] else Encode(n / 256, w - 1) + [(n % 256) as byte]
  }

  /** Reading back what Encode wrote gives the number that was written. */
  lemma {:induction false} UnsignedEncode(n: nat, w: nat)
    requires n < Pow256(w)
    ensures Unsigned(Encode(n, w)) == n
  {
    if w > 0 {
      var s, q, r := Encode(n, w), n / 256, n % 256;
      assert s[..w - 1] == Encode(q, w - 1);
      UnsignedEncode(q, w - 1);
      assert Unsigned(s) == q * 256 + r;
    }
  }

  /** Encoding a word's value at the word's own width gives the word back: Unsigned is
      a bijection between w-byte words and [0, 256^w). */
  lemma {:induction false} EncodeUnsigned(s: Bytes)
    ensures Encode(Unsigned(s), |s|) == s
  {
    if s != [] {
      var k := |s| - 1;
      var n := Unsigned(s);
      assert n / 256 == Unsigned(s[..k]);
      assert n % 256 == s[k] as nat;
      EncodeUnsigned(s[..k]);
      assert s == s[..k] + [s[k]];
    }
  }

  /** Half the range of a w-byte word: the first unsigned value whose top bit is set. */
  function Half(w: nat): (h: int)
    requires w >= 1
    ensures h >= 1 && 2 * h == Pow256(w)
  {
    Pow256(w) / 2
  }

  /** Two's-complement reading of an unsigned w-byte value. */
  function ToSigned(u: nat, w: nat): (n: int)
    requires w >= 1 && u < Pow256(w)
    ensures -Half(w) <= n < Half(w)
    ensures n >= 0 <==> u < Half(w)
  {
    if u < Half(w) then u else u - Pow256(w)
  }

  /** The unsigned w-byte pattern that stands for the signed value `n`. */
  function FromSigned(n: int, w: nat): (u: nat)
    requires w >= 1 && -Half(w) <= n < Half(w)
    ensures u < Pow256(w)
    ensures ToSigned(u, w) == n
  {
    if n < 0 then n + Pow256(w) else n
  }

  /** The two's-complement reading is onto the unsigned patterns as well. */
  lemma FromSignedToSigned(u: nat, w: nat)
    requires w >= 1 && u < Pow256(w)
    ensures FromSigned(ToSigned(u, w), w) == u
  {
  }
}
