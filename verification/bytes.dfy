/**
 Bounds-checked access to a memory-mapped image, seen as an immutable byte
 sequence: fixed-width little-endian fields and NUL-terminated strings.
 */
module Bytes {
  import opened Results

  /** One byte of the image. */
  newtype byte = x: int | 0 <= x < 256

  /** 256 to the power `n`: one more than the largest `n`-byte field. */
  function Pow256(n: nat): (p: nat)
    ensures p > 0
  {
    if n == 0 then 1 else 256 * Pow256(n - 1)
  }

  /** The unsigned value of a little-endian byte string (least significant byte first). */
  function DecodeLE(bs: seq<byte>): (v: nat)
    ensures v < Pow256(|bs|)
    decreases |bs|
  {
    if |bs| == 0 then 0 else bs[0] as nat + 256 * DecodeLE(bs[1..])
  }

  /** The `w`-byte little-endian representation of `v`. */
  function EncodeLE(v: nat, w: nat): (bs: seq<byte>)
    requires v < Pow256(w)
    ensures |bs| == w
    decreases w
  {
    if w == 0 then []
    else
      DivSplit(v, Pow256(w - 1));
      [(v % 256) as byte] + EncodeLE(v / 256, w - 1)
  }

  /** The low byte and the remaining digits of a value below `256 * p`. */
  lemma DivSplit(v: nat, p: nat)
    requires v < 256 * p
    ensures v == v % 256 + 256 * (v / 256)
    ensures v / 256 < p
  {
  }

  /** Decoding inverts encoding. */
  lemma {:induction false} DecodeEncode(v: nat, w: nat)
    requires v < Pow256(w)
    ensures DecodeLE(EncodeLE(v, w)) == v
    decreases w
  {
    if w > 0 {
      DivSplit(v, Pow256(w - 1));
      var q := v / 256;
      var low := v % 256;
      var bs := EncodeLE(v, w);
      assert bs == [low as byte] + EncodeLE(q, w - 1);
      assert bs[1..] == EncodeLE(q, w - 1);
      assert (low as byte) as nat == low;
      DecodeEncode(q, w - 1);
      assert DecodeLE(bs) == low + 256 * q;
    }
  }

  /** Encoding inverts decoding: a field's bytes are determined by its value and width. */
  lemma {:induction false} EncodeDecode(bs: seq<byte>)
    ensures EncodeLE(DecodeLE(bs), |bs|) == bs
    decreases |bs|
  {
    if |bs| > 0 {
      var v := DecodeLE(bs);
      var rest := DecodeLE(bs[1..]);
      DigitSplit(bs[0] as nat, rest);
      EncodeDecode(bs[1..]);
      assert ((v % 256) as byte) == bs[0];
      assert EncodeLE(v, |bs|) == [bs[0]] + EncodeLE(rest, |bs| - 1);
      assert bs == [bs[0]] + bs[1..];
    }
  }

  /** The low byte and the remaining digits of `b + 256 * rest`. */
  lemma DigitSplit(b: nat, rest: nat)
    requires b < 256
    ensures (b + 256 * rest) % 256 == b
    ensures (b + 256 * rest) / 256 == rest
  {
  }

  /**
   The unsigned `w`-byte little-endian field at offset `off` of `img`, or
   `None` when the field does not lie wholly inside the image.
   */
  function ReadLE(img: seq<byte>, off: nat, w: nat): (r: Option<nat>)
    ensures r.Some? <==> off + w <= |img|
    ensures r.Some? ==> r.value < Pow256(w)
  {
    if off + w <= |img| then Some(DecodeLE(img[off..off + w])) else None
  }

  /** A field read from the image is the value whose encoding is exactly the bytes it occupies. */
  lemma ReadLEEncodes(img: seq<byte>, off: nat, w: nat)
    requires off + w <= |img|
    ensures ReadLE(img, off, w).Some?
    ensures EncodeLE(ReadLE(img, off, w).value, w) == img[off..off + w]
  {
    EncodeDecode(img[off..off + w]);
  }

  /** A field whose bytes are the encoding of `v` reads back as `v`. */
  lemma FieldRoundTrip(img: seq<byte>, off: nat, v: nat, w: nat)
    requires v < Pow256(w)
    requires off + w <= |img| && img[off..off + w] == EncodeLE(v, w)
    ensures ReadLE(img, off, w) == Some(v)
  {
    DecodeEncode(v, w);
  }

  /** The bytes of a C string: no NUL inside (the terminator is not part of it). */
  ghost predicate NulFree(s: seq<byte>) {
    forall i | 0 <= i < |s| :: s[i] != 0
  }

  /**
   The NUL-terminated string that starts at offset `off` of `img`, without its
   terminator; `None` when no NUL byte occurs between `off` and the end of the
   image.
   */
  function CStringAt(img: seq<byte>, off: nat): (r: Option<seq<byte>>)
    ensures r.Some? ==>
      && NulFree(r.value)
      && off + |r.value| < |img|
      && img[off..off + |r.value|] == r.value
      && img[off + |r.value|] == 0
    ensures r.None? <==> forall i | off <= i < |img| :: img[i] != 0
    decreases |img| - off
  {
    if off >= |img| then None
    else if img[off] == 0 then Some([])
    else
      match CStringAt(img, off + 1)
      case None => None
      case Some(s) => Some([img[off]] + s)
  }

  /** A NUL-free string followed by a NUL reads back as itself. */
  lemma CStringRoundTrip(pre: seq<byte>, s: seq<byte>, post: seq<byte>)
    requires NulFree(s)
    ensures CStringAt(pre + s + [0] + post, |pre|) == Some(s)
  {
    var img := pre + s + [0] + post;
    assert img[|pre| + |s|] == 0;
    var t := CStringAt(img, |pre|).value;
    if |t| != |s| {
      assert false;
    }
    assert t == img[|pre|..|pre| + |s|] == s;
  }

  /**
   The C `strcmp(&img[at], lit) == 0`, read as lazily as `strcmp` reads: the
   comparison stops at the first differing byte or at a common NUL. `lit`
   ends at its first NUL, or at its end. `None` when the image ends before
   the comparison is decided (`strcmp` would read past the mapping).
   */
  function StrEq(img: seq<byte>, at: nat, lit: seq<byte>): (r: Option<bool>)
    ensures r.None? <==> |img| <= at + |lit| && forall i | at <= i < |img| :: img[i] == lit[i - at] && img[i] != 0
    decreases |lit|
  {
    if at >= |img| then None
    else
      var c := img[at];
      var l := if |lit| > 0 then lit[0] else 0;
      if c != l then Some(false)
      else if c == 0 then Some(true)
      else StrEq(img, at + 1, lit[1..])
  }

  /**
   For a NUL-free `lit`, the comparison is decided exactly as comparing the
   NUL-terminated string at `at` with `lit`: equal if and only if that string
   is `lit`, and undecided only where the string is unterminated.
   */
  lemma {:induction false} StrEqMeaning(img: seq<byte>, at: nat, lit: seq<byte>)
    requires NulFree(lit)
    ensures StrEq(img, at, lit) == Some(true) <==> CStringAt(img, at) == Some(lit)
    ensures CStringAt(img, at).Some? ==> StrEq(img, at, lit) == Some(CStringAt(img, at).value == lit)
    ensures StrEq(img, at, lit).None? ==> CStringAt(img, at).None?
    decreases |lit|
  {
    if at < |img| {
      var c := img[at];
      if c != 0 && |lit| > 0 && c == lit[0] {
        assert NulFree(lit[1..]);
        StrEqMeaning(img, at + 1, lit[1..]);
        assert lit == [c] + lit[1..];
        if CStringAt(img, at + 1).Some? {
          var s' := CStringAt(img, at + 1).value;
          assert CStringAt(img, at) == Some([c] + s');
          assert ([c] + s' == lit) == (s' == lit[1..]) by {
            if [c] + s' == lit {
              assert s' == ([c] + s')[1..];
            }
          }
        }
      } else if c != 0 && CStringAt(img, at).Some? {
        assert CStringAt(img, at).value[0] == c;
      }
    }
  }
}
