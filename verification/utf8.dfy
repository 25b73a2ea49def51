/**
 * UTF-8 as Go uses it for strings.
 *
 * A Go string is a sequence of bytes. Ranging over it, converting it to
 * `[]rune` and counting its runes all decode it with the rules of Go's
 * `unicode/utf8.DecodeRune`: every well-formed sequence yields its code
 * point, and every byte that does not start a well-formed sequence yields
 * U+FFFD and a width of one byte. Converting runes back to a string encodes
 * each of them. This module states those rules and proves the facts about
 * them that the string helpers rely on: decoding undoes encoding, a valid
 * string re-encodes to itself, and decoding can be split at a valid prefix
 * or in front of a byte that starts a sequence.
 */
module Utf8 {

  /** One byte of a Go string. */
  type Byte = b: int | 0 <= b < 0x100

  /** A Unicode scalar value: every rune the decoder yields is one. */
  type Rune = r: int | 0 <= r < 0x11_0000 && !(0xD800 <= r < 0xE000)

  /** U+FFFD, which the decoder yields for a malformed byte. */
  const RuneError: Rune := 0xFFFD

  /** A byte of the form 10xxxxxx, which can only continue a sequence. */
  predicate IsContinuation(b: Byte) {
    0x80 <= b < 0xC0
  }

  /** The bytes of one rune: what `string(r)` and `utf8.EncodeRune` produce. */
  function EncodeRune(r: Rune): (bs: seq<Byte>)
    ensures 1 <= |bs| <= 4
    ensures !IsContinuation(bs[0])
    ensures forall i :: 1 <= i < |bs| ==> IsContinuation(bs[i])
  {
    if r < 0x80 then
      [r]
    else if r < 0x800 then
      [0xC0 + r / 0x40, 0x80 + r % 0x40]
    else if r < 0x1_0000 then
      [0xE0 + r / 0x1000, 0x80 + (r / 0x40) % 0x40, 0x80 + r % 0x40]
    else
      [0xF0 + r / 0x4_0000, 0x80 + (r / 0x1000) % 0x40, 0x80 + (r / 0x40) % 0x40, 0x80 + r % 0x40]
  }

  /**
   * The first rune of `p` and the number of bytes it takes, as Go's
   * `utf8.DecodeRune` computes them: an empty input gives (U+FFFD, 0); a
   * leading byte that cannot start a sequence, a sequence cut short, or a
   * second, third or fourth byte outside its accepted range gives (U+FFFD, 1).
   * The accepted range of the second byte excludes overlong forms (after
   * 0xE0 and 0xF0), surrogates (after 0xED) and code points past U+10FFFF
   * (after 0xF4).
   */
  function DecodeRune(p: seq<Byte>): (rw: (Rune, nat))
    ensures p == [] ==> rw == (RuneError, 0)
    ensures p != [] ==> 1 <= rw.1 <= |p| && rw.1 <= 4
  {
    if |p| == 0 then
      (RuneError, 0)
    else if p[0] < 0x80 then
      (p[0], 1)
    else if p[0] < 0xC2 || 0xF4 < p[0] then
      (RuneError, 1)
    else
      var b0: int := p[0];
      var size := if b0 < 0xE0 then 2 else if b0 < 0xF0 then 3 else 4;
      var lo := if b0 == 0xE0 then 0xA0 else if b0 == 0xF0 then 0x90 else 0x80;
      var hi := if b0 == 0xED then 0x9F else if b0 == 0xF4 then 0x8F else 0xBF;
      if |p| < size then
        (RuneError, 1)
      else if p[1] < lo || hi < p[1] then
        (RuneError, 1)
      else
        var b1: int := p[1];
        if size == 2 then
          ((b0 - 0xC0) * 0x40 + (b1 - 0x80), 2)
        else if !IsContinuation(p[2]) then
          (RuneError, 1)
        else
          var b2: int := p[2];
          if size == 3 then
            ((b0 - 0xE0) * 0x1000 + (b1 - 0x80) * 0x40 + (b2 - 0x80), 3)
          else if !IsContinuation(p[3]) then
            (RuneError, 1)
          else
            var b3: int := p[3];
            ((b0 - 0xF0) * 0x4_0000 + (b1 - 0x80) * 0x1000 + (b2 - 0x80) * 0x40 + (b3 - 0x80), 4)
  }

  /** True when the decoder reports a malformed byte at the start of `p`. */
  predicate IsDecodeError(p: seq<Byte>) {
    DecodeRune(p) == (RuneError, 1)
  }

  /** The runes of `s`, in order: `[]rune(s)` and the runes a `range` loop visits. */
  function Decode(s: seq<Byte>): (rs: seq<Rune>)
    ensures |rs| <= |s|
    ensures s != [] ==> rs != []
    decreases |s|
  {
    if s == [] then [] else [DecodeRune(s).0] + Decode(s[DecodeRune(s).1..])
  }

  /** `utf8.RuneCountInString`: one per decoding step. */
  function RuneCount(s: seq<Byte>): nat {
    |Decode(s)|
  }

  /** `string(rs)` for a slice of runes. */
  function Encode(rs: seq<Rune>): (s: seq<Byte>)
    ensures |rs| <= |s| <= 4 * |rs|
  {
    if rs == [] then [] else EncodeRune(rs[0]) + Encode(rs[1..])
  }

  /** `utf8.ValidString`: no decoding step meets a malformed byte. */
  predicate Valid(s: seq<Byte>)
    decreases |s|
  {
    s == [] || (!IsDecodeError(s) && Valid(s[DecodeRune(s).1..]))
  }

  // ---------------------------------------------------------------------
  // Encoding and decoding one rune

  /** Decoding the bytes of a rune gives that rune back, whatever follows. */
  lemma DecodeRuneOfEncodeRune(r: Rune, rest: seq<Byte>)
    ensures DecodeRune(EncodeRune(r) + rest) == (r, |EncodeRune(r)|)
  {
    if r < 0x80 {
    } else if r < 0x800 {
      DecodeTwoBytes(r, rest);
    } else if r < 0x1_0000 {
      DecodeThreeBytes(r, rest);
    } else {
      DecodeFourBytes(r, rest);
    }
  }

  /** Decoding the two bytes of a rune in U+0080..U+07FF. */
  lemma DecodeTwoBytes(r: Rune, rest: seq<Byte>)
    requires 0x80 <= r < 0x800
    ensures DecodeRune(EncodeRune(r) + rest) == (r, 2)
  {
    var p := EncodeRune(r) + rest;
    var b0, b1 := 0xC0 + r / 0x40, 0x80 + r % 0x40;
    assert p[0] == b0 && p[1] == b1;
    assert 0xC2 <= b0 < 0xE0;
    assert (b0 - 0xC0) * 0x40 + (b1 - 0x80) == r;
  }

  /** Decoding the three bytes of a rune in U+0800..U+FFFF. */
  lemma DecodeThreeBytes(r: Rune, rest: seq<Byte>)
    requires 0x800 <= r < 0x1_0000
    ensures DecodeRune(EncodeRune(r) + rest) == (r, 3)
  {
    var p := EncodeRune(r) + rest;
    var b0, b1, b2 := 0xE0 + r / 0x1000, 0x80 + (r / 0x40) % 0x40, 0x80 + r % 0x40;
    ThreeByteRanges(r);
    assert p[0] == b0 && p[1] == b1 && p[2] == b2;
  }

  /** The bytes of a rune in U+0800..U+FFFF lie in the ranges the decoder accepts and recombine to it. */
  lemma ThreeByteRanges(r: int)
    requires 0x800 <= r < 0x1_0000 && !(0xD800 <= r < 0xE000)
    ensures var b0, b1, b2 := 0xE0 + r / 0x1000, 0x80 + (r / 0x40) % 0x40, 0x80 + r % 0x40;
      0xE0 <= b0 < 0xF0 && 0x80 <= b1 < 0xC0 && 0x80 <= b2 < 0xC0
      && (b0 == 0xE0 ==> 0xA0 <= b1) && (b0 == 0xED ==> b1 <= 0x9F)
      && (b0 - 0xE0) * 0x1000 + (b1 - 0x80) * 0x40 + (b2 - 0x80) == r
  {
    assert r / 0x1000 == (r / 0x40) / 0x40;
    assert r / 0x40 == (r / 0x1000) * 0x40 + (r / 0x40) % 0x40;
  }

  /** Decoding the four bytes of a rune in U+10000..U+10FFFF. */
  lemma DecodeFourBytes(r: Rune, rest: seq<Byte>)
    requires 0x1_0000 <= r
    ensures DecodeRune(EncodeRune(r) + rest) == (r, 4)
  {
    var p := EncodeRune(r) + rest;
    var b0, b1 := 0xF0 + r / 0x4_0000, 0x80 + (r / 0x1000) % 0x40;
    var b2, b3 := 0x80 + (r / 0x40) % 0x40, 0x80 + r % 0x40;
    FourByteRanges(r);
    assert p[0] == b0 && p[1] == b1 && p[2] == b2 && p[3] == b3;
  }

  /** The bytes of a rune in U+10000..U+10FFFF lie in the ranges the decoder accepts and recombine to it. */
  lemma FourByteRanges(r: int)
    requires 0x1_0000 <= r < 0x11_0000
    ensures var b0, b1 := 0xF0 + r / 0x4_0000, 0x80 + (r / 0x1000) % 0x40;
      var b2, b3 := 0x80 + (r / 0x40) % 0x40, 0x80 + r % 0x40;
      0xF0 <= b0 <= 0xF4 && 0x80 <= b1 < 0xC0 && 0x80 <= b2 < 0xC0 && 0x80 <= b3 < 0xC0
      && (b0 == 0xF0 ==> 0x90 <= b1) && (b0 == 0xF4 ==> b1 <= 0x8F)
      && (b0 - 0xF0) * 0x4_0000 + (b1 - 0x80) * 0x1000 + (b2 - 0x80) * 0x40 + (b3 - 0x80) == r
  {
    assert r / 0x1000 == (r / 0x40) / 0x40;
    assert r / 0x4_0000 == (r / 0x1000) / 0x40;
    assert r / 0x40 == (r / 0x1000) * 0x40 + (r / 0x40) % 0x40;
    assert r / 0x1000 == (r / 0x4_0000) * 0x40 + (r / 0x1000) % 0x40;
  }

  /** Arithmetic of a two-byte sequence: the encoder recovers the bytes the decoder combined. */
  lemma TwoByteDigits(b0: int, b1: int)
    requires 0xC2 <= b0 < 0xE0 && 0x80 <= b1 < 0xC0
    ensures var r := (b0 - 0xC0) * 0x40 + (b1 - 0x80);
      0x80 <= r < 0x800 && 0xC0 + r / 0x40 == b0 && 0x80 + r % 0x40 == b1
  {
  }

  /** Arithmetic of a three-byte sequence. */
  lemma ThreeByteDigits(b0: int, b1: int, b2: int)
    requires 0xE0 <= b0 < 0xF0 && 0x80 <= b1 < 0xC0 && 0x80 <= b2 < 0xC0
    requires b0 == 0xE0 ==> 0xA0 <= b1
    ensures var r := (b0 - 0xE0) * 0x1000 + (b1 - 0x80) * 0x40 + (b2 - 0x80);
      0x800 <= r < 0x1_0000 && 0xE0 + r / 0x1000 == b0
      && 0x80 + (r / 0x40) % 0x40 == b1 && 0x80 + r % 0x40 == b2
  {
    var r := (b0 - 0xE0) * 0x1000 + (b1 - 0x80) * 0x40 + (b2 - 0x80);
    assert r / 0x40 == (b0 - 0xE0) * 0x40 + (b1 - 0x80);
  }

  /** Arithmetic of a four-byte sequence. */
  lemma FourByteDigits(b0: int, b1: int, b2: int, b3: int)
    requires 0xF0 <= b0 <= 0xF4 && 0x80 <= b1 < 0xC0 && 0x80 <= b2 < 0xC0 && 0x80 <= b3 < 0xC0
    requires b0 == 0xF0 ==> 0x90 <= b1
    ensures var r := (b0 - 0xF0) * 0x4_0000 + (b1 - 0x80) * 0x1000 + (b2 - 0x80) * 0x40 + (b3 - 0x80);
      0x1_0000 <= r && 0xF0 + r / 0x4_0000 == b0 && 0x80 + (r / 0x1000) % 0x40 == b1
      && 0x80 + (r / 0x40) % 0x40 == b2 && 0x80 + r % 0x40 == b3
  {
    var r := (b0 - 0xF0) * 0x4_0000 + (b1 - 0x80) * 0x1000 + (b2 - 0x80) * 0x40 + (b3 - 0x80);
    assert r / 0x40 == (b0 - 0xF0) * 0x1000 + (b1 - 0x80) * 0x40 + (b2 - 0x80);
    assert r / 0x1000 == (b0 - 0xF0) * 0x40 + (b1 - 0x80);
  }

  /** The bytes a successful decoding step consumed are the encoding of the rune it produced. */
  lemma EncodeRuneOfDecodeRune(p: seq<Byte>)
    requires p != [] && !IsDecodeError(p)
    ensures EncodeRune(DecodeRune(p).0) == p[..DecodeRune(p).1]
  {
    var (r, w) := DecodeRune(p);
    if w == 2 {
      TwoByteDigits(p[0], p[1]);
      assert p[..2] == [p[0], p[1]];
    } else if w == 3 {
      ThreeByteDigits(p[0], p[1], p[2]);
      assert p[..3] == [p[0], p[1], p[2]];
    } else if w == 4 {
      FourByteDigits(p[0], p[1], p[2], p[3]);
      assert p[..4] == [p[0], p[1], p[2], p[3]];
    } else {
      assert p[..1] == [p[0]];
    }
  }

  /** A successful decoding step does not look past the bytes it consumes. */
  lemma DecodeRuneExtend(p: seq<Byte>, t: seq<Byte>)
    requires p != [] && !IsDecodeError(p)
    ensures DecodeRune(p + t) == DecodeRune(p)
  {
    var q := p + t;
    assert q[..|p|] == p;
    assert q[0] == p[0];
    if |p| >= 2 { assert q[1] == p[1]; }
    if |p| >= 3 { assert q[2] == p[2]; }
    if |p| >= 4 { assert q[3] == p[3]; }
  }

  /**
   * A decoding step that starts in `t` never reaches into `u` when `u`
   * begins with a byte that cannot continue a sequence.
   */
  lemma DecodeRuneAtLead(t: seq<Byte>, u: seq<Byte>)
    requires t != []
    requires u == [] || !IsContinuation(u[0])
    ensures DecodeRune(t + u) == DecodeRune(t)
  {
    var q := t + u;
    assert q[0] == t[0];
    if |t| >= 2 { assert q[1] == t[1]; }
    if |t| >= 3 { assert q[2] == t[2]; }
    if |t| >= 4 { assert q[3] == t[3]; }
    if |t| < 4 && |q| > |t| { assert q[|t|] == u[0]; }
  }

  // ---------------------------------------------------------------------
  // Whole strings

  /** `string` of a concatenation of rune slices is the concatenation of the strings. */
  lemma {:induction false} EncodeAppend(a: seq<Rune>, b: seq<Rune>)
    ensures Encode(a + b) == Encode(a) + Encode(b)
  {
    if a == [] {
      assert a + b == b;
    } else {
      assert (a + b)[0] == a[0];
      assert (a + b)[1..] == a[1..] + b;
      EncodeAppend(a[1..], b);
    }
  }

  /** Round trip: converting runes to a string and back gives the same runes. */
  lemma {:induction false} DecodeOfEncode(rs: seq<Rune>)
    ensures Decode(Encode(rs)) == rs
  {
    if rs != [] {
      var s := Encode(rs);
      DecodeRuneOfEncodeRune(rs[0], Encode(rs[1..]));
      assert s[|EncodeRune(rs[0])|..] == Encode(rs[1..]);
      DecodeOfEncode(rs[1..]);
    }
  }

  /** Every string produced by encoding runes is valid UTF-8. */
  lemma {:induction false} ValidEncode(rs: seq<Rune>)
    ensures Valid(Encode(rs))
  {
    if rs != [] {
      var s := Encode(rs);
      DecodeRuneOfEncodeRune(rs[0], Encode(rs[1..]));
      assert |EncodeRune(RuneError)| == 3;
      assert s[|EncodeRune(rs[0])|..] == Encode(rs[1..]);
      ValidEncode(rs[1..]);
    }
  }

  /** Decoding a non-empty string yields its first rune, then the runes after it. */
  lemma DecodeFirst(s: seq<Byte>)
    requires s != []
    ensures Decode(s) == [DecodeRune(s).0] + Decode(s[DecodeRune(s).1..])
  {
  }

  /** Encoding a rune in front of more runes puts its bytes in front. */
  lemma EncodeCons(r: Rune, rs: seq<Rune>)
    ensures Encode([r] + rs) == EncodeRune(r) + Encode(rs)
  {
    assert ([r] + rs)[1..] == rs;
  }

  /** A sequence is its first `w` elements followed by the rest. */
  lemma SplitAt<T>(s: seq<T>, w: nat)
    requires w <= |s|
    ensures s == s[..w] + s[w..]
  {
  }

  /** Round trip: a valid string converted to runes and back is the same string. */
  lemma {:induction false} EncodeOfDecode(s: seq<Byte>)
    requires Valid(s)
    ensures Encode(Decode(s)) == s
    decreases |s|
  {
    if s != [] {
      var (r, w) := DecodeRune(s);
      DecodeFirst(s);
      EncodeCons(r, Decode(s[w..]));
      EncodeRuneOfDecodeRune(s);
      EncodeOfDecode(s[w..]);
      SplitAt(s, w);
    }
  }

  /** A string is valid exactly when converting it to runes and back loses nothing. */
  lemma ValidIffRoundTrip(s: seq<Byte>)
    ensures Valid(s) <==> Encode(Decode(s)) == s
  {
    if Valid(s) {
      EncodeOfDecode(s);
    } else {
      ValidEncode(Decode(s));
    }
  }

  /** A valid non-empty string does not begin with a continuation byte. */
  lemma ValidStartsWithLead(s: seq<Byte>)
    requires Valid(s) && s != []
    ensures !IsContinuation(s[0])
  {
  }

  /** Decoding splits at the end of a valid prefix. */
  lemma {:induction false} DecodeAppendValid(p: seq<Byte>, t: seq<Byte>)
    requires Valid(p)
    ensures Decode(p + t) == Decode(p) + Decode(t)
    decreases |p|
  {
    if p == [] {
      assert p + t == t;
    } else {
      var w := DecodeRune(p).1;
      DecodeRuneExtend(p, t);
      assert (p + t)[w..] == p[w..] + t;
      DecodeAppendValid(p[w..], t);
    }
  }

  /** Decoding splits in front of a byte that cannot continue a sequence. */
  lemma {:induction false} DecodeAppendAtLead(t: seq<Byte>, u: seq<Byte>)
    requires u == [] || !IsContinuation(u[0])
    ensures Decode(t + u) == Decode(t) + Decode(u)
    decreases |t|
  {
    if t == [] {
      assert t + u == u;
    } else {
      var w := DecodeRune(t).1;
      DecodeRuneAtLead(t, u);
      assert (t + u)[w..] == t[w..] + u;
      DecodeAppendAtLead(t[w..], u);
    }
  }

  /** Validity splits in front of a byte that cannot continue a sequence. */
  lemma {:induction false} ValidAppendAtLead(t: seq<Byte>, u: seq<Byte>)
    requires u == [] || !IsContinuation(u[0])
    ensures Valid(t + u) <==> Valid(t) && Valid(u)
    decreases |t|
  {
    if t == [] {
      assert t + u == u;
    } else {
      var w := DecodeRune(t).1;
      DecodeRuneAtLead(t, u);
      assert (t + u)[w..] == t[w..] + u;
      ValidAppendAtLead(t[w..], u);
    }
  }

  /** Encoding and decoding preserve the number of runes in the sense of `utf8.RuneCountInString`. */
  lemma RuneCountOfEncode(rs: seq<Rune>)
    ensures RuneCount(Encode(rs)) == |rs|
  {
    DecodeOfEncode(rs);
  }
  /** Validity of a rune followed by more bytes is the validity of what follows. */
  lemma ValidAfterRune(r: Rune, rest: seq<Byte>)
    ensures Valid(EncodeRune(r) + rest) <==> Valid(rest)
  {
    var p := EncodeRune(r) + rest;
    DecodeRuneOfEncodeRune(r, rest);
    assert |EncodeRune(RuneError)| == 3;
    assert p[|EncodeRune(r)|..] == rest;
  }

  /** A byte prefix `Encode(a)` of `Encode(b)` leaves the runes of `a` as a prefix of `b`. */
  lemma EncodePrefixRunes(a: seq<Rune>, b: seq<Rune>, t: seq<Byte>)
    requires Encode(b) == Encode(a) + t
    ensures b == a + Decode(t)
  {
    ValidEncode(a);
    DecodeAppendValid(Encode(a), t);
    DecodeOfEncode(a);
    DecodeOfEncode(b);
  }

  /** A byte suffix `Encode(a)` of `Encode(b)` leaves the runes of `a` as a suffix of `b`. */
  lemma EncodeSuffixRunes(a: seq<Rune>, b: seq<Rune>, t: seq<Byte>)
    requires Encode(b) == t + Encode(a)
    ensures b == Decode(t) + a
  {
    var ea := Encode(a);
    assert ea == [] || !IsContinuation(ea[0]);
    DecodeAppendAtLead(t, ea);
    DecodeOfEncode(a);
    DecodeOfEncode(b);
  }

  /** `p` is a prefix of `s`: what `strings.HasPrefix(s, p)` tests on bytes. */
  predicate IsPrefix<T(==)>(p: seq<T>, s: seq<T>) {
    |p| <= |s| && s[..|p|] == p
  }

  /** `q` is a suffix of `s`: what `strings.HasSuffix(s, q)` tests on bytes. */
  predicate IsSuffix<T(==)>(q: seq<T>, s: seq<T>) {
    |q| <= |s| && s[|s| - |q|..] == q
  }

  /** A sequence with prefix `p` is `p` followed by the rest. */
  lemma SplitAfterPrefix<T>(s: seq<T>, p: seq<T>)
    requires IsPrefix(p, s)
    ensures s == p + s[|p|..]
  {
  }

  /** A sequence with suffix `q` is the rest followed by `q`. */
  lemma SplitBeforeSuffix<T>(s: seq<T>, q: seq<T>)
    requires IsSuffix(q, s)
    ensures s == s[..|s| - |q|] + q
  {
  }

  /** One rune slice encodes to a byte prefix of another's encoding exactly when it is a prefix of it. */
  lemma EncodePrefixIff(a: seq<Rune>, b: seq<Rune>)
    ensures IsPrefix(Encode(a), Encode(b)) <==> IsPrefix(a, b)
  {
    var ea, eb := Encode(a), Encode(b);
    if IsPrefix(a, b) {
      SplitAfterPrefix(b, a);
      EncodeAppend(a, b[|a|..]);
    }
    if IsPrefix(ea, eb) {
      SplitAfterPrefix(eb, ea);
      EncodePrefixRunes(a, b, eb[|ea|..]);
      var d := Decode(eb[|ea|..]);
      assert (a + d)[..|a|] == a;
    }
  }

  /** A rune suffix encodes to a byte suffix. */
  lemma EncodeKeepsSuffix(a: seq<Rune>, b: seq<Rune>)
    requires IsSuffix(a, b)
    ensures IsSuffix(Encode(a), Encode(b))
  {
    var front := b[..|b| - |a|];
    SplitBeforeSuffix(b, a);
    EncodeAppend(front, a);
    var ef, ea := Encode(front), Encode(a);
    assert (ef + ea)[|ef + ea| - |ea|..] == ea;
  }

  /** A byte suffix that is an encoding is the encoding of a rune suffix. */
  lemma EncodeReflectsSuffix(a: seq<Rune>, b: seq<Rune>)
    requires IsSuffix(Encode(a), Encode(b))
    ensures IsSuffix(a, b)
  {
    var ea, eb := Encode(a), Encode(b);
    SplitBeforeSuffix(eb, ea);
    var t := eb[..|eb| - |ea|];
    EncodeSuffixRunes(a, b, t);
    var d := Decode(t);
    assert (d + a)[|d + a| - |a|..] == a;
  }

  /** One rune slice encodes to a byte suffix of another's encoding exactly when it is a suffix of it. */
  lemma EncodeSuffixIff(a: seq<Rune>, b: seq<Rune>)
    ensures IsSuffix(Encode(a), Encode(b)) <==> IsSuffix(a, b)
  {
    if IsSuffix(a, b) {
      EncodeKeepsSuffix(a, b);
    }
    if IsSuffix(Encode(a), Encode(b)) {
      EncodeReflectsSuffix(a, b);
    }
  }

  /** A string that is not valid decodes to at least one U+FFFD. */
  lemma {:induction false} InvalidHasRuneError(s: seq<Byte>)
    requires !Valid(s)
    ensures RuneError in Decode(s)
    decreases |s|
  {
    var w := DecodeRune(s).1;
    assert Decode(s) == [DecodeRune(s).0] + Decode(s[w..]);
    if !IsDecodeError(s) {
      InvalidHasRuneError(s[w..]);
    }
  }
}
