/**
 * String helpers of package `xstrings`.
 *
 * A Go string is a sequence of bytes (`seq<Byte>`); the helpers that work on
 * runes decode it with the rules of module `Utf8`. The case and class tables
 * of package `unicode` (`unicode.ToUpper`, `unicode.ToLower`,
 * `unicode.IsUpper`, `unicode.IsLetter`, `unicode.IsDigit`) are parameters,
 * so every fact proved here holds whatever those tables say.
 */
module XStrings {
  import opened Utf8

  // ---------------------------------------------------------------------
  // Capitalize

  /**
   * `Capitalize` as written: the upper-cased first rune followed by the
   * string from its SECOND BYTE on, whatever the width of the first rune.
   */
  function CapitalizeAsWritten(str: seq<Byte>, toUpper: Rune -> Rune): (r: seq<Byte>)
    ensures str == [] <==> r == []
  {
    if str == [] then [] else EncodeRune(toUpper(DecodeRune(str).0)) + str[1..]
  }

  /**
   * `Capitalize` as its documentation describes it: the upper-cased first
   * rune followed by the string after that rune.
   */
  function Capitalize(str: seq<Byte>, toUpper: Rune -> Rune): (r: seq<Byte>)
    ensures str == [] <==> r == []
  {
    if str == [] then [] else EncodeRune(toUpper(DecodeRune(str).0)) + str[DecodeRune(str).1..]
  }

  /** Decoding a rune followed by more bytes yields that rune, then the runes of what follows. */
  lemma DecodeAfterRune(c: Rune, rest: seq<Byte>)
    ensures Decode(EncodeRune(c) + rest) == [c] + Decode(rest)
  {
    var p := EncodeRune(c) + rest;
    DecodeRuneOfEncodeRune(c, rest);
    assert p[|EncodeRune(c)|..] == rest;
  }

  /** The first rune is upper-cased and every later rune is kept, for any string. */
  lemma CapitalizeRunes(str: seq<Byte>, toUpper: Rune -> Rune)
    requires str != []
    ensures Decode(Capitalize(str, toUpper)) == [toUpper(Decode(str)[0])] + Decode(str)[1..]
  {
    var (c, w) := DecodeRune(str);
    DecodeAfterRune(toUpper(c), str[w..]);
    assert Decode(str) == [c] + Decode(str[w..]);
  }

  /** Capitalizing keeps a valid string valid, and keeps its number of runes. */
  lemma CapitalizeKeepsValid(str: seq<Byte>, toUpper: Rune -> Rune)
    requires Valid(str)
    ensures Valid(Capitalize(str, toUpper))
    ensures RuneCount(Capitalize(str, toUpper)) == RuneCount(str)
  {
    if str != [] {
      var (c, w) := DecodeRune(str);
      ValidAfterRune(toUpper(c), str[w..]);
      CapitalizeRunes(str, toUpper);
    }
  }

  /** The code as written agrees with its documentation exactly when the first rune is one byte wide. */
  lemma CapitalizeAsWrittenAgrees(str: seq<Byte>, toUpper: Rune -> Rune)
    ensures CapitalizeAsWritten(str, toUpper) == Capitalize(str, toUpper) <==> str == [] || DecodeRune(str).1 == 1
  {
    if str != [] && DecodeRune(str).1 != 1 {
      var e := EncodeRune(toUpper(DecodeRune(str).0));
      assert |CapitalizeAsWritten(str, toUpper)| == |e| + |str| - 1;
      assert |Capitalize(str, toUpper)| == |e| + |str| - DecodeRune(str).1;
    }
  }

  /**
   * "éa" is valid, but the code as written keeps the second byte of "é"
   * after the upper-cased rune, so its result is not valid UTF-8.
   */
  lemma CapitalizeAsWrittenSplitsRune(toUpper: Rune -> Rune)
    ensures Valid([0xC3, 0xA9, 0x61])
    ensures !Valid(CapitalizeAsWritten([0xC3, 0xA9, 0x61], toUpper))
  {
    var s: seq<Byte> := [0xC3, 0xA9, 0x61];
    assert DecodeRune(s) == (0xE9, 2);
    assert s[2..] == [0x61];
    assert s[1..] == [0xA9, 0x61];
    ValidAfterRune(toUpper(0xE9), s[1..]);
    assert IsDecodeError(s[1..]);
  }

  // ---------------------------------------------------------------------
  // Uncapitalize

  /**
   * `Uncapitalize`: when the first rune is upper case, the lower-cased
   * first rune followed by the other runes re-encoded; otherwise the string
   * itself.
   */
  function Uncapitalize(s: seq<Byte>, isUpper: Rune -> bool, toLower: Rune -> Rune): (r: seq<Byte>)
    ensures r == [] <==> s == []
  {
    if s == [] then
      s
    else
      var rs := Decode(s);
      if isUpper(rs[0]) then EncodeRune(toLower(rs[0])) + Encode(rs[1..]) else s
  }

  /** A string whose first rune is upper case comes back valid, with only that rune lower-cased. */
  lemma UncapitalizeRunes(s: seq<Byte>, isUpper: Rune -> bool, toLower: Rune -> Rune)
    requires s != [] && isUpper(Decode(s)[0])
    ensures Decode(Uncapitalize(s, isUpper, toLower)) == [toLower(Decode(s)[0])] + Decode(s)[1..]
    ensures Valid(Uncapitalize(s, isUpper, toLower))
  {
    var rs := Decode(s);
    var x := [toLower(rs[0])] + rs[1..];
    assert x[1..] == rs[1..];
    assert Encode(x) == EncodeRune(toLower(rs[0])) + Encode(rs[1..]);
    DecodeOfEncode(x);
    ValidEncode(x);
  }

  /** A string that is empty or whose first rune is not upper case is returned unchanged. */
  lemma UncapitalizeKeeps(s: seq<Byte>, isUpper: Rune -> bool, toLower: Rune -> Rune)
    requires s == [] || !isUpper(Decode(s)[0])
    ensures Uncapitalize(s, isUpper, toLower) == s
  {
  }

  /**
   * Where upper-casing undoes lower-casing of an upper-case rune,
   * capitalizing an uncapitalized valid string gives it back.
   */
  lemma CapitalizeUndoesUncapitalize(s: seq<Byte>, isUpper: Rune -> bool, toLower: Rune -> Rune, toUpper: Rune -> Rune)
    requires Valid(s) && s != [] && isUpper(Decode(s)[0])
    requires toUpper(toLower(Decode(s)[0])) == Decode(s)[0]
    ensures Capitalize(Uncapitalize(s, isUpper, toLower), toUpper) == s
  {
    var rs := Decode(s);
    var c := rs[0];
    var rest := Encode(rs[1..]);
    var u := Uncapitalize(s, isUpper, toLower);
    assert u == EncodeRune(toLower(c)) + rest;
    DecodeRuneOfEncodeRune(toLower(c), rest);
    assert u[|EncodeRune(toLower(c))|..] == rest;
    assert Capitalize(u, toUpper) == EncodeRune(c) + rest;
    assert rs == [c] + rs[1..];
    assert Encode(rs) == EncodeRune(c) + rest;
    EncodeOfDecode(s);
  }

  // ---------------------------------------------------------------------
  // StartsWith and EndsWith

  /** Each rune of `rs` mapped through `f`. */
  function MapRunes(rs: seq<Rune>, f: Rune -> Rune): (out: seq<Rune>)
    ensures |out| == |rs|
    ensures forall i :: 0 <= i < |rs| ==> out[i] == f(rs[i])
  {
    seq(|rs|, i requires 0 <= i < |rs| => f(rs[i]))
  }

  /** `strings.ToLower`: every rune lower-cased, each malformed byte becoming U+FFFD. */
  function Lower(s: seq<Byte>, toLower: Rune -> Rune): seq<Byte> {
    Encode(MapRunes(Decode(s), toLower))
  }

  /**
   * `StartsWith`: two empty strings match and an empty string matches no
   * other; a prefix with more runes than `s` fails; otherwise
   * `strings.HasPrefix`, on the lower-cased strings when `ignorecase`.
   */
  function StartsWith(s: seq<Byte>, prefix: seq<Byte>, ignorecase: bool, toLower: Rune -> Rune): (r: bool)
    ensures r ==> RuneCount(prefix) <= RuneCount(s)
    ensures r && !ignorecase ==> IsPrefix(prefix, s)
  {
    if s == [] || prefix == [] then
      s == [] && prefix == []
    else if RuneCount(prefix) > RuneCount(s) then
      false
    else if ignorecase then
      IsPrefix(Lower(prefix, toLower), Lower(s, toLower))
    else
      IsPrefix(prefix, s)
  }

  /** `EndsWith`: as `StartsWith`, with `strings.HasSuffix`. */
  function EndsWith(s: seq<Byte>, suffix: seq<Byte>, ignorecase: bool, toLower: Rune -> Rune): (r: bool)
    ensures r ==> RuneCount(suffix) <= RuneCount(s)
    ensures r && !ignorecase ==> IsSuffix(suffix, s)
  {
    if s == [] || suffix == [] then
      s == [] && suffix == []
    else if RuneCount(suffix) > RuneCount(s) then
      false
    else if ignorecase then
      IsSuffix(Lower(suffix, toLower), Lower(s, toLower))
    else
      IsSuffix(suffix, s)
  }

  /** The empty string starts and ends only the empty string, and is started and ended only by it. */
  lemma EmptyAffixes(s: seq<Byte>, x: seq<Byte>, ignorecase: bool, toLower: Rune -> Rune)
    ensures StartsWith(s, [], ignorecase, toLower) <==> s == []
    ensures StartsWith([], x, ignorecase, toLower) <==> x == []
    ensures EndsWith(s, [], ignorecase, toLower) <==> s == []
    ensures EndsWith([], x, ignorecase, toLower) <==> x == []
  {
  }

  /** A prefix or suffix with more runes than `s` never matches. */
  lemma LongerAffixFails(s: seq<Byte>, x: seq<Byte>, ignorecase: bool, toLower: Rune -> Rune)
    requires RuneCount(x) > RuneCount(s)
    ensures !StartsWith(s, x, ignorecase, toLower)
    ensures !EndsWith(s, x, ignorecase, toLower)
  {
  }

  /** For a non-empty valid prefix the rune count guard changes nothing: the test is `strings.HasPrefix`. */
  lemma StartsWithIsHasPrefix(s: seq<Byte>, prefix: seq<Byte>, toLower: Rune -> Rune)
    requires s != [] && prefix != [] && Valid(prefix)
    ensures StartsWith(s, prefix, false, toLower) <==> IsPrefix(prefix, s)
  {
    if IsPrefix(prefix, s) {
      SplitAfterPrefix(s, prefix);
      DecodeAppendValid(prefix, s[|prefix|..]);
    }
  }

  /** For a non-empty valid suffix the rune count guard changes nothing: the test is `strings.HasSuffix`. */
  lemma EndsWithIsHasSuffix(s: seq<Byte>, suffix: seq<Byte>, toLower: Rune -> Rune)
    requires s != [] && suffix != [] && Valid(suffix)
    ensures EndsWith(s, suffix, false, toLower) <==> IsSuffix(suffix, s)
  {
    if IsSuffix(suffix, s) {
      SplitBeforeSuffix(s, suffix);
      ValidStartsWithLead(suffix);
      DecodeAppendAtLead(s[..|s| - |suffix|], suffix);
    }
  }

  /** Ignoring case, a non-empty string starts another exactly when its lower-cased runes begin the other's. */
  lemma StartsWithIgnoringCase(s: seq<Byte>, prefix: seq<Byte>, toLower: Rune -> Rune)
    requires s != [] && prefix != []
    ensures StartsWith(s, prefix, true, toLower) <==>
              IsPrefix(MapRunes(Decode(prefix), toLower), MapRunes(Decode(s), toLower))
  {
    EncodePrefixIff(MapRunes(Decode(prefix), toLower), MapRunes(Decode(s), toLower));
  }

  /** Ignoring case, a non-empty string ends another exactly when its lower-cased runes end the other's. */
  lemma EndsWithIgnoringCase(s: seq<Byte>, suffix: seq<Byte>, toLower: Rune -> Rune)
    requires s != [] && suffix != []
    ensures EndsWith(s, suffix, true, toLower) <==>
              IsSuffix(MapRunes(Decode(suffix), toLower), MapRunes(Decode(s), toLower))
  {
    EncodeSuffixIff(MapRunes(Decode(suffix), toLower), MapRunes(Decode(s), toLower));
  }

  /**
   * On a prefix that is not valid UTF-8 the rune count guard can reject a
   * byte prefix: the first two bytes of "€" count as two runes, "€" as one.
   */
  lemma StartsWithRejectsBytePrefix(toLower: Rune -> Rune)
    ensures IsPrefix([0xE2, 0x82], [0xE2, 0x82, 0xAC])
    ensures !StartsWith([0xE2, 0x82, 0xAC], [0xE2, 0x82], false, toLower)
  {
    var s: seq<Byte> := [0xE2, 0x82, 0xAC];
    var p: seq<Byte> := [0xE2, 0x82];
    assert DecodeRune(s) == (0x20AC, 3);
    assert s[3..] == [];
    assert DecodeRune(p) == (RuneError, 1);
    assert p[1..] == [0x82];
    assert DecodeRune([0x82]) == (RuneError, 1);
    assert [0x82][1..] == [];
    assert RuneCount(s) == 1;
    assert RuneCount(p) == 2;
  }

  /** Likewise the last two bytes of "€" count as two runes, so they do not end "€". */
  lemma EndsWithRejectsByteSuffix(toLower: Rune -> Rune)
    ensures IsSuffix([0x82, 0xAC], [0xE2, 0x82, 0xAC])
    ensures !EndsWith([0xE2, 0x82, 0xAC], [0x82, 0xAC], false, toLower)
  {
    var s: seq<Byte> := [0xE2, 0x82, 0xAC];
    var x: seq<Byte> := [0x82, 0xAC];
    assert DecodeRune(s) == (0x20AC, 3);
    assert s[3..] == [];
    assert DecodeRune(x) == (RuneError, 1);
    assert x[1..] == [0xAC];
    assert DecodeRune([0xAC]) == (RuneError, 1);
    assert [0xAC][1..] == [];
    assert RuneCount(s) == 1;
    assert RuneCount(x) == 2;
  }

  // ---------------------------------------------------------------------
  // IsAlpha and IsAlphanumeric

  /** `IsAlpha`: true exactly when every rune is a letter (so true of the empty string). */
  method IsAlpha(s: seq<Byte>, isLetter: Rune -> bool) returns (b: bool)
    ensures b <==> forall c :: c in Decode(s) ==> isLetter(c)
  {
    if s == [] {
      return true;
    }
    var rest := s;
    ghost var seen: seq<Rune> := [];
    while rest != []
      invariant Decode(s) == seen + Decode(rest)
      invariant forall c :: c in seen ==> isLetter(c)
      decreases |rest|
    {
      var (c, w) := DecodeRune(rest);
      DecodeFirst(rest);
      if !isLetter(c) {
        assert Decode(s)[|seen|] == c;
        return false;
      }
      seen := seen + [c];
      rest := rest[w..];
    }
    assert seen == Decode(s);
    return true;
  }

  /** `IsAlphanumeric`: true exactly when every rune is a letter or a digit. */
  method IsAlphanumeric(s: seq<Byte>, isLetter: Rune -> bool, isDigit: Rune -> bool) returns (b: bool)
    ensures b <==> forall c :: c in Decode(s) ==> isLetter(c) || isDigit(c)
  {
    if s == [] {
      return true;
    }
    var rest := s;
    ghost var seen: seq<Rune> := [];
    while rest != []
      invariant Decode(s) == seen + Decode(rest)
      invariant forall c :: c in seen ==> isLetter(c) || isDigit(c)
      decreases |rest|
    {
      var (c, w) := DecodeRune(rest);
      DecodeFirst(rest);
      if !isLetter(c) && !isDigit(c) {
        assert Decode(s)[|seen|] == c;
        return false;
      }
      seen := seen + [c];
      rest := rest[w..];
    }
    assert seen == Decode(s);
    return true;
  }

  /** Every string of letters is a string of letters and digits. */
  lemma AlphaIsAlphanumeric(s: seq<Byte>, isLetter: Rune -> bool, isDigit: Rune -> bool)
    ensures (forall c :: c in Decode(s) ==> isLetter(c)) ==> (forall c :: c in Decode(s) ==> isLetter(c) || isDigit(c))
  {
  }

  /** A string that is not valid holds U+FFFD, so it passes a rune test only if U+FFFD does. */
  lemma InvalidNeedsRuneError(s: seq<Byte>, ok: Rune -> bool)
    requires !Valid(s) && !ok(RuneError)
    ensures !(forall c :: c in Decode(s) ==> ok(c))
  {
    InvalidHasRuneError(s);
  }

  // ---------------------------------------------------------------------
  // Reverse

  /** The elements of `s` in reverse order. */
  function Reversed<T>(s: seq<T>): seq<T> {
    if s == [] then [] else Reversed(s[1..]) + [s[0]]
  }

  /** Reversal keeps the length and mirrors the positions. */
  lemma {:induction false} ReversedAt<T>(s: seq<T>)
    ensures |Reversed(s)| == |s|
    ensures forall i :: 0 <= i < |s| ==> Reversed(s)[i] == s[|s| - 1 - i]
  {
    if s != [] {
      ReversedAt(s[1..]);
    }
  }

  /** Reversing twice gives the sequence back. */
  lemma ReversedTwice<T>(s: seq<T>)
    ensures Reversed(Reversed(s)) == s
  {
    ReversedAt(s);
    ReversedAt(Reversed(s));
  }

  /** A sequence that mirrors `s` position by position is its reversal. */
  lemma SwappedIsReversed<T>(a: seq<T>, s: seq<T>)
    requires |a| == |s|
    requires forall k :: 0 <= k < |a| ==> a[k] == s[|s| - 1 - k]
    ensures a == Reversed(s)
  {
    ReversedAt(s);
  }

  /** The string of the runes of `s` in reverse order. */
  function Reversal(s: seq<Byte>): seq<Byte> {
    Encode(Reversed(Decode(s)))
  }

  /** `Reverse`: swap the runes of `[]rune(s)` pairwise from both ends, then convert back to a string. */
  method Reverse(s: seq<Byte>) returns (out: seq<Byte>)
    ensures out == Reversal(s)
  {
    var rs := Decode(s);
    var r := new Rune[|rs|](k requires 0 <= k < |rs| => rs[k]);
    var i, j := 0, r.Length - 1;
    while i < r.Length / 2
      invariant 0 <= i <= r.Length / 2
      invariant j == r.Length - 1 - i
      invariant forall k :: 0 <= k < i ==> r[k] == rs[r.Length - 1 - k] && r[r.Length - 1 - k] == rs[k]
      invariant forall k :: i <= k < r.Length - i ==> r[k] == rs[k]
    {
      r[i], r[j] := r[j], r[i];
      i, j := i + 1, j - 1;
    }
    SwappedIsReversed(r[..], rs);
    out := Encode(r[..]);
  }

  /**
   * The reversed string is valid and holds the runes of `s` in reverse
   * order: as many runes, the `i`-th being the `i`-th from the end of `s`.
   * The empty string reverses to itself.
   */
  lemma ReversalRunes(s: seq<Byte>)
    ensures Valid(Reversal(s))
    ensures Decode(Reversal(s)) == Reversed(Decode(s))
    ensures RuneCount(Reversal(s)) == RuneCount(s)
    ensures forall i :: 0 <= i < RuneCount(s) ==> Decode(Reversal(s))[i] == Decode(s)[RuneCount(s) - 1 - i]
    ensures s == [] ==> Reversal(s) == []
  {
    ValidEncode(Reversed(Decode(s)));
    DecodeOfEncode(Reversed(Decode(s)));
    ReversedAt(Decode(s));
    RuneCountOfEncode(Reversed(Decode(s)));
  }

  /** Reversing twice gives a valid string back, and any string with its malformed bytes replaced by U+FFFD. */
  lemma ReversalTwice(s: seq<Byte>)
    ensures Reversal(Reversal(s)) == Encode(Decode(s))
    ensures Valid(s) ==> Reversal(Reversal(s)) == s
  {
    ReversalRunes(s);
    ReversedTwice(Decode(s));
    if Valid(s) {
      EncodeOfDecode(s);
    }
  }

  // ---------------------------------------------------------------------
  // Repeat

  /** `n` copies of `s`, one after another. */
  function Copies(s: seq<Byte>, n: nat): seq<Byte> {
    if n == 0 then [] else Copies(s, n - 1) + s
  }

  /** `Repeat`: `n` copies of `s` when `n` is positive, the empty string otherwise. */
  method Repeat(s: seq<Byte>, n: int) returns (buff: seq<Byte>)
    ensures buff == Copies(s, if n > 0 then n else 0)
    ensures n <= 0 ==> buff == []
  {
    buff := [];
    var left := n;
    while left > 0
      invariant n >= 0 ==> 0 <= left <= n
      invariant n < 0 ==> left == n
      invariant buff == Copies(s, n - left)
    {
      left := left - 1;
      buff := buff + s;
    }
  }

  /** `n` copies hold `n` times the bytes. */
  lemma {:induction false} CopiesLength(s: seq<Byte>, n: nat)
    ensures |Copies(s, n)| == n * |s|
  {
    if n > 0 {
      CopiesLength(s, n - 1);
    }
  }

  /** `m + n` copies are `m` copies followed by `n` copies. */
  lemma {:induction false} CopiesAdd(s: seq<Byte>, m: nat, n: nat)
    ensures Copies(s, m + n) == Copies(s, m) + Copies(s, n)
  {
    if n > 0 {
      CopiesAdd(s, m, n - 1);
    }
  }

  /** Copies of a valid string are valid. */
  lemma {:induction false} CopiesValid(s: seq<Byte>, n: nat)
    requires Valid(s)
    ensures Valid(Copies(s, n))
  {
    if n > 0 {
      CopiesValid(s, n - 1);
      if s != [] {
        ValidStartsWithLead(s);
      }
      ValidAppendAtLead(Copies(s, n - 1), s);
    }
  }

  /** `n * k` is `(n - 1) * k` plus one more `k`. */
  lemma MulStep(n: int, k: int)
    ensures n * k == (n - 1) * k + k
  {
  }

  /** Copies of a valid string hold `n` times its runes. */
  lemma {:induction false} CopiesRuneCount(s: seq<Byte>, n: nat)
    requires Valid(s)
    ensures RuneCount(Copies(s, n)) == n * RuneCount(s)
  {
    if n > 0 {
      var front := Copies(s, n - 1);
      var k := RuneCount(s);
      CopiesRuneCount(s, n - 1);
      CopiesValid(s, n - 1);
      DecodeAppendValid(front, s);
      assert Copies(s, n) == front + s;
      assert |Decode(front + s)| == |Decode(front)| + |Decode(s)|;
      MulStep(n, k);
    }
  }

  // ---------------------------------------------------------------------
  // LastChars

  /**
   * `LastChars`: the last `size` BYTES of `s`; all of `s` when it is no
   * longer than `size`; nothing when `s` is empty or `size` is negative.
   */
  function LastChars(s: seq<Byte>, size: int): (r: seq<Byte>)
    ensures |r| == if s == [] || size < 0 then 0 else if |s| <= size then |s| else size
    ensures IsSuffix(r, s)
  {
    if s == [] || size < 0 then
      []
    else if |s| <= size then
      s
    else
      s[|s| - size..]
  }

  /** Taking the last `size` bytes twice is taking them once. */
  lemma LastCharsIdempotent(s: seq<Byte>, size: int)
    ensures LastChars(LastChars(s, size), size) == LastChars(s, size)
  {
  }

  /** A string's tail as long as the string ends it is that tail itself. */
  lemma LastCharsOfAppend(front: seq<Byte>, tail: seq<Byte>)
    ensures LastChars(front + tail, |tail|) == tail
  {
    if front + tail != [] && |front + tail| > |tail| {
      assert (front + tail)[|front + tail| - |tail|..] == tail;
    }
  }

  /** The count is of bytes, not runes: the last byte of the valid "é" is not valid on its own. */
  lemma LastCharsSplitsRune()
    ensures Valid([0xC3, 0xA9])
    ensures LastChars([0xC3, 0xA9], 1) == [0xA9]
    ensures !Valid(LastChars([0xC3, 0xA9], 1))
  {
    var s: seq<Byte> := [0xC3, 0xA9];
    assert DecodeRune(s) == (0xE9, 2);
    assert s[2..] == [];
    assert s[1..] == [0xA9];
    assert IsDecodeError([0xA9]);
  }
}
