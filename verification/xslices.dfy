/**
 * Slice helpers of package `xslices`: mapping with and without errors,
 * minimum and maximum, flattening, building maps and sets from slices,
 * first element, first match, filtering and difference.
 *
 * A Go slice is a `seq`. Every helper builds its result in a loop; each is a
 * method with that loop, proved against a function that specifies its
 * result, and the lemmas below state what those functions promise. Go's
 * zero value of a type parameter is passed in as `zero`; a mapper that
 * returns `(R, error)` returns a `Result`.
 */
module XSlices {
  import opened Wrappers

  // ---------------------------------------------------------------------
  // Map

  /** `Map`: one mapped element per input element, at the same index. */
  method Map<T, R>(s: seq<T>, mapper: T -> R) returns (out: seq<R>)
    ensures |out| == |s|
    ensures forall i :: 0 <= i < |s| ==> out[i] == mapper(s[i])
  {
    out := [];
    for i := 0 to |s|
      invariant |out| == i
      invariant forall k :: 0 <= k < i ==> out[k] == mapper(s[k])
    {
      out := out + [mapper(s[i])];
    }
  }

  // ---------------------------------------------------------------------
  // MapWithError and MapUntilError

  /** The value a successful call contributes to the output: one element, or none for an error. */
  function ValueOf<R, E>(r: Result<R, E>): seq<R> {
    if r.Ok? then [r.value] else []
  }

  /** The error a failed call contributes to the joined error: one element, or none for a success. */
  function ErrorOf<R, E>(r: Result<R, E>): seq<E> {
    if r.Err? then [r.error] else []
  }

  /** The mapped values of the elements on which `mapper` succeeds, in input order. */
  function Successes<T, R, E>(s: seq<T>, mapper: T -> Result<R, E>): seq<R> {
    if s == [] then [] else Successes(s[..|s| - 1], mapper) + ValueOf(mapper(s[|s| - 1]))
  }

  /** The errors of the elements on which `mapper` fails, in input order. */
  function Failures<T, R, E>(s: seq<T>, mapper: T -> Result<R, E>): seq<E> {
    if s == [] then [] else Failures(s[..|s| - 1], mapper) + ErrorOf(mapper(s[|s| - 1]))
  }

  /** The predicate "mapping this element fails". */
  function Failing<T, R, E>(mapper: T -> Result<R, E>): T -> bool {
    x => mapper(x).Err?
  }

  /**
   * The index of the first element satisfying `pred`, or `|s|` when there
   * is none.
   */
  function FirstIndex<T>(s: seq<T>, pred: T -> bool): (k: nat)
    ensures k <= |s|
    ensures forall i :: 0 <= i < k ==> !pred(s[i])
    ensures k < |s| ==> pred(s[k])
  {
    if s == [] then 0 else if pred(s[0]) then 0 else 1 + FirstIndex(s[1..], pred)
  }

  /**
   * `MapWithError`. With `ff` (fail fast) set, mapping stops at the first
   * element whose mapping fails: the output holds the mapped values of the
   * elements before it, and the error is that element's error. Otherwise
   * every element is mapped: the output holds the values of the successes
   * and the error joins the errors of the failures, both in input order.
   * The joined error is a list; `[]` stands for a nil error.
   */
  method MapWithError<T, R, E>(s: seq<T>, mapper: T -> Result<R, E>, ff: bool)
    returns (out: seq<R>, err: seq<E>)
    ensures ff ==>
      var k := FirstIndex(s, Failing(mapper));
      && |out| == k
      && (forall i :: 0 <= i < k ==> mapper(s[i]) == Ok(out[i]))
      && err == (if k < |s| then [mapper(s[k]).error] else [])
    ensures !ff ==> out == Successes(s, mapper) && err == Failures(s, mapper)
  {
    out, err := [], [];
    ghost var k := FirstIndex(s, Failing(mapper));
    var i := 0;
    while i < |s|
      invariant 0 <= i <= |s|
      invariant !ff ==> out == Successes(s[..i], mapper) && err == Failures(s[..i], mapper)
      invariant ff ==> i <= k && err == [] && |out| == i
      invariant ff ==> forall j :: 0 <= j < i ==> mapper(s[j]) == Ok(out[j])
    {
      assert s[..i + 1][..i] == s[..i];
      match mapper(s[i]) {
        case Err(e) =>
          if ff {
            return out, [e];
          }
          err := err + [e];
        case Ok(r) =>
          out := out + [r];
      }
      i := i + 1;
    }
    assert s[..i] == s;
  }

  /** `MapUntilError`: `MapWithError` with fail fast set. */
  method MapUntilError<T, R, E>(s: seq<T>, mapper: T -> Result<R, E>) returns (out: seq<R>, err: seq<E>)
    ensures
      var k := FirstIndex(s, Failing(mapper));
      && |out| == k
      && (forall i :: 0 <= i < k ==> mapper(s[i]) == Ok(out[i]))
      && err == (if k < |s| then [mapper(s[k]).error] else [])
  {
    out, err := MapWithError(s, mapper, true);
  }

  /** Every element contributes either a value or an error. */
  lemma {:induction false} SuccessesAndFailuresCount<T, R, E>(s: seq<T>, mapper: T -> Result<R, E>)
    ensures |Successes(s, mapper)| + |Failures(s, mapper)| == |s|
  {
    if s != [] {
      SuccessesAndFailuresCount(s[..|s| - 1], mapper);
    }
  }

  /** The joined error is nil exactly when no element fails. */
  lemma {:induction false} NoFailuresIff<T, R, E>(s: seq<T>, mapper: T -> Result<R, E>)
    ensures Failures(s, mapper) == [] <==> forall i :: 0 <= i < |s| ==> mapper(s[i]).Ok?
  {
    if s != [] {
      var init := s[..|s| - 1];
      NoFailuresIff(init, mapper);
      assert forall i :: 0 <= i < |init| ==> init[i] == s[i];
    }
  }

  /** Collecting values respects concatenation: the order of the input is the order of the output. */
  lemma {:induction false} SuccessesAppend<T, R, E>(a: seq<T>, b: seq<T>, mapper: T -> Result<R, E>)
    ensures Successes(a + b, mapper) == Successes(a, mapper) + Successes(b, mapper)
    decreases |b|
  {
    if b == [] {
      assert a + b == a;
    } else {
      var b' := b[..|b| - 1];
      assert (a + b)[..|a + b| - 1] == a + b';
      assert (a + b)[|a + b| - 1] == b[|b| - 1];
      SuccessesAppend(a, b', mapper);
    }
  }

  /** Collecting errors respects concatenation in the same way. */
  lemma {:induction false} FailuresAppend<T, R, E>(a: seq<T>, b: seq<T>, mapper: T -> Result<R, E>)
    ensures Failures(a + b, mapper) == Failures(a, mapper) + Failures(b, mapper)
    decreases |b|
  {
    if b == [] {
      assert a + b == a;
    } else {
      var b' := b[..|b| - 1];
      assert (a + b)[..|a + b| - 1] == a + b';
      assert (a + b)[|a + b| - 1] == b[|b| - 1];
      FailuresAppend(a, b', mapper);
    }
  }

  /**
   * When nothing fails, collecting all values is plain mapping: one value
   * per element at the same index; the fail-fast and collect-all modes then
   * agree.
   */
  lemma {:induction false} SuccessesWithoutFailures<T, R, E>(s: seq<T>, mapper: T -> Result<R, E>)
    requires forall i :: 0 <= i < |s| ==> mapper(s[i]).Ok?
    ensures |Successes(s, mapper)| == |s|
    ensures forall i :: 0 <= i < |s| ==> mapper(s[i]) == Ok(Successes(s, mapper)[i])
    ensures FirstIndex(s, Failing(mapper)) == |s|
  {
    if s != [] {
      var init := s[..|s| - 1];
      assert forall i :: 0 <= i < |init| ==> init[i] == s[i];
      SuccessesWithoutFailures(init, mapper);
    }
  }

  // ---------------------------------------------------------------------
  // First, Min and Max

  /** `First`: the first element and true, or the zero value and false for an empty slice. */
  method First<E>(s: seq<E>, zero: E) returns (v: E, ok: bool)
    ensures ok <==> s != []
    ensures ok ==> v == s[0]
    ensures !ok ==> v == zero
  {
    if |s| > 0 {
      return s[0], true;
    }
    return zero, false;
  }

  /** `Min` over `int`: false and 0 for an empty slice, otherwise an element no larger than any other. */
  method Min(s: seq<int>) returns (v: int, ok: bool)
    ensures ok <==> s != []
    ensures !ok ==> v == 0
    ensures ok ==> v in s && forall x :: x in s ==> v <= x
  {
    var curr;
    curr, ok := First(s, 0);
    if !ok {
      return 0, false;
    }
    for i := 1 to |s|
      invariant curr in s[..i]
      invariant forall j :: 0 <= j < i ==> curr <= s[j]
    {
      if s[i] < curr {
        curr := s[i];
      }
    }
    assert s[..|s|] == s;
    return curr, true;
  }

  /** `Max` over `int`: false and 0 for an empty slice, otherwise an element no smaller than any other. */
  method Max(s: seq<int>) returns (v: int, ok: bool)
    ensures ok <==> s != []
    ensures !ok ==> v == 0
    ensures ok ==> v in s && forall x :: x in s ==> x <= v
  {
    var curr;
    curr, ok := First(s, 0);
    if !ok {
      return 0, false;
    }
    for i := 1 to |s|
      invariant curr in s[..i]
      invariant forall j :: 0 <= j < i ==> s[j] <= curr
    {
      if s[i] > curr {
        curr := s[i];
      }
    }
    assert s[..|s|] == s;
    return curr, true;
  }

  // ---------------------------------------------------------------------
  // Flatten

  /** The inner slices of `ss` laid end to end, in order. */
  function Concat<T>(ss: seq<seq<T>>): seq<T> {
    if ss == [] then [] else Concat(ss[..|ss| - 1]) + ss[|ss| - 1]
  }

  /** The sum of the lengths of the inner slices. */
  function TotalLength<T>(ss: seq<seq<T>>): nat {
    if ss == [] then 0 else TotalLength(ss[..|ss| - 1]) + |ss[|ss| - 1]|
  }

  /** `Flatten`: the concatenation of the inner slices. */
  method Flatten<T>(s: seq<seq<T>>) returns (target: seq<T>)
    ensures target == Concat(s)
  {
    target := [];
    for i := 0 to |s|
      invariant target == Concat(s[..i])
    {
      assert s[..i + 1][..i] == s[..i];
      target := target + s[i];
    }
    assert s[..|s|] == s;
  }

  /** The flattened slice is as long as all inner slices together. */
  lemma {:induction false} ConcatLength<T>(ss: seq<seq<T>>)
    ensures |Concat(ss)| == TotalLength(ss)
  {
    if ss != [] {
      ConcatLength(ss[..|ss| - 1]);
    }
  }

  /** An element occurs in the flattened slice exactly when it occurs in one of the inner slices. */
  lemma {:induction false} ConcatMembership<T>(ss: seq<seq<T>>, x: T)
    ensures x in Concat(ss) <==> exists i :: 0 <= i < |ss| && x in ss[i]
  {
    if ss != [] {
      var init := ss[..|ss| - 1];
      ConcatMembership(init, x);
      assert forall i :: 0 <= i < |init| ==> init[i] == ss[i];
    }
  }

  /** Flattening respects concatenation of the outer slice. */
  lemma {:induction false} ConcatAppend<T>(a: seq<seq<T>>, b: seq<seq<T>>)
    ensures Concat(a + b) == Concat(a) + Concat(b)
    decreases |b|
  {
    if b == [] {
      assert a + b == a;
    } else {
      var b' := b[..|b| - 1];
      assert (a + b)[..|a + b| - 1] == a + b';
      assert (a + b)[|a + b| - 1] == b[|b| - 1];
      ConcatAppend(a, b');
    }
  }

  // ---------------------------------------------------------------------
  // Associate, ToSetFunc and ToSet

  /** The map obtained by inserting the pairs `mapper` gives for `s`, from first to last. */
  function Associated<T, K, V>(s: seq<T>, mapper: T -> (K, V)): map<K, V> {
    if s == [] then map[]
    else Associated(s[..|s| - 1], mapper)[mapper(s[|s| - 1]).0 := mapper(s[|s| - 1]).1]
  }

  /** `Associate`: insert every pair in input order, so a later pair overwrites an earlier one with the same key. */
  method Associate<T, K, V>(s: seq<T>, mapper: T -> (K, V)) returns (res: map<K, V>)
    ensures res == Associated(s, mapper)
  {
    res := map[];
    for i := 0 to |s|
      invariant res == Associated(s[..i], mapper)
    {
      assert s[..i + 1][..i] == s[..i];
      var (k, v) := mapper(s[i]);
      res := res[k := v];
    }
    assert s[..|s|] == s;
  }

  /** The keys of the associated map are exactly the keys the mapper produces over the input. */
  lemma {:induction false} AssociatedKeys<T, K, V>(s: seq<T>, mapper: T -> (K, V))
    ensures Associated(s, mapper).Keys == set i | 0 <= i < |s| :: mapper(s[i]).0
  {
    if s != [] {
      var init := s[..|s| - 1];
      AssociatedKeys(init, mapper);
      assert forall i :: 0 <= i < |init| ==> init[i] == s[i];
      var last := mapper(s[|s| - 1]).0;
      assert (set i | 0 <= i < |s| :: mapper(s[i]).0)
          == (set i | 0 <= i < |init| :: mapper(init[i]).0) + {last};
    }
  }

  /**
   * Last writer wins: the value at a key is the one from the last input
   * element that produces that key.
   */
  lemma {:induction false} AssociatedLastWins<T, K, V>(s: seq<T>, mapper: T -> (K, V), i: nat)
    requires i < |s|
    requires forall j :: i < j < |s| ==> mapper(s[j]).0 != mapper(s[i]).0
    ensures mapper(s[i]).0 in Associated(s, mapper)
    ensures Associated(s, mapper)[mapper(s[i]).0] == mapper(s[i]).1
  {
    if i < |s| - 1 {
      var init := s[..|s| - 1];
      assert forall j :: 0 <= j < |init| ==> init[j] == s[j];
      AssociatedLastWins(init, mapper, i);
    }
  }

  /** The pair `(mapper(x), {})` that `ToSetFunc` inserts for `x`. */
  function AsSetEntry<T, K>(mapper: T -> K): T -> (K, ()) {
    x => (mapper(x), ())
  }

  /** `ToSetFunc`: a set, as a map to the empty value, of the keys `mapper` produces over `s`. */
  method ToSetFunc<T, K>(s: seq<T>, mapper: T -> K) returns (r: map<K, ()>)
    ensures r.Keys == set i | 0 <= i < |s| :: mapper(s[i])
  {
    r := Associate(s, AsSetEntry(mapper));
    AssociatedKeys(s, AsSetEntry(mapper));
    assert forall i :: 0 <= i < |s| ==> AsSetEntry(mapper)(s[i]).0 == mapper(s[i]);
  }

  /** `ToSet`: the set of the elements of `s`. */
  method ToSet<T>(s: seq<T>) returns (r: map<T, ()>)
    ensures r.Keys == set x | x in s
  {
    r := ToSetFunc(s, x => x);
    forall x | x in s
      ensures x in r
    {
      var i :| 0 <= i < |s| && s[i] == x;
    }
  }

  // ---------------------------------------------------------------------
  // Filter, Difference and FindFirst

  /** The elements of `s` that satisfy `pred`, in their order in `s`. */
  function Filtered<T>(s: seq<T>, pred: T -> bool): seq<T> {
    if s == [] then []
    else Filtered(s[..|s| - 1], pred) + (if pred(s[|s| - 1]) then [s[|s| - 1]] else [])
  }

  /** `Filter`: keep the items matching the predicate. */
  method Filter<T>(input: seq<T>, pred: T -> bool) returns (res: seq<T>)
    ensures res == Filtered(input, pred)
  {
    res := [];
    for i := 0 to |input|
      invariant res == Filtered(input[..i], pred)
    {
      assert input[..i + 1][..i] == input[..i];
      if pred(input[i]) {
        res := res + [input[i]];
      }
    }
    assert input[..|input|] == input;
  }

  /** Filtering never lengthens a slice. */
  lemma {:induction false} FilteredLength<T>(s: seq<T>, pred: T -> bool)
    ensures |Filtered(s, pred)| <= |s|
  {
    if s != [] {
      FilteredLength(s[..|s| - 1], pred);
    }
  }

  /** Each element occurs in the filtered slice exactly as often as in the input if it matches, and never otherwise. */
  lemma {:induction false} FilteredCount<T>(s: seq<T>, pred: T -> bool, x: T)
    ensures multiset(Filtered(s, pred))[x] == if pred(x) then multiset(s)[x] else 0
  {
    if s != [] {
      var init := s[..|s| - 1];
      FilteredCount(init, pred, x);
      assert s == init + [s[|s| - 1]];
    }
  }

  /** An element is in the filtered slice exactly when it is in the input and matches. */
  lemma FilteredMembership<T>(s: seq<T>, pred: T -> bool, x: T)
    ensures x in Filtered(s, pred) <==> x in s && pred(x)
  {
    FilteredCount(s, pred, x);
    assert x in Filtered(s, pred) <==> multiset(Filtered(s, pred))[x] > 0;
    assert x in s <==> multiset(s)[x] > 0;
  }

  /** The filtered slice is empty exactly when no element matches. */
  lemma {:induction false} FilteredEmptyIff<T>(s: seq<T>, pred: T -> bool)
    ensures Filtered(s, pred) == [] <==> forall i :: 0 <= i < |s| ==> !pred(s[i])
  {
    if s != [] {
      var init := s[..|s| - 1];
      FilteredEmptyIff(init, pred);
      assert forall i :: 0 <= i < |init| ==> init[i] == s[i];
    }
  }

  /** Filtering respects concatenation, which is what keeping the input order means. */
  lemma {:induction false} FilteredAppend<T>(a: seq<T>, b: seq<T>, pred: T -> bool)
    ensures Filtered(a + b, pred) == Filtered(a, pred) + Filtered(b, pred)
    decreases |b|
  {
    if b == [] {
      assert a + b == a;
    } else {
      var b' := b[..|b| - 1];
      assert (a + b)[..|a + b| - 1] == a + b';
      assert (a + b)[|a + b| - 1] == b[|b| - 1];
      FilteredAppend(a, b', pred);
    }
  }

  /** The predicate "does not occur in `s2`". */
  function NotIn<T(==)>(s2: seq<T>): T -> bool {
    x => x !in s2
  }

  /**
   * `Difference`: the elements of `s1` that do not occur in `s2`, in the
   * order of `s1`. Duplicates in `s1` are kept.
   */
  method Difference<T(==)>(s1: seq<T>, s2: seq<T>) returns (diff: seq<T>)
    ensures diff == Filtered(s1, NotIn(s2))
  {
    // The set of the elements of s2, which Go keeps as a map to empty structs.
    var seen: set<T> := {};
    for i := 0 to |s2|
      invariant seen == set j | 0 <= j < i :: s2[j]
    {
      seen := seen + {s2[i]};
    }
    assert forall x :: x in seen <==> x in s2;
    diff := [];
    for i := 0 to |s1|
      invariant diff == Filtered(s1[..i], NotIn(s2))
    {
      assert s1[..i + 1][..i] == s1[..i];
      if s1[i] !in seen {
        diff := diff + [s1[i]];
      }
    }
    assert s1[..|s1|] == s1;
  }

  /**
   * The difference keeps every occurrence of an element absent from `s2`
   * (so it is not deduplicated) and no occurrence of one present in `s2`.
   */
  lemma DifferenceCount<T>(s1: seq<T>, s2: seq<T>, x: T)
    ensures multiset(Filtered(s1, NotIn(s2)))[x] == if x in s2 then 0 else multiset(s1)[x]
  {
    FilteredCount(s1, NotIn(s2), x);
  }

  /** The difference is empty exactly when every element of `s1` occurs in `s2`. */
  lemma DifferenceEmptyIff<T>(s1: seq<T>, s2: seq<T>)
    ensures Filtered(s1, NotIn(s2)) == [] <==> forall x :: x in s1 ==> x in s2
  {
    FilteredEmptyIff(s1, NotIn(s2));
  }

  /**
   * `FindFirst`: the lowest-index element satisfying the predicate and
   * true, or the zero value and false when none does.
   */
  method FindFirst<T>(input: seq<T>, pred: T -> bool, zero: T) returns (v: T, ok: bool)
    ensures ok <==> exists i :: 0 <= i < |input| && pred(input[i])
    ensures ok ==> v == input[FirstIndex(input, pred)]
    ensures !ok ==> v == zero
  {
    for i := 0 to |input|
      invariant forall j :: 0 <= j < i ==> !pred(input[j])
    {
      if pred(input[i]) {
        return input[i], true;
      }
    }
    return zero, false;
  }
}
