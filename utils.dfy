/** Array and string helpers of src/composables/utils.js. */
module Utils {
  import opened JsCore

  // ---------------------------------------------------------------------------------------
  // findMinMax

  /** A Number that may be one of the two infinities `findMinMax` starts from. */
  datatype Extended = NegInfinity | Finite(n: int) | PosInfinity

  /** `x < e` on extended numbers. */
  predicate Below(x: int, e: Extended) {
    e.PosInfinity? || (e.Finite? && x < e.n)
  }

  /** `x > e` on extended numbers. */
  predicate Above(x: int, e: Extended) {
    e.NegInfinity? || (e.Finite? && x > e.n)
  }

  /**
   * `findMinMax(arry)`: the least and greatest element, found in one pass that starts from
   * Infinity and -Infinity; an empty array leaves those starting values.
   */
  method FindMinMax(arry: seq<int>) returns (tmpMin: Extended, tmpMax: Extended)
    ensures |arry| == 0 ==> tmpMin == PosInfinity && tmpMax == NegInfinity
    ensures |arry| > 0 ==> tmpMin.Finite? && tmpMin.n in arry && tmpMax.Finite? && tmpMax.n in arry
    ensures |arry| > 0 ==> forall k :: 0 <= k < |arry| ==> tmpMin.n <= arry[k] <= tmpMax.n
  {
    tmpMin, tmpMax := PosInfinity, NegInfinity;
    for i := 0 to |arry|
      invariant i == 0 ==> tmpMin == PosInfinity && tmpMax == NegInfinity
      invariant i > 0 ==> tmpMin.Finite? && tmpMin.n in arry[..i] && tmpMax.Finite? && tmpMax.n in arry[..i]
      invariant forall k :: 0 <= k < i ==> tmpMin.Finite? && tmpMin.n <= arry[k] && tmpMax.Finite? && arry[k] <= tmpMax.n
    {
      var elem := arry[i];
      if Below(elem, tmpMin) {
        tmpMin := Finite(elem);
      }
      if Above(elem, tmpMax) {
        tmpMax := Finite(elem);
      }
    }
  }

  // ---------------------------------------------------------------------------------------
  // filter, diffArray_simple, intersectArray

  /** `r` is `a` with some elements left out, the rest in their order. */
  predicate IsSubsequence(r: seq<int>, a: seq<int>) {
    if r == [] then true
    else if a == [] then false
    else if r[0] == a[0] then IsSubsequence(r[1..], a[1..])
    else IsSubsequence(r, a[1..])
  }

  /** `a.filter(keep)`: the elements of `a` that satisfy `keep`, in order, duplicates kept. */
  function Filter(a: seq<int>, keep: int -> bool): (r: seq<int>)
    ensures forall x :: x in r <==> x in a && keep(x)
    ensures forall x :: keep(x) ==> multiset(r)[x] == multiset(a)[x]
    ensures IsSubsequence(r, a)
  {
    if a == [] then []
    else
      var rest := Filter(a[1..], keep);
      assert a == [a[0]] + a[1..];
      if keep(a[0]) then [a[0]] + rest else rest
  }

  /** When every element passes, filtering returns the array itself. */
  lemma {:induction false} FilterAll(a: seq<int>, keep: int -> bool)
    requires forall i :: 0 <= i < |a| ==> keep(a[i])
    ensures Filter(a, keep) == a
  {
    if a != [] {
      FilterAll(a[1..], keep);
      assert keep(a[0]);
      assert Filter(a, keep) == [a[0]] + Filter(a[1..], keep);
      assert a == [a[0]] + a[1..];
    }
  }

  /** When no element passes, filtering returns the empty array. */
  lemma FilterNone(a: seq<int>, keep: int -> bool)
    requires forall x :: x in a ==> !keep(x)
    ensures Filter(a, keep) == []
  {
  }

  /** The callback `x => arry.includes(x)`. */
  function In(arry: seq<int>): int -> bool {
    x => x in arry
  }

  /** The callback `x => !arry.includes(x)`. */
  function NotIn(arry: seq<int>): int -> bool {
    x => x !in arry
  }

  /**
   * `diffArray_simple(arry1, arry2)`: the elements of `arry1` missing from `arry2`, in
   * `arry1` order, followed by the elements of `arry2` missing from `arry1`, in `arry2` order.
   */
  function DiffArraySimple(arry1: seq<int>, arry2: seq<int>): (diff: seq<int>)
    ensures forall x :: x in diff <==> (x in arry1 <==> x !in arry2)
    ensures forall x :: multiset(diff)[x] == (if x in arry2 then 0 else multiset(arry1)[x])
                                          + (if x in arry1 then 0 else multiset(arry2)[x])
    ensures exists n :: 0 <= n <= |diff| && IsSubsequence(diff[..n], arry1) && IsSubsequence(diff[n..], arry2)
  {
    var first, second := Filter(arry1, NotIn(arry2)), Filter(arry2, NotIn(arry1));
    var diff := first + second;
    assert diff[..|first|] == first && diff[|first|..] == second;
    assert multiset(diff) == multiset(first) + multiset(second);
    diff
  }

  /** An array has no difference from itself. */
  lemma DiffArraySelf(a: seq<int>)
    ensures DiffArraySimple(a, a) == []
  {
    FilterNone(a, NotIn(a));
  }

  /** The difference with an empty array is the other array, unchanged. */
  lemma DiffArrayEmpty(a: seq<int>)
    ensures DiffArraySimple(a, []) == a
    ensures DiffArraySimple([], a) == a
  {
    FilterAll(a, NotIn([]));
  }

  /** `intersectArray(arry1, arry2)`: the elements of `arry1` that occur in `arry2`, in order. */
  function IntersectArray(arry1: seq<int>, arry2: seq<int>): (r: seq<int>)
    ensures forall x :: x in r <==> x in arry1 && x in arry2
    ensures forall x :: x in arry2 ==> multiset(r)[x] == multiset(arry1)[x]
    ensures IsSubsequence(r, arry1)
  {
    Filter(arry1, In(arry2))
  }

  /** Intersecting with an empty array gives nothing; intersecting with itself changes nothing. */
  lemma IntersectArrayEmptySelf(a: seq<int>)
    ensures IntersectArray(a, []) == []
    ensures IntersectArray(a, a) == a
  {
    FilterNone(a, In([]));
    FilterAll(a, In(a));
  }

  // ---------------------------------------------------------------------------------------
  // InitialCaps

  predicate IsLowerAscii(c: char) { 'a' <= c <= 'z' }

  /** `toLocaleUpperCase` of one character, for the ASCII letters. */
  function UpperAscii(c: char): (u: char)
    ensures !IsLowerAscii(u)
    ensures IsLowerAscii(c) ==> 'A' <= u <= 'Z' && u as int == c as int - 32
    ensures !IsLowerAscii(c) ==> u == c
  {
    if IsLowerAscii(c) then (c as int - 32) as char else c
  }

  /**
   * `InitialCaps(txt)`: a string with its first character upper-cased; `undefined` (None) for
   * a value that is not a string; an empty string throws, `txt[0]` being undefined.
   */
  function InitialCaps(txt: JsValue): (r: Result<Option<string>>)
    ensures !txt.JsString? ==> r == Ok(None)
    ensures txt == JsString("") ==> r == Err(TypeError)
    ensures txt.JsString? && txt.s != "" ==> r.Ok? && r.value.Some?
    ensures r.Ok? && r.value.Some? ==>
      var s, t := txt.s, r.value.value;
      |t| == |s| && t[0] == UpperAscii(s[0]) && t[1..] == s[1..] && (!IsLowerAscii(s[0]) ==> t == s)
  {
    match txt
    case JsString(s) =>
      if s == "" then Err(TypeError)
      else
        var initial := s[0];
        Ok(Some([UpperAscii(initial)] + s[1..]))
    case _ => Ok(None)
  }

  /** Capitalising twice is capitalising once. */
  lemma InitialCapsIdempotent(s: string)
    requires s != ""
    ensures InitialCaps(JsString(s)).Ok? && InitialCaps(JsString(s)).value.Some?
    ensures InitialCaps(JsString(InitialCaps(JsString(s)).value.value)) == InitialCaps(JsString(s))
  {
  }

  // ---------------------------------------------------------------------------------------
  // convertArrayValuesToNumbers

  /**
   * `convertArrayValuesToNumbers(arry)`: each element is converted into the callback's own
   * parameter, which is then dropped, so the array keeps every element it had. The
   * conversion `+elem` is passed in as `toNumber`.
   */
  method ConvertArrayValuesToNumbers<T>(arry: array<T>, toNumber: T -> T)
    ensures arry[..] == old(arry[..])
  {
    for i := 0 to arry.Length {
      var elem := arry[i];
      elem := toNumber(elem);
    }
  }
}
