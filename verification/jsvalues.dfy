/**
  The few JavaScript values and built-ins the logbook script's logic observes,
  reduced to what that logic depends on: `undefined` text, numbers that may be
  NaN, `toLowerCase`, `String.prototype.includes` and `Array.prototype.slice`.
 */
module JsValues {

  datatype Option<+T> = None | Some(value: T)

  /** How evaluating an expression ended: with a value, or by raising a TypeError. */
  datatype Completion<+T> = Normal(value: T) | TypeError

  /** A text property of a record: a string, or `undefined` when a parsed row lacked the column. */
  datatype Text = Undefined | Str(s: string)

  /**
    A number as `parseFloat` yields it, with doubles replaced by reals: either
    NaN or a finite value.
   */
  datatype Hours = NaN | Num(v: real)

  /** JavaScript `+` on numbers: NaN absorbs everything. */
  function Add(a: Hours, b: Hours): Hours
  {
    if a.NaN? || b.NaN? then NaN else Num(a.v + b.v)
  }

  /** `toLowerCase` restricted to ASCII letters. */
  function LowerChar(c: char): char
  {
    if 'A' <= c <= 'Z' then (c as int + 32) as char else c
  }

  function Lower(s: string): (r: string)
    ensures |r| == |s|
    ensures forall i :: 0 <= i < |s| ==> r[i] == LowerChar(s[i])
  {
    if s == [] then [] else [LowerChar(s[0])] + Lower(s[1..])
  }

  /** The string lower-cased is empty exactly when the string is. */
  lemma LowerEmpty(s: string)
    ensures Lower(s) == [] <==> s == []
  {
  }

  predicate StartsWith(s: string, p: string)
  {
    |p| <= |s| && s[..|p|] == p
  }

  /** `s.includes(p)`, computed by trying every start position from the left. */
  function Includes(s: string, p: string): bool
    decreases |s|
  {
    StartsWith(s, p) || (|s| > 0 && Includes(s[1..], p))
  }

  /** `p` occurs in `s` as a contiguous block starting at position `i`. */
  ghost predicate OccursAt(s: string, p: string, i: int)
  {
    0 <= i && i + |p| <= |s| && s[i..i + |p|] == p
  }

  /** `Includes` is exactly "some contiguous block of `s` equals `p`". */
  lemma {:induction false} IncludesIsOccurrence(s: string, p: string)
    ensures Includes(s, p) <==> exists i :: OccursAt(s, p, i)
    decreases |s|
  {
    if StartsWith(s, p) {
      assert OccursAt(s, p, 0);
    } else if |s| > 0 {
      IncludesIsOccurrence(s[1..], p);
      if exists i :: OccursAt(s[1..], p, i) {
        var i :| OccursAt(s[1..], p, i);
        assert s[1..][i..i + |p|] == s[i + 1..i + 1 + |p|];
        assert OccursAt(s, p, i + 1);
      }
      if exists i :: OccursAt(s, p, i) {
        var i :| OccursAt(s, p, i) && i > 0;
        assert s[1..][i - 1..i - 1 + |p|] == s[i..i + |p|];
        assert OccursAt(s[1..], p, i - 1);
      }
    }
  }

  /** The relative index `x` of `Array.prototype.slice`, resolved against length `len`. */
  function SliceIndex(x: int, len: nat): (k: nat)
    ensures k <= len
    ensures 0 <= x <= len ==> k == x
  {
    if x < 0 then (if len + x < 0 then 0 else len + x)
    else if x < len then x else len
  }

  /** `s.slice(start, end)`: both ends resolved, empty when they cross. */
  function Slice<T>(s: seq<T>, start: int, end: int): seq<T>
  {
    var a := SliceIndex(start, |s|);
    var b := SliceIndex(end, |s|);
    if a < b then s[a..b] else []
  }

  function Min(a: int, b: int): int
  {
    if a <= b then a else b
  }

  /** For non-negative ends, `slice` is the block between the ends cut to the length. */
  lemma SliceNonNegative<T>(s: seq<T>, start: int, end: int)
    requires 0 <= start <= end
    ensures Slice(s, start, end) == s[Min(start, |s|)..Min(end, |s|)]
  {
  }

  /** Element `k` of a slice is the element `k` places after the resolved start. */
  lemma SliceAt<T>(s: seq<T>, start: int, end: int, k: int)
    requires 0 <= k < |Slice(s, start, end)|
    ensures SliceIndex(start, |s|) + k < |s|
    ensures Slice(s, start, end)[k] == s[SliceIndex(start, |s|) + k]
  {
  }

  /** A slice of a strictly increasing list is strictly increasing. */
  lemma SliceIncreasing(s: seq<int>, start: int, end: int)
    requires forall k, l :: 0 <= k < l < |s| ==> s[k] < s[l]
    ensures forall k, l :: 0 <= k < l < |Slice(s, start, end)| ==> Slice(s, start, end)[k] < Slice(s, start, end)[l]
  {
  }
}
