/** Small shared vocabulary: optional values, Python-style results, and the
    integer ranges that numpy's `arange` produces. */
module Common {

  datatype Option<+T> = None | Some(value: T)

  /** The Python exceptions the modelled code can raise. */
  datatype PyError = IndexError | ValueError | TypeError

  datatype Result<+T> = Ok(value: T) | Err(error: PyError)

  /** `np.arange(lo, hi, 1)`: the integers lo, lo+1, ..., hi-1 (empty when hi <= lo). */
  function Range(lo: int, hi: int): (r: seq<int>)
    ensures |r| == if hi <= lo then 0 else hi - lo
    ensures forall t :: 0 <= t < |r| ==> r[t] == lo + t
    decreases hi - lo
  {
    if hi <= lo then [] else [lo] + Range(lo + 1, hi)
  }

  /** Strictly increasing integer sequence. */
  ghost predicate StrictlyIncreasing(s: seq<int>)
  {
    forall t, u :: 0 <= t < u < |s| ==> s[t] < s[u]
  }

  function Abs(x: int): (r: nat)
    ensures r == x || r == -x
  {
    if x < 0 then -x else x
  }

  function Sum(s: seq<real>): real
  {
    if s == [] then 0.0 else Sum(s[..|s| - 1]) + s[|s| - 1]
  }

  /** Python's `list.pop(i)`. */
  function RemoveAt<T>(s: seq<T>, i: nat): (r: seq<T>)
    requires i < |s|
    ensures |r| == |s| - 1
    ensures forall t :: 0 <= t < i ==> r[t] == s[t]
    ensures forall t :: i <= t < |r| ==> r[t] == s[t + 1]
    ensures multiset(r) == multiset(s) - multiset{s[i]}
  {
    assert s == s[..i] + [s[i]] + s[i + 1..];
    s[..i] + s[i + 1..]
  }

  /** Index of the first occurrence of `x` in `s` at or after `k`, or |s| when
      there is none. */
  function IndexFrom<T(==)>(s: seq<T>, x: T, k: nat): (r: nat)
    requires k <= |s|
    ensures k <= r <= |s|
    ensures r < |s| ==> s[r] == x
    ensures forall t :: k <= t < r ==> s[t] != x
    decreases |s| - k
  {
    if k == |s| then |s| else if s[k] == x then k else IndexFrom(s, x, k + 1)
  }

  /** Index of the first occurrence of `x` in `s`, or |s| when it is absent
      (C++ `std::find` returning `end()`). */
  function FirstIndex<T(==)>(s: seq<T>, x: T): (r: nat)
    ensures r <= |s|
    ensures r < |s| ==> s[r] == x
    ensures forall t :: 0 <= t < r ==> s[t] != x
    ensures r == |s| <==> x !in s
  {
    IndexFrom(s, x, 0)
  }

  /** Python's `list.remove(x)` on a list whose elements compare by value:
      deletes the first element equal to `x`, or raises ValueError. */
  function RemoveFirst<T(==)>(s: seq<T>, x: T): (r: Result<seq<T>>)
    ensures r.Ok? <==> x in s
    ensures r.Err? ==> r.error == ValueError
    ensures r.Ok? ==> multiset(r.value) == multiset(s) - multiset{x}
    ensures r.Ok? ==> |r.value| == |s| - 1
    ensures r.Ok? ==> exists i :: 0 <= i < |s| && s[i] == x && (forall t :: 0 <= t < i ==> s[t] != x) &&
                                  r.value == RemoveAt(s, i)
  {
    var i := FirstIndex(s, x);
    if i == |s| then Err(ValueError) else Ok(RemoveAt(s, i))
  }

  /** `list.insert(i, x)` / `std::vector::insert`. */
  function InsertAt<T>(s: seq<T>, i: nat, x: T): (r: seq<T>)
    requires i <= |s|
    ensures |r| == |s| + 1 && r[i] == x
    ensures forall t :: 0 <= t < i ==> r[t] == s[t]
    ensures forall t :: i < t < |r| ==> r[t] == s[t - 1]
    ensures multiset(r) == multiset(s) + multiset{x}
  {
    assert s == s[..i] + s[i..];
    s[..i] + [x] + s[i..]
  }
}
