/** The generic helpers of `src/utils.tsx`: decimal rendering of integers,
    unique label generation, moving an element inside a list, `toArray`,
    `without`, `num`, `numSC` and the trailing-slash rule of `basename`. */
module Utils {
  import opened Wrappers
  import opened JsObject

  // ---------------------------------------------------------------------
  // Decimal rendering (`${n}` and `n.toString()` for integers)
  // ---------------------------------------------------------------------

  predicate IsDigit(c: char) { '0' <= c <= '9' }

  /** The number a string of decimal digits spells, most significant first. */
  function DecimalValue(s: string): nat
    requires forall i :: 0 <= i < |s| ==> IsDigit(s[i])
  {
    if s == [] then 0
    else
      assert IsDigit(s[|s| - 1]);
      DecimalValue(s[..|s| - 1]) * 10 + (s[|s| - 1] as int - 48)
  }

  /** The decimal digits of `n`, most significant first, without leading zeros. */
  function NatToString(n: nat): (s: string)
    ensures |s| >= 1 && (|s| == 1 <==> n < 10)
    ensures forall i :: 0 <= i < |s| ==> IsDigit(s[i])
  {
    if n < 10 then [(48 + n) as char]
    else NatToString(n / 10) + [(48 + n % 10) as char]
  }

  /** The digits spell `n`. */
  lemma {:induction false} NatToStringValue(n: nat)
    ensures DecimalValue(NatToString(n)) == n
  {
    var s := NatToString(n);
    if n < 10 {
      assert s[..0] == [];
    } else {
      assert s[..|s| - 1] == NatToString(n / 10);
      NatToStringValue(n / 10);
    }
  }

  /** Different numbers have different decimal forms. */
  lemma {:induction false} NatToStringInjective(a: nat, b: nat)
    requires NatToString(a) == NatToString(b)
    ensures a == b
  {
    var sa, sb := NatToString(a), NatToString(b);
    if a >= 10 && b >= 10 {
      assert sa[|sa| - 1] == sb[|sb| - 1];
      assert sa[..|sa| - 1] == NatToString(a / 10);
      assert sb[..|sb| - 1] == NatToString(b / 10);
      NatToStringInjective(a / 10, b / 10);
    } else {
      assert sa[0] == sb[0];
    }
  }

  /** `n.toString()` for an integer: a minus sign, then the digits of `|n|`.
      JavaScript prints this form for integers below 10^21 in magnitude. */
  function IntToString(n: int): (s: string)
    ensures |s| >= 1
    ensures n < 0 <==> s[0] == '-'
    ensures forall i :: 0 < i < |s| ==> IsDigit(s[i])
  {
    if n < 0 then "-" + NatToString(-n) else NatToString(n)
  }

  /** The digits of `n.toString()` spell the magnitude of `n`. */
  lemma IntToStringValue(n: int)
    ensures n >= 0 ==> DecimalValue(IntToString(n)) == n
    ensures n < 0 ==> |IntToString(n)| >= 2 && IntToString(n)[1..] == NatToString(-n)
                      && DecimalValue(IntToString(n)[1..]) == -n
  {
    if n >= 0 {
      NatToStringValue(n);
    } else {
      assert IntToString(n)[1..] == NatToString(-n);
      NatToStringValue(-n);
    }
  }

  /** Different integers have different decimal forms. */
  lemma IntToStringInjective(a: int, b: int)
    requires IntToString(a) == IntToString(b)
    ensures a == b
  {
    if a < 0 && b < 0 {
      assert NatToString(-a) == IntToString(a)[1..];
      assert NatToString(-b) == IntToString(b)[1..];
      NatToStringInjective(-a, -b);
    } else if a >= 0 && b >= 0 {
      NatToStringInjective(a, b);
    }
  }

  // ---------------------------------------------------------------------
  // newUniqueLabel
  // ---------------------------------------------------------------------

  /** The label tried on round `k` for a list of `n` labels:
      `prefix + (n+1)` first, then `prefix + (n+1) + "(k)"`. */
  function Candidate(prefix: string, n: nat, k: nat): (c: string)
    ensures |c| > |prefix| && c[..|prefix|] == prefix
  {
    if k == 0 then prefix + NatToString(n + 1)
    else prefix + NatToString(n + 1) + "(" + NatToString(k) + ")"
  }

  /** No label is tried twice. */
  lemma CandidateInjective(prefix: string, n: nat, j: nat, k: nat)
    requires Candidate(prefix, n, j) == Candidate(prefix, n, k)
    ensures j == k
  {
    var base := prefix + NatToString(n + 1);
    if j != 0 && k != 0 {
      var sj, sk := Candidate(prefix, n, j), Candidate(prefix, n, k);
      assert |NatToString(j)| == |NatToString(k)|;
      assert NatToString(j) == sj[|base| + 1..|sj| - 1];
      assert NatToString(k) == sk[|base| + 1..|sk| - 1];
      NatToStringInjective(j, k);
    }
  }

  /** The distinct labels among `labels`. */
  lemma DistinctLabelsBound(labels: seq<string>)
    ensures |set l | l in labels| <= |labels|
  {
    if labels != [] {
      var rest := labels[1..];
      DistinctLabelsBound(rest);
      assert (set l | l in labels) == (set l | l in rest) + {labels[0]};
    }
  }

  /** The first `m` candidates as a set has `m` elements. */
  lemma TriedSetSize(prefix: string, n: nat, m: nat)
    ensures |set k | 0 <= k < m :: Candidate(prefix, n, k)| == m
  {
    var f := (k: nat) => Candidate(prefix, n, k);
    forall j: nat, k: nat | f(j) == f(k) ensures j == k {
      CandidateInjective(prefix, n, j, k);
    }
    InjectiveImageSize(f, m);
    var image, tried := set k | 0 <= k < m :: f(k), set k | 0 <= k < m :: Candidate(prefix, n, k);
    forall c | c in image ensures c in tried {
      var k :| 0 <= k < m && f(k) == c;
      assert Candidate(prefix, n, k) == c;
    }
    forall c | c in tried ensures c in image {
      var k :| 0 <= k < m && Candidate(prefix, n, k) == c;
      assert f(k) == c;
    }
    assert image == tried;
  }

  /** An injective function maps the first `m` naturals to `m` distinct values. */
  lemma {:induction false} InjectiveImageSize<T>(f: nat -> T, m: nat)
    requires forall j, k :: f(j) == f(k) ==> j == k
    ensures |set k | 0 <= k < m :: f(k)| == m
  {
    if m > 0 {
      InjectiveImageSize(f, m - 1);
      var before := set k | 0 <= k < m - 1 :: f(k);
      assert (set k | 0 <= k < m :: f(k)) == before + {f(m - 1)};
    }
  }

  /** Pigeonhole: at most `|labels|` candidates can all be taken, so the
      search of `newUniqueLabel` tries at most `|labels| + 1` of them. */
  lemma CandidatesBound(labels: seq<string>, prefix: string, m: nat)
    requires forall k :: 0 <= k < m ==> Candidate(prefix, |labels|, k) in labels
    ensures m <= |labels|
  {
    var tried := set k | 0 <= k < m :: Candidate(prefix, |labels|, k);
    var taken := set l | l in labels;
    assert tried <= taken;
    TriedSetSize(prefix, |labels|, m);
    DistinctLabelsBound(labels);
    assert |tried| <= |taken| by {
      assert taken == tried + (taken - tried);
    }
  }

  /** The least round, from `k` on, whose candidate is free. */
  function FirstFreeFrom(labels: seq<string>, prefix: string, k: nat): (r: nat)
    requires forall j :: 0 <= j < k ==> Candidate(prefix, |labels|, j) in labels
    ensures k <= r <= |labels|
    ensures Candidate(prefix, |labels|, r) !in labels
    ensures forall j :: 0 <= j < r ==> Candidate(prefix, |labels|, j) in labels
    decreases |labels| - k
  {
    CandidatesBound(labels, prefix, k);
    if Candidate(prefix, |labels|, k) !in labels then k
    else
      CandidatesBound(labels, prefix, k + 1);
      FirstFreeFrom(labels, prefix, k + 1)
  }

  /** The label `newUniqueLabel(labels, prefix)` returns. */
  function UniqueLabel(labels: seq<string>, prefix: string): (r: string)
    ensures r !in labels
  {
    Candidate(prefix, |labels|, FirstFreeFrom(labels, prefix, 0))
  }

  /** The `while` loop of `newUniqueLabel`: it stops at the least free
      candidate, which is therefore not among `labels`. */
  method NewUniqueLabel(labels: seq<string>, prefix: string) returns (result: string)
    ensures result !in labels
    ensures exists k :: 0 <= k <= |labels| && result == Candidate(prefix, |labels|, k)
    ensures result == UniqueLabel(labels, prefix)
  {
    var usedCount := 0;
    result := prefix + NatToString(|labels| + 1);
    while result in labels
      invariant usedCount <= |labels|
      invariant result == Candidate(prefix, |labels|, usedCount)
      invariant forall j :: 0 <= j < usedCount ==> Candidate(prefix, |labels|, j) in labels
      decreases |labels| - usedCount
    {
      CandidatesBound(labels, prefix, usedCount + 1);
      usedCount := usedCount + 1;
      result := prefix + NatToString(|labels| + 1) + "(" + NatToString(usedCount) + ")";
    }
    assert usedCount == FirstFreeFrom(labels, prefix, 0);
  }

  // ---------------------------------------------------------------------
  // moveElement
  // ---------------------------------------------------------------------

  function Min(a: int, b: int): int { if a <= b then a else b }
  function Max(a: int, b: int): int { if a >= b then a else b }

  function RemoveAt<T>(s: seq<T>, i: nat): (r: seq<T>)
    requires i < |s|
  {
    s[..i] + s[i + 1..]
  }

  function InsertAt<T>(s: seq<T>, i: nat, x: T): (r: seq<T>)
    requires i <= |s|
  {
    s[..i] + [x] + s[i..]
  }

  /** The element at `from` taken out and put back in at `to`. */
  function Moved<T>(s: seq<T>, from: nat, to: nat): (r: seq<T>)
    requires from < |s| && to < |s|
    ensures |r| == |s|
    ensures r[to] == s[from]
  {
    InsertAt(RemoveAt(s, from), to, s[from])
  }

  /** Where `moveElement` puts the element: `prevIndex + delta` clamped to the list. */
  function MoveTarget(length: nat, prevIndex: nat, delta: int): (t: int)
    requires prevIndex < length
    ensures 0 <= t < length
    ensures delta > 0 ==> t == Min(prevIndex + delta, length - 1)
    ensures delta <= 0 ==> t == Max(prevIndex + delta, 0)
  {
    if delta > 0 then Min(prevIndex + delta, length - 1) else Max(prevIndex + delta, 0)
  }

  /** What `moveElement(items, prevIndex, delta)` returns. */
  function MoveSpec<T>(items: seq<T>, prevIndex: int, delta: int): (r: seq<T>)
    requires delta == 0 || 0 <= prevIndex < |items|
    ensures |r| == |items|
    ensures delta == 0 ==> r == items
  {
    if delta == 0 then items else Moved(items, prevIndex, MoveTarget(|items|, prevIndex, delta))
  }

  /** The moved element lands at `to`; the elements strictly between the two
      positions shift one step toward the vacated slot; the rest stay put. */
  lemma MovedShape<T>(s: seq<T>, from: nat, to: nat)
    requires from < |s| && to < |s|
    ensures Moved(s, from, to)[to] == s[from]
    ensures forall k :: 0 <= k < |s| && k < Min(from, to) ==> Moved(s, from, to)[k] == s[k]
    ensures forall k :: Max(from, to) < k < |s| ==> Moved(s, from, to)[k] == s[k]
    ensures forall k :: from <= k < to ==> Moved(s, from, to)[k] == s[k + 1]
    ensures forall k :: to < k <= from ==> Moved(s, from, to)[k] == s[k - 1]
  {
    var rest := RemoveAt(s, from);
    assert forall k :: 0 <= k < |rest| ==> rest[k] == if k < from then s[k] else s[k + 1];
    var m := Moved(s, from, to);
    assert m == rest[..to] + [s[from]] + rest[to..];
    forall k | 0 <= k < |s|
      ensures m[k] == if k < to then rest[k] else if k == to then s[from] else rest[k - 1]
    {
      if k < to {
        assert m[k] == rest[..to][k];
      } else if k > to {
        assert m[k] == rest[to..][k - to - 1];
      }
    }
  }

  /** Moving is a permutation. */
  lemma MovedPermutes<T>(s: seq<T>, from: nat, to: nat)
    requires from < |s| && to < |s|
    ensures multiset(Moved(s, from, to)) == multiset(s)
  {
    var rest := RemoveAt(s, from);
    assert s == s[..from] + [s[from]] + s[from + 1..];
    assert rest == rest[..to] + rest[to..];
    calc {
      multiset(Moved(s, from, to));
      multiset(rest[..to]) + multiset{s[from]} + multiset(rest[to..]);
      multiset(rest) + multiset{s[from]};
      multiset(s[..from]) + multiset(s[from + 1..]) + multiset{s[from]};
      multiset(s);
    }
  }

  /** Moving back undoes a move. */
  lemma MovedInverse<T>(s: seq<T>, from: nat, to: nat)
    requires from < |s| && to < |s|
    ensures Moved(Moved(s, from, to), to, from) == s
  {
    var rest := RemoveAt(s, from);
    var m := Moved(s, from, to);
    assert m[to] == s[from];
    assert RemoveAt(m, to) == rest;
    assert InsertAt(rest, from, s[from]) == s;
  }

  /** `copyWithin(target, start, end)` on an array, for arguments inside the
      array: the slice `[start, end)` is copied to `target`, as if through a
      temporary buffer, so overlapping ranges are handled. */
  method CopyWithin<T>(a: array<T>, target: nat, start: nat, end: nat)
    requires start <= end <= a.Length
    requires target + (end - start) <= a.Length
    modifies a
    ensures forall k :: target <= k < target + (end - start) ==> a[k] == old(a[..])[k - target + start]
    ensures forall k :: 0 <= k < a.Length && !(target <= k < target + (end - start)) ==> a[k] == old(a[k])
  {
    var count := end - start;
    if target <= start {
      var i := 0;
      while i < count
        invariant 0 <= i <= count
        invariant forall k :: target <= k < target + i ==> a[k] == old(a[k - target + start])
        invariant forall k :: 0 <= k < target ==> a[k] == old(a[k])
        invariant forall k :: target + i <= k < a.Length ==> a[k] == old(a[k])
      {
        a[target + i] := a[start + i];
        i := i + 1;
      }
    } else {
      var i := count;
      while i > 0
        invariant 0 <= i <= count
        invariant forall k :: target + i <= k < target + count ==> a[k] == old(a[k - target + start])
        invariant forall k :: 0 <= k < target + i ==> a[k] == old(a[k])
        invariant forall k :: target + count <= k < a.Length ==> a[k] == old(a[k])
      {
        a[target + i - 1] := a[start + i - 1];
        i := i - 1;
      }
    }
  }

  /** What position `k` holds once the elements between `from` and `to` have
      shifted toward `from`. */
  function Shifted<T>(s: seq<T>, from: nat, to: nat, k: nat): T
    requires from < |s| && to < |s| && k < |s|
  {
    if from <= k < to then s[k + 1] else if to < k <= from then s[k - 1] else s[k]
  }

  /** A list that agrees with `Moved(s, from, to)` position by position is that list. */
  lemma MovedByPositions<T>(s: seq<T>, r: seq<T>, from: nat, to: nat)
    requires from < |s| && to < |s| && |r| == |s|
    requires r[to] == s[from]
    requires forall k :: 0 <= k < |s| && k != to ==> r[k] == Shifted(s, from, to, k)
    ensures r == Moved(s, from, to)
  {
    MovedShape(s, from, to);
    forall k | 0 <= k < |s|
      ensures r[k] == Moved(s, from, to)[k]
    {
    }
  }

  /** Once the elements in between have shifted, writing the moved element
      at `to` completes the move. */
  lemma PlaceMoved<T>(s: seq<T>, shifted: seq<T>, from: nat, to: nat)
    requires from < |s| && to < |s| && |shifted| == |s|
    requires forall k :: 0 <= k < |s| ==> shifted[k] == Shifted(s, from, to, k)
    ensures shifted[to := s[from]] == Moved(s, from, to)
  {
    MovedByPositions(s, shifted[to := s[from]], from, to);
  }

  /** `moveElement`: a copy of `items` (never the input itself) with the
      element at `prevIndex` moved by `delta`, the target clamped to the list. */
  method MoveElement<T>(items: seq<T>, prevIndex: int, delta: int) returns (r: seq<T>)
    requires delta == 0 || 0 <= prevIndex < |items|
    ensures r == MoveSpec(items, prevIndex, delta)
  {
    var newArray := new T[|items|](i requires 0 <= i < |items| => items[i]);
    assert newArray[..] == items;
    if delta == 0 {
      return newArray[..];
    }
    var length := newArray.Length;
    var element := newArray[prevIndex];
    var newIndex;
    var tryIndex := prevIndex + delta;
    ghost var shifted: seq<T>;
    if delta > 0 {
      newIndex := Min(tryIndex, length - 1);
      CopyWithin(newArray, prevIndex, prevIndex + 1, newIndex + 1);
      shifted := newArray[..];
      assert forall k :: 0 <= k < length ==> shifted[k] == Shifted(items, prevIndex, newIndex, k);
    } else {
      newIndex := Max(tryIndex, 0);
      CopyWithin(newArray, newIndex + 1, newIndex, prevIndex);
      shifted := newArray[..];
      assert forall k :: 0 <= k < length ==> shifted[k] == Shifted(items, prevIndex, newIndex, k);
    }
    newArray[newIndex] := element;
    r := newArray[..];
    assert r == shifted[newIndex := element];
    assert newIndex == MoveTarget(length, prevIndex, delta);
    PlaceMoved(items, shifted, prevIndex, newIndex);
  }

  // ---------------------------------------------------------------------
  // toArray, without, num, numSC, basename
  // ---------------------------------------------------------------------

  /** The argument of `toArray`: `undefined`, `null`, one value or an array. */
  datatype Arg<T> = Undefined | Null | One(value: T) | Many(items: seq<T>)

  /** `toArray`: nothing for `undefined`/`null`, the array itself, or a
      one-element array around a single value. */
  function ToArray<T>(arg: Arg<T>): (r: seq<T>)
    ensures arg.Many? ==> r == arg.items
    ensures arg.One? ==> r == [arg.value]
    ensures (arg.Undefined? || arg.Null?) ==> r == []
  {
    match arg
    case Undefined => []
    case Null => []
    case One(v) => [v]
    case Many(items) => items
  }

  /** `toArray` of an array it produced gives the same array back. */
  lemma ToArrayIdempotent<T>(arg: Arg<T>)
    ensures ToArray(Many(ToArray(arg))) == ToArray(arg)
  {
  }

  /** The entries of `obj` whose key is not among `keys`, in their order. */
  function Omit<K(==), V>(obj: seq<(K, V)>, keys: seq<K>): (r: seq<(K, V)>)
    ensures |r| <= |obj|
  {
    if obj == [] then []
    else
      var last := obj[|obj| - 1];
      Omit(obj[..|obj| - 1], keys) + (if last.0 in keys then [] else [last])
  }

  /** `Omit` keeps exactly the entries of `obj` whose key is not in `keys`. */
  lemma {:induction false} OmitMembers<K(!new), V(!new)>(obj: seq<(K, V)>, keys: seq<K>)
    ensures forall e :: e in Omit(obj, keys) <==> e in obj && e.0 !in keys
  {
    if obj != [] {
      var front, last := obj[..|obj| - 1], obj[|obj| - 1];
      OmitMembers(front, keys);
      assert obj == front + [last];
    }
  }

  /** The key of entry `i` has not been copied yet when the loop of
      `without` reaches it, because object keys are distinct. */
  lemma NotYetCopied<K(!new), V(!new)>(obj: seq<(K, V)>, keys: seq<K>, i: nat)
    requires DistinctKeys(obj) && i < |obj|
    ensures obj[i].0 !in KeysOf(Omit(obj[..i], keys))
  {
    var copied := Omit(obj[..i], keys);
    OmitMembers(obj[..i], keys);
    forall j | 0 <= j < |copied|
      ensures copied[j].0 != obj[i].0
    {
      assert copied[j] in obj[..i];
    }
  }

  /** One more entry considered by `without`. */
  lemma OmitStep<K, V>(obj: seq<(K, V)>, keys: seq<K>, i: nat)
    requires i < |obj|
    ensures Omit(obj[..i + 1], keys) == Omit(obj[..i], keys) + (if obj[i].0 in keys then [] else [obj[i]])
  {
    assert obj[..i + 1][..i] == obj[..i];
  }

  /** `without`: fills a fresh object, entry by entry, with the entries of
      `obj` whose key is not in `keys`. */
  method Without<K(==,!new), V(!new)>(obj: seq<(K, V)>, keys: seq<K>) returns (nObj: seq<(K, V)>)
    requires DistinctKeys(obj)
    ensures nObj == Omit(obj, keys)
    ensures DistinctKeys(nObj)
  {
    nObj := [];
    var i := 0;
    while i < |obj|
      invariant 0 <= i <= |obj|
      invariant nObj == Omit(obj[..i], keys)
      invariant DistinctKeys(nObj)
    {
      var (k, v) := obj[i];
      ghost var copied := nObj;
      if k !in keys {
        assert Assign(nObj, k, v) == nObj + [(k, v)] && DistinctKeys(Assign(nObj, k, v)) by {
          NotYetCopied(obj, keys, i);
          AssignKeepsDistinct(nObj, k, v);
        }
        nObj := Assign(nObj, k, v);
      }
      assert nObj == Omit(obj[..i + 1], keys) by {
        assert nObj == copied + (if k in keys then [] else [(k, v)]);
        OmitStep(obj, keys, i);
      }
      i := i + 1;
    }
    assert obj[..i] == obj;
  }

  /** An argument of `num`. */
  datatype NumArg = Number(n: real) | Str(s: string) | UndefinedArg | NullArg

  /** The characters `String.prototype.trim` removes: ECMAScript WhiteSpace
      and LineTerminator code points. */
  predicate IsJsSpace(c: char) {
    || c == '\U{9}' || c == '\U{B}' || c == '\U{C}' || c == '\U{FEFF}'
    || c == '\U{20}' || c == '\U{A0}' || c == '\U{1680}' || ('\U{2000}' <= c <= '\U{200A}')
    || c == '\U{202F}' || c == '\U{205F}' || c == '\U{3000}'
    || c == '\U{A}' || c == '\U{D}' || c == '\U{2028}' || c == '\U{2029}'
  }

  /** `!s.trim()`: the string is empty or only white space. */
  predicate IsBlank(s: string) {
    forall i :: 0 <= i < |s| ==> IsJsSpace(s[i])
  }

  /** What one argument contributes to `num`: a number as it is; nothing for
      `undefined`, `null` or a blank string; otherwise the string's value when
      `Number(s)` is a safe integer (`safeInt` stands for that conversion). */
  function Reading(a: NumArg, safeInt: string -> Option<int>): (r: Option<real>)
    ensures a.Number? ==> r == Some(a.n)
    ensures (a.UndefinedArg? || a.NullArg? || (a.Str? && IsBlank(a.s))) ==> r.None?
    ensures a.Str? && !IsBlank(a.s) ==> (r.Some? <==> safeInt(a.s).Some?)
    ensures a.Str? && r.Some? ==> r.value == safeInt(a.s).value as real
  {
    match a
    case Number(n) => Some(n)
    case UndefinedArg => None
    case NullArg => None
    case Str(s) =>
      if IsBlank(s) then None
      else match safeInt(s)
        case None => None
        case Some(i) => Some(i as real)
  }

  const NumError: string := "数字转换失败"

  /** `num(...from)`: the first argument that yields a number, or the error
      `num` throws when none does. */
  method Num(from: seq<NumArg>, safeInt: string -> Option<int>) returns (r: Result<real, string>)
    ensures r.Failure? <==> forall i :: 0 <= i < |from| ==> Reading(from[i], safeInt).None?
    ensures r.Failure? ==> r.error == NumError
    ensures r.Success? ==> exists i :: 0 <= i < |from| && Reading(from[i], safeInt) == Some(r.value)
                                     && forall j :: 0 <= j < i ==> Reading(from[j], safeInt).None?
  {
    var i := 0;
    while i < |from|
      invariant 0 <= i <= |from|
      invariant forall j :: 0 <= j < i ==> Reading(from[j], safeInt).None?
    {
      var f := from[i];
      if f.Number? {
        return Success(f.n);
      }
      if f.UndefinedArg? || f.NullArg? || IsBlank(f.s) {
        i := i + 1;
        continue;
      }
      var parsed := safeInt(f.s);
      if parsed.Some? {
        return Success(parsed.value as real);
      }
      i := i + 1;
    }
    return Failure(NumError);
  }

  const Numerals: seq<string> := ["零", "一", "二", "三", "四", "五", "六", "七", "八", "九", "十"]

  /** `numSC`: the Chinese numeral for 0 to 10, the decimal form otherwise. */
  function NumSC(from: int): (r: string)
    ensures 0 <= from <= 10 ==> r == Numerals[from]
    ensures !(0 <= from <= 10) ==> r == IntToString(from)
  {
    if 0 <= from < |Numerals| then Numerals[from] else IntToString(from)
  }

  /** A numeral never starts the way a decimal form does. */
  lemma NumSCFirstChar(x: int)
    ensures |NumSC(x)| >= 1
    ensures (0 <= x <= 10) <==> !(IsDigit(NumSC(x)[0]) || NumSC(x)[0] == '-')
  {
  }

  /** `numSC` never gives two integers the same text. */
  lemma NumSCInjective(a: int, b: int)
    requires NumSC(a) == NumSC(b)
    ensures a == b
  {
    NumSCFirstChar(a);
    NumSCFirstChar(b);
    if !(0 <= a <= 10) && !(0 <= b <= 10) {
      IntToStringInjective(a, b);
    }
  }

  /** The rule behind `basename`: the base URL itself when it already ends
      with `/`, otherwise the base URL with `/` appended. */
  function WithTrailingSlash(base: string): (r: string)
    ensures |base| <= |r| <= |base| + 1
    ensures r[..|base|] == base
    ensures |r| > 0 && r[|r| - 1] == '/'
    ensures |r| == |base| <==> (|base| > 0 && base[|base| - 1] == '/')
  {
    if |base| > 0 && base[|base| - 1] == '/' then base else base + "/"
  }

  /** Applying the rule twice changes nothing more. */
  lemma WithTrailingSlashIdempotent(base: string)
    ensures WithTrailingSlash(WithTrailingSlash(base)) == WithTrailingSlash(base)
  {
  }
}
